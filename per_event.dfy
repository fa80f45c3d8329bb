/**
 * What the photo-link store and the recording store share: records attached
 * to a medical event, kept in an insertion-ordered map under their own id, and
 * listed per event by `filter(eventId === e)` then `sort` by `createdAt`
 * ascending (`a.createdAt.localeCompare(b.createdAt)`).
 */
module PerEvent {
  import opened Listing
  import Text
  import OrderedMaps

  /** `listByEvent(eventId)` over the values `vs`. */
  function ListByEvent<T>(vs: seq<T>, eventOf: T -> string, createdOf: T -> string, eventId: string): (r: seq<T>)
    ensures |r| <= |vs|
    ensures forall i :: 0 <= i < |r| ==> eventOf(r[i]) == eventId
    ensures forall i, j :: 0 <= i < j < |r| ==> Text.LexLe(createdOf(r[i]), createdOf(r[j]))
  {
    var w := Where(vs, x => eventOf(x) == eventId);
    var r := SortBy(w, createdOf, false);
    assert forall i :: 0 <= i < |r| ==> r[i] in multiset(w);
    r
  }

  /**
   * The list holds exactly the records of the event, each as often as it is
   * stored, oldest `createdAt` first.
   */
  lemma ListByEventSpec<T(!new)>(vs: seq<T>, eventOf: T -> string, createdOf: T -> string, eventId: string)
    ensures var r := ListByEvent(vs, eventOf, createdOf, eventId);
      && (forall x :: x in r <==> x in vs && eventOf(x) == eventId)
      && multiset(r) == multiset(Where(vs, x => eventOf(x) == eventId))
      && (forall i, j :: 0 <= i < j < |r| ==> Text.LexLe(createdOf(r[i]), createdOf(r[j])))
  {
    SortedFilterMembers(vs, x => eventOf(x) == eventId, createdOf, false);
  }

  /** Appending a record of another event leaves this event's list as it was. */
  lemma ListByEventAppendOther<T>(vs: seq<T>, x: T, eventOf: T -> string, createdOf: T -> string, eventId: string)
    requires eventOf(x) != eventId
    ensures ListByEvent(vs + [x], eventOf, createdOf, eventId) == ListByEvent(vs, eventOf, createdOf, eventId)
  {
    var p := (y: T) => eventOf(y) == eventId;
    WhereAppend(vs, [x], p);
    WhereCons(x, [], p);
    assert vs + [] == vs;
    assert Where(vs, p) + [] == Where(vs, p);
  }

  /** Appending a record of the event adds it, once, to the event's list. */
  lemma ListByEventAppendSame<T>(vs: seq<T>, x: T, eventOf: T -> string, createdOf: T -> string)
    ensures multiset(ListByEvent(vs + [x], eventOf, createdOf, eventOf(x)))
         == multiset(ListByEvent(vs, eventOf, createdOf, eventOf(x))) + multiset{x}
  {
    var p := (y: T) => eventOf(y) == eventOf(x);
    WhereAppend(vs, [x], p);
    WhereCons(x, [], p);
    assert [x] + [] == [x];
  }

  /** Dropping a record of another event leaves this event's list as it was. */
  lemma ListByEventRemoveOther<T>(vs: seq<T>, i: nat, eventOf: T -> string, createdOf: T -> string, eventId: string)
    requires i < |vs| && eventOf(vs[i]) != eventId
    ensures ListByEvent(vs[..i] + vs[i + 1..], eventOf, createdOf, eventId) == ListByEvent(vs, eventOf, createdOf, eventId)
  {
    WhereSkip(vs, i, x => eventOf(x) == eventId);
  }

  // ---- over the store's map ----

  /** `listByEvent` on a store: exactly the event's stored records, oldest first; empty when there are none. */
  lemma ListByEventOfMap<T(!new)>(m: OrderedMaps.OrderedMap<T>, eventOf: T -> string, createdOf: T -> string, eventId: string)
    requires OrderedMaps.Valid(m)
    ensures var r := ListByEvent(OrderedMaps.Values(m), eventOf, createdOf, eventId);
      && (forall x :: x in r <==> x in m.entries.Values && eventOf(x) == eventId)
      && multiset(r) == multiset(Where(OrderedMaps.Values(m), x => eventOf(x) == eventId))
      && (forall i, j :: 0 <= i < j < |r| ==> Text.LexLe(createdOf(r[i]), createdOf(r[j])))
      && ((forall k :: k in m.entries ==> eventOf(m.entries[k]) != eventId) ==> r == [])
  {
    var vs := OrderedMaps.Values(m);
    var r := ListByEvent(vs, eventOf, createdOf, eventId);
    ListByEventSpec(vs, eventOf, createdOf, eventId);
    forall x
      ensures x in vs <==> x in m.entries.Values
    {
      OrderedMaps.ValuesMembers(m, x);
    }
    if r != [] {
      assert r[0] in r;
    }
  }

  /** In a store that keeps each record under its own id, an event's list shows each record once. */
  lemma ListByEventNoDuplicates<T(!new)>(m: OrderedMaps.OrderedMap<T>, idOf: T -> string, eventOf: T -> string, createdOf: T -> string, eventId: string)
    requires Keyed(m, idOf)
    ensures NoDuplicates(ListByEvent(OrderedMaps.Values(m), eventOf, createdOf, eventId))
  {
    var vs := OrderedMaps.Values(m);
    OrderedMaps.ValuesDistinct(m, idOf);
    DistinctNoDuplicates(vs);
    ListByEventSpec(vs, eventOf, createdOf, eventId);
    WhereMembers(vs, x => eventOf(x) == eventId);
    NoDuplicatesSub(ListByEvent(vs, eventOf, createdOf, eventId), vs);
  }

  /** The map is well formed and every record is stored under its own id. */
  ghost predicate Keyed<T>(m: OrderedMaps.OrderedMap<T>, idOf: T -> string) {
    OrderedMaps.Valid(m) && forall k :: k in m.entries ==> idOf(m.entries[k]) == k
  }

  /**
   * Storing a record under a new id adds it to its event's list and leaves
   * the list of every other event unchanged.
   */
  lemma ListAfterAdd<T>(m: OrderedMaps.OrderedMap<T>, x: T, idOf: T -> string, eventOf: T -> string, createdOf: T -> string)
    requires Keyed(m, idOf) && idOf(x) !in m.entries
    ensures Keyed(OrderedMaps.Set(m, idOf(x), x), idOf)
    ensures var after := OrderedMaps.Values(OrderedMaps.Set(m, idOf(x), x));
      && multiset(ListByEvent(after, eventOf, createdOf, eventOf(x)))
         == multiset(ListByEvent(OrderedMaps.Values(m), eventOf, createdOf, eventOf(x))) + multiset{x}
      && forall e :: e != eventOf(x) ==>
           ListByEvent(after, eventOf, createdOf, e) == ListByEvent(OrderedMaps.Values(m), eventOf, createdOf, e)
  {
    var vs := OrderedMaps.Values(m);
    OrderedMaps.ValuesSetNew(m, idOf(x), x);
    ListByEventAppendSame(vs, x, eventOf, createdOf);
    forall e | e != eventOf(x)
      ensures ListByEvent(vs + [x], eventOf, createdOf, e) == ListByEvent(vs, eventOf, createdOf, e)
    {
      ListByEventAppendOther(vs, x, eventOf, createdOf, e);
    }
  }

  /**
   * Removing an id: no list shows a record with that id any more, and the
   * lists of events other than the removed record's are unchanged.
   */
  lemma ListAfterRemove<T(!new)>(m: OrderedMaps.OrderedMap<T>, id: string, idOf: T -> string, eventOf: T -> string, createdOf: T -> string)
    requires Keyed(m, idOf)
    ensures Keyed(OrderedMaps.Delete(m, id), idOf)
    ensures var after := OrderedMaps.Values(OrderedMaps.Delete(m, id));
      && (forall e, x :: x in ListByEvent(after, eventOf, createdOf, e) ==> idOf(x) != id)
      && (forall e :: (id in m.entries ==> eventOf(m.entries[id]) != e) ==>
           ListByEvent(after, eventOf, createdOf, e) == ListByEvent(OrderedMaps.Values(m), eventOf, createdOf, e))
  {
    var d := OrderedMaps.Delete(m, id);
    var vs := OrderedMaps.Values(m);
    var after := OrderedMaps.Values(d);
    forall e, x | x in ListByEvent(after, eventOf, createdOf, e)
      ensures idOf(x) != id
    {
      ListByEventSpec(after, eventOf, createdOf, e);
      OrderedMaps.ValuesMembers(d, x);
    }
    if id in m.entries {
      var i := OrderedMaps.IndexOf(m.keys, id);
      OrderedMaps.ValuesDelete(m, id);
      forall e | eventOf(m.entries[id]) != e
        ensures ListByEvent(after, eventOf, createdOf, e) == ListByEvent(vs, eventOf, createdOf, e)
      {
        ListByEventRemoveOther(vs, i, eventOf, createdOf, e);
      }
    }
  }
}
