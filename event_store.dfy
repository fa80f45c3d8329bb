/**
 * `InMemoryMedicalEventStore`: medical events kept in an insertion-ordered
 * map from id to event. `listar` is a pure pipeline over a snapshot of the
 * stored values; the other operations update the map in place.
 */
module EventStore {
  import opened Common
  import opened Text
  import opened MedicalEvents
  import opened Listing
  import OrderedMaps
  import Ids

  /** `MedicalEventFilters` (`pacienteId`, `tipo`, `desde`, `hasta`): every filter may be omitted. */
  datatype EventFilters = EventFilters(
    patientId: Option<string>,
    eventType: Option<string>,
    from: Option<string>,
    to: Option<string>)

  const NoFilters := EventFilters(None, None, None, None)

  /** A filter is applied only when it is truthy: present and not the empty string. */
  predicate Active(o: Option<string>) {
    o.Some? && o.value != ""
  }

  /** The event passes every active filter; `desde` and `hasta` are inclusive bounds on the date. */
  predicate Matches(f: EventFilters, e: MedicalEvent): (b: bool)
    ensures f == NoFilters ==> b
    ensures b && Active(f.from) && Active(f.to) ==> LexLe(f.from.value, f.to.value)
  {
    var b :=
      && (Active(f.patientId) ==> e.patientId == f.patientId.GetOr(""))
      && (Active(f.eventType) ==> e.eventType == f.eventType.GetOr(""))
      && (Active(f.from) ==> LexLe(f.from.GetOr(""), e.date))
      && (Active(f.to) ==> LexLe(e.date, f.to.GetOr("")));
    if b && Active(f.from) && Active(f.to) then
      LexLeTrans(f.from.value, e.date, f.to.value);
      b
    else b
  }

  function DateOf(e: MedicalEvent): string {
    e.date
  }

  /** One step of the pipeline: filter by `p` when the filter is on, otherwise pass through. */
  function Stage(s: seq<MedicalEvent>, on: bool, p: MedicalEvent -> bool): seq<MedicalEvent> {
    if on then Where(s, p) else s
  }

  /** The four filter steps of `listar`, in the order it applies them. */
  function FilterSteps(vs: seq<MedicalEvent>, f: EventFilters): seq<MedicalEvent> {
    var byPatient := Stage(vs, Active(f.patientId), (e: MedicalEvent) => e.patientId == f.patientId.GetOr(""));
    var byType := Stage(byPatient, Active(f.eventType), (e: MedicalEvent) => e.eventType == f.eventType.GetOr(""));
    var byFrom := Stage(byType, Active(f.from), (e: MedicalEvent) => LexLe(f.from.GetOr(""), e.date));
    Stage(byFrom, Active(f.to), (e: MedicalEvent) => LexLe(e.date, f.to.GetOr("")))
  }

  /** `listar` over the values `vs`: the filter steps, then a stable sort by date, newest first. */
  function Listar(vs: seq<MedicalEvent>, f: EventFilters): (r: seq<MedicalEvent>)
    ensures |r| <= |vs|
    ensures forall i, j :: 0 <= i < j < |r| ==> LexLe(r[j].date, r[i].date)
  {
    SortBy(FilterSteps(vs, f), DateOf, true)
  }

  // ---- what listar returns ----

  lemma StageWhere(s: seq<MedicalEvent>, acc: MedicalEvent -> bool, on: bool, p: MedicalEvent -> bool, acc2: MedicalEvent -> bool)
    requires forall e :: acc2(e) == (acc(e) && (on ==> p(e)))
    ensures Stage(Where(s, acc), on, p) == Where(s, acc2)
  {
    if on {
      WhereWhere(s, acc, p, acc2);
    } else {
      WhereExt(s, acc, acc2);
    }
  }

  /** Applying the active filters one after the other is a single filter by `Matches`. */
  lemma FilterStepsIsWhere(vs: seq<MedicalEvent>, f: EventFilters)
    ensures FilterSteps(vs, f) == Where(vs, e => Matches(f, e))
  {
    var p1 := (e: MedicalEvent) => e.patientId == f.patientId.GetOr("");
    var p2 := (e: MedicalEvent) => e.eventType == f.eventType.GetOr("");
    var p3 := (e: MedicalEvent) => LexLe(f.from.GetOr(""), e.date);
    var p4 := (e: MedicalEvent) => LexLe(e.date, f.to.GetOr(""));
    var a0 := (e: MedicalEvent) => true;
    var a1 := (e: MedicalEvent) => Active(f.patientId) ==> p1(e);
    var a2 := (e: MedicalEvent) => a1(e) && (Active(f.eventType) ==> p2(e));
    var a3 := (e: MedicalEvent) => a2(e) && (Active(f.from) ==> p3(e));
    var a4 := (e: MedicalEvent) => Matches(f, e);
    WhereAll(vs, a0);
    StageWhere(vs, a0, Active(f.patientId), p1, a1);
    StageWhere(vs, a1, Active(f.eventType), p2, a2);
    StageWhere(vs, a2, Active(f.from), p3, a3);
    StageWhere(vs, a3, Active(f.to), p4, a4);
  }

  /**
   * `listar(f)` is the stable date-descending sort of exactly the events that
   * match `f`: a permutation of the matching values, nothing else.
   */
  lemma ListarSpec(vs: seq<MedicalEvent>, f: EventFilters)
    ensures Listar(vs, f) == SortBy(Where(vs, e => Matches(f, e)), DateOf, true)
    ensures multiset(Listar(vs, f)) == multiset(Where(vs, e => Matches(f, e)))
    ensures forall e :: e in Listar(vs, f) <==> e in vs && Matches(f, e)
    ensures forall i, j :: 0 <= i < j < |Listar(vs, f)| ==> LexLe(Listar(vs, f)[j].date, Listar(vs, f)[i].date)
  {
    FilterStepsIsWhere(vs, f);
    SortedFilterMembers(vs, e => Matches(f, e), DateOf, true);
  }

  /** Without filters every event is listed, so the list is as long as the store. */
  lemma ListarNoFilters(vs: seq<MedicalEvent>)
    ensures Listar(vs, NoFilters) == SortBy(vs, DateOf, true)
    ensures |Listar(vs, NoFilters)| == |vs|
  {
    FilterStepsIsWhere(vs, NoFilters);
    WhereAll(vs, e => Matches(NoFilters, e));
  }

  /** Filtering the full listing gives the filtered listing, order and ties included. */
  lemma ListarIsFilteredFullList(vs: seq<MedicalEvent>, f: EventFilters)
    ensures Listar(vs, f) == Where(Listar(vs, NoFilters), e => Matches(f, e))
  {
    ListarNoFilters(vs);
    FilterStepsIsWhere(vs, f);
    WhereSortBy(vs, e => Matches(f, e), DateOf, true);
  }

  /** A listing of distinct events has no duplicates. */
  lemma ListarNoDuplicates(vs: seq<MedicalEvent>, f: EventFilters)
    requires forall i, j :: 0 <= i < j < |vs| ==> vs[i] != vs[j]
    ensures NoDuplicates(Listar(vs, f))
  {
    ListarSpec(vs, f);
    DistinctNoDuplicates(vs);
    WhereMembers(vs, e => Matches(f, e));
    NoDuplicatesSub(Listar(vs, f), vs);
  }

  // ---- the store ----

  /** The map is well formed and every event is stored under its own id. */
  ghost predicate Stored(m: OrderedMaps.OrderedMap<MedicalEvent>) {
    OrderedMaps.Valid(m) && forall k :: k in m.entries ==> m.entries[k].id == k
  }

  /** Adding an event the map does not hold adds it to every listing it matches and changes nothing else there. */
  lemma ListarAfterCreate(m: OrderedMaps.OrderedMap<MedicalEvent>, e: MedicalEvent, f: EventFilters)
    requires Stored(m) && e.id !in m.entries
    ensures multiset(Listar(OrderedMaps.Values(OrderedMaps.Set(m, e.id, e)), f))
         == multiset(Listar(OrderedMaps.Values(m), f)) + (if Matches(f, e) then multiset{e} else multiset{})
  {
    var vs := OrderedMaps.Values(m);
    OrderedMaps.ValuesSetNew(m, e.id, e);
    ListarSpec(vs, f);
    ListarSpec(vs + [e], f);
    WhereAppend(vs, [e], x => Matches(f, x));
    WhereCons(e, [], x => Matches(f, x));
    assert [e] + [] == [e];
  }

  /** Updating a stored event swaps the old record for the new one in every listing, as far as each matches. */
  lemma ListarAfterUpdate(m: OrderedMaps.OrderedMap<MedicalEvent>, u: MedicalEvent, f: EventFilters)
    requires Stored(m) && u.id in m.entries
    ensures multiset(Listar(OrderedMaps.Values(OrderedMaps.Set(m, u.id, u)), f))
            + Passing(m.entries[u.id], e => Matches(f, e))
         == multiset(Listar(OrderedMaps.Values(m), f)) + Passing(u, e => Matches(f, e))
  {
    var vs := OrderedMaps.Values(m);
    var i := OrderedMaps.IndexOf(m.keys, u.id);
    OrderedMaps.ValuesSetExisting(m, u.id, u);
    ListarSpec(vs, f);
    ListarSpec(vs[i := u], f);
    WhereUpdate(vs, i, u, e => Matches(f, e));
  }

  /** After removing an id, no listing shows an event with that id. */
  lemma ListarAfterDelete(m: OrderedMaps.OrderedMap<MedicalEvent>, id: string, f: EventFilters)
    requires Stored(m)
    ensures forall e :: e in Listar(OrderedMaps.Values(OrderedMaps.Delete(m, id)), f) ==> e.id != id
  {
    var d := OrderedMaps.Delete(m, id);
    var vs := OrderedMaps.Values(d);
    ListarSpec(vs, f);
    forall e | e in vs
      ensures e.id != id
    {
      OrderedMaps.ValuesMembers(d, e);
    }
  }

  /**
   * The store class. `events` is the private `Map`; `Create` draws its ids
   * from an oracle that only promises an id not currently stored.
   */
  class InMemoryMedicalEventStore {
    var events: OrderedMaps.OrderedMap<MedicalEvent>

    ghost predicate Valid()
      reads this
    {
      Stored(events)
    }

    constructor()
      ensures Valid()
      ensures events.keys == [] && events.entries == map[]
    {
      events := OrderedMaps.Empty();
    }

    /**
     * `crear`: stores a new event under a fresh id, defaulting omitted flags to
     * false and stamping both timestamps with `now`; every other entry is kept.
     */
    method Create(input: CreateEventInput, now: string) returns (e: MedicalEvent)
      requires Valid()
      requires |events.entries| < Ids.Capacity
      modifies this
      ensures Valid()
      ensures e.id !in old(events.entries) && Ids.IsUuid(e.id)
      ensures e == NewEvent(e.id, input, now)
      ensures events.entries == old(events.entries)[e.id := e]
      ensures events.keys == old(events.keys) + [e.id]
      ensures GetById(e.id) == Some(e)
    {
      var id := Ids.FreshId(events.entries.Keys);
      e := NewEvent(id, input, now);
      events := OrderedMaps.Set(events, id, e);
    }

    /** `obtenerPorId`: the event stored under `id`, or `None` (null). */
    function GetById(id: string): (r: Option<MedicalEvent>)
      requires Valid()
      reads this
      ensures r.Some? <==> id in events.entries
      ensures r.Some? ==> r.value.id == id && r.value in events.entries.Values
    {
      OrderedMaps.Get(events, id)
    }

    /**
     * `listar`: the stored events that pass every active filter, newest date
     * first, each once.
     */
    function List(f: EventFilters): (r: seq<MedicalEvent>)
      requires Valid()
      reads this
      ensures forall e :: e in r <==> e in events.entries.Values && Matches(f, e)
      ensures forall i, j :: 0 <= i < j < |r| ==> LexLe(r[j].date, r[i].date)
      ensures NoDuplicates(r)
      ensures f == NoFilters ==> |r| == |events.entries|
    {
      var vs := OrderedMaps.Values(events);
      ListarSpec(vs, f);
      OrderedMaps.ValuesDistinct(events, (e: MedicalEvent) => e.id);
      ListarNoDuplicates(vs, f);
      ListarNoFilters(vs);
      OrderedMaps.KeysCount(events);
      assert forall e :: e in vs <==> e in events.entries.Values by {
        forall e ensures e in vs <==> e in events.entries.Values {
          OrderedMaps.ValuesMembers(events, e);
        }
      }
      Listar(vs, f)
    }

    /**
     * `actualizar`: fails with "Evento <id> no encontrado" and changes nothing
     * when the id is absent; otherwise replaces the event with the patched one,
     * in the same position, and leaves every other event alone.
     */
    method Update(id: string, patch: UpdateEventInput, now: string) returns (r: Result<MedicalEvent>)
      requires Valid()
      modifies this
      ensures Valid()
      ensures id !in old(events.entries) ==>
        r == Failure("Evento " + id + " no encontrado") && events == old(events)
      ensures id in old(events.entries) ==>
        && r == Success(ApplyPatch(old(events.entries[id]), patch, now))
        && events.entries == old(events.entries)[id := r.value]
        && events.keys == old(events.keys)
    {
      var existing := OrderedMaps.Get(events, id);
      if existing.None? {
        return Failure("Evento " + id + " no encontrado");
      }
      var updated := ApplyPatch(existing.value, patch, now);
      events := OrderedMaps.Set(events, id, updated);
      r := Success(updated);
    }

    /** `eliminar`: removes the id if present, otherwise a no-op; afterwards the id is not found. */
    method Delete(id: string)
      requires Valid()
      modifies this
      ensures Valid()
      ensures events.entries == old(events.entries) - {id}
      ensures id !in old(events.entries) ==> events == old(events)
      ensures events == OrderedMaps.Delete(old(events), id)
      ensures GetById(id) == None
    {
      events := OrderedMaps.Delete(events, id);
    }
  }
}
