/**
 * `InMemoryEventPhotoStore`: links from medical events to Google Photos items,
 * kept in an insertion-ordered map from link id to link.
 */
module PhotoStore {
  import opened Common
  import Text
  import OrderedMaps
  import PerEvent
  import Listing
  import Ids
  import PhotoValidator

  /** `EventPhoto`. */
  datatype EventPhoto = EventPhoto(
    id: string,
    eventId: string,
    googlePhotosUrl: string,
    googlePhotosId: string,
    description: Option<string>,
    createdAt: string)

  function IdOf(p: EventPhoto): string { p.id }
  function EventOf(p: EventPhoto): string { p.eventId }
  function CreatedOf(p: EventPhoto): string { p.createdAt }

  class InMemoryEventPhotoStore {
    var photos: OrderedMaps.OrderedMap<EventPhoto>

    ghost predicate Valid()
      reads this
    {
      PerEvent.Keyed(photos, IdOf)
    }

    constructor()
      ensures Valid()
      ensures photos.keys == [] && photos.entries == map[]
    {
      photos := OrderedMaps.Empty();
    }

    /**
     * `link`: stores a new link under a fresh id, copying the input's fields
     * and stamping `createdAt` with `now`. The link joins its event's list;
     * every other event's list is unchanged.
     */
    method Link(input: PhotoValidator.LinkPhotoInput, now: string) returns (p: EventPhoto)
      requires Valid()
      requires |photos.entries| < Ids.Capacity
      modifies this
      ensures Valid()
      ensures p.id !in old(photos.entries) && Ids.IsUuid(p.id)
      ensures p.eventId == input.eventId && p.googlePhotosUrl == input.googlePhotosUrl
      ensures p.googlePhotosId == input.googlePhotosId && p.description == input.description
      ensures p.createdAt == now
      ensures photos.entries == old(photos.entries)[p.id := p]
      ensures photos.keys == old(photos.keys) + [p.id]
      ensures multiset(ListByEvent(p.eventId)) == multiset(old(ListByEvent(p.eventId))) + multiset{p}
      ensures forall e :: e != p.eventId ==> ListByEvent(e) == old(ListByEvent(e))
    {
      var id := Ids.FreshId(photos.entries.Keys);
      p := EventPhoto(id, input.eventId, input.googlePhotosUrl, input.googlePhotosId, input.description, now);
      PerEvent.ListAfterAdd(photos, p, IdOf, EventOf, CreatedOf);
      photos := OrderedMaps.Set(photos, id, p);
    }

    /** `listByEvent`: exactly the event's links, oldest first; empty when it has none. */
    function ListByEvent(eventId: string): (r: seq<EventPhoto>)
      requires Valid()
      reads this
      ensures forall p :: p in r <==> p in photos.entries.Values && p.eventId == eventId
      ensures forall i, j :: 0 <= i < j < |r| ==> Text.LexLe(r[i].createdAt, r[j].createdAt)
      ensures (forall k :: k in photos.entries ==> photos.entries[k].eventId != eventId) ==> r == []
      ensures Listing.NoDuplicates(r)
    {
      PerEvent.ListByEventOfMap(photos, EventOf, CreatedOf, eventId);
      PerEvent.ListByEventNoDuplicates(photos, IdOf, EventOf, CreatedOf, eventId);
      PerEvent.ListByEvent(OrderedMaps.Values(photos), EventOf, CreatedOf, eventId)
    }

    /**
     * `unlink`: removes the id if present and is a no-op otherwise. No list
     * shows the removed link afterwards; other events' lists are unchanged.
     */
    method Unlink(id: string)
      requires Valid()
      modifies this
      ensures Valid()
      ensures photos.entries == old(photos.entries) - {id}
      ensures id !in old(photos.entries) ==> photos == old(photos)
      ensures photos == OrderedMaps.Delete(old(photos), id)
      ensures forall e, p :: p in ListByEvent(e) ==> p.id != id
      ensures forall e :: (id in old(photos.entries) ==> old(photos.entries[id]).eventId != e) ==>
                ListByEvent(e) == old(ListByEvent(e))
    {
      PerEvent.ListAfterRemove(photos, id, IdOf, EventOf, CreatedOf);
      photos := OrderedMaps.Delete(photos, id);
    }
  }
}
