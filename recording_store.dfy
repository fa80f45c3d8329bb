/**
 * `InMemoryRecordingStore`: audio recordings attached to medical events, kept
 * in an insertion-ordered map from recording id to recording.
 */
module RecordingStore {
  import opened Common
  import Text
  import OrderedMaps
  import PerEvent
  import Listing
  import Ids

  /** `EventRecording`. */
  datatype EventRecording = EventRecording(
    id: string,
    eventId: string,
    recordingUrl: string,
    fileName: string,
    durationSeconds: Option<int>,
    description: Option<string>,
    createdAt: string)

  /** `CreateRecordingInput`. */
  datatype CreateRecordingInput = CreateRecordingInput(
    eventId: string,
    recordingUrl: string,
    fileName: string,
    durationSeconds: Option<int>,
    description: Option<string>)

  function IdOf(r: EventRecording): string { r.id }
  function EventOf(r: EventRecording): string { r.eventId }
  function CreatedOf(r: EventRecording): string { r.createdAt }

  class InMemoryRecordingStore {
    var recordings: OrderedMaps.OrderedMap<EventRecording>

    ghost predicate Valid()
      reads this
    {
      PerEvent.Keyed(recordings, IdOf)
    }

    constructor()
      ensures Valid()
      ensures recordings.keys == [] && recordings.entries == map[]
    {
      recordings := OrderedMaps.Empty();
    }

    /**
     * `create`: stores a new recording under a fresh id, copying the input's
     * fields unchanged and stamping `createdAt` with `now`. It joins its
     * event's list; every other event's list is unchanged.
     */
    method Create(input: CreateRecordingInput, now: string) returns (rec: EventRecording)
      requires Valid()
      requires |recordings.entries| < Ids.Capacity
      modifies this
      ensures Valid()
      ensures rec.id !in old(recordings.entries) && Ids.IsUuid(rec.id)
      ensures rec.eventId == input.eventId && rec.recordingUrl == input.recordingUrl
      ensures rec.fileName == input.fileName && rec.durationSeconds == input.durationSeconds
      ensures rec.description == input.description && rec.createdAt == now
      ensures recordings.entries == old(recordings.entries)[rec.id := rec]
      ensures recordings.keys == old(recordings.keys) + [rec.id]
      ensures multiset(ListByEvent(rec.eventId)) == multiset(old(ListByEvent(rec.eventId))) + multiset{rec}
      ensures forall e :: e != rec.eventId ==> ListByEvent(e) == old(ListByEvent(e))
    {
      var id := Ids.FreshId(recordings.entries.Keys);
      rec := EventRecording(id, input.eventId, input.recordingUrl, input.fileName,
                            input.durationSeconds, input.description, now);
      PerEvent.ListAfterAdd(recordings, rec, IdOf, EventOf, CreatedOf);
      recordings := OrderedMaps.Set(recordings, id, rec);
    }

    /** `listByEvent`: exactly the event's recordings, oldest first; empty when it has none. */
    function ListByEvent(eventId: string): (r: seq<EventRecording>)
      requires Valid()
      reads this
      ensures forall x :: x in r <==> x in recordings.entries.Values && x.eventId == eventId
      ensures forall i, j :: 0 <= i < j < |r| ==> Text.LexLe(r[i].createdAt, r[j].createdAt)
      ensures (forall k :: k in recordings.entries ==> recordings.entries[k].eventId != eventId) ==> r == []
      ensures Listing.NoDuplicates(r)
    {
      PerEvent.ListByEventOfMap(recordings, EventOf, CreatedOf, eventId);
      PerEvent.ListByEventNoDuplicates(recordings, IdOf, EventOf, CreatedOf, eventId);
      PerEvent.ListByEvent(OrderedMaps.Values(recordings), EventOf, CreatedOf, eventId)
    }

    /**
     * `delete`: removes the id if present and is a no-op otherwise, so doing
     * it twice is doing it once. Other events' lists are unchanged.
     */
    method Delete(id: string)
      requires Valid()
      modifies this
      ensures Valid()
      ensures recordings.entries == old(recordings.entries) - {id}
      ensures id !in old(recordings.entries) ==> recordings == old(recordings)
      ensures recordings == OrderedMaps.Delete(old(recordings), id)
      ensures forall e, x :: x in ListByEvent(e) ==> x.id != id
      ensures forall e :: (id in old(recordings.entries) ==> old(recordings.entries[id]).eventId != e) ==>
                ListByEvent(e) == old(ListByEvent(e))
    {
      PerEvent.ListAfterRemove(recordings, id, IdOf, EventOf, CreatedOf);
      recordings := OrderedMaps.Delete(recordings, id);
    }
  }
}
