/**
 * `InMemoryPhotoUploader`: stores uploaded photo files under a generated
 * `memory://` URL. A `File` is represented by its name, the only part of it
 * the uploader reads.
 */
module PhotoUploader {
  import opened Common
  import opened Text
  import Ids

  const UrlPrefix := "memory://event-photos/"

  /** `memory://event-photos/<eventId>/<id>-<fileName>`. */
  function PhotoUrl(eventId: string, id: string, fileName: string): string {
    UrlPrefix + UrlPath(eventId, id, fileName)
  }

  function UrlPath(eventId: string, id: string, fileName: string): string {
    eventId + "/" + id + "-" + fileName
  }

  datatype UrlParts = UrlParts(eventId: string, id: string, fileName: string)

  /**
   * The part after the prefix: the event id up to the first '/', then the
   * 36-character generated id, a '-', and the file name.
   */
  function ParseAfterPrefix(rest: string): (r: Option<UrlParts>)
    ensures r.Some? ==> rest == UrlPath(r.value.eventId, r.value.id, r.value.fileName)
    ensures r.Some? ==> '/' !in r.value.eventId && |r.value.id| == 36
  {
    match SplitAt(rest, '/')
    case None => None
    case Some(p) =>
      var tail := p.1;
      if |tail| < 37 || tail[36] != '-' then None
      else
        assert tail == tail[..36] + ['-'] + tail[37..];
        Some(UrlParts(p.0, tail[..36], tail[37..]))
  }

  /** Reads an upload URL back into its parts. */
  function ParsePhotoUrl(url: string): (r: Option<UrlParts>)
    ensures r.Some? ==> url == PhotoUrl(r.value.eventId, r.value.id, r.value.fileName)
    ensures r.Some? ==> '/' !in r.value.eventId && |r.value.id| == 36
  {
    if |url| < |UrlPrefix| || url[..|UrlPrefix|] != UrlPrefix then None
    else
      assert url == UrlPrefix + url[|UrlPrefix|..];
      ParseAfterPrefix(url[|UrlPrefix|..])
  }

  /**
   * A URL built from an event id without '/' and a generated id reads back
   * to its parts, whatever the file name (it may hold '/' and '-').
   */
  lemma ParsePhotoUrlRoundTrip(eventId: string, id: string, fileName: string)
    requires '/' !in eventId
    requires Ids.IsUuid(id)
    ensures ParsePhotoUrl(PhotoUrl(eventId, id, fileName)) == Some(UrlParts(eventId, id, fileName))
  {
    var url := PhotoUrl(eventId, id, fileName);
    var path := UrlPath(eventId, id, fileName);
    var tail := id + "-" + fileName;
    assert path == eventId + ['/'] + tail;
    assert url[..|UrlPrefix|] == UrlPrefix;
    assert url[|UrlPrefix|..] == path;
    SplitAtJoin(eventId, '/', tail);
    assert tail[..36] == id && tail[36] == '-' && tail[37..] == fileName;
  }

  /**
   * Uploads for events whose ids have no '/' get distinct URLs from distinct
   * generated ids: the URL determines the event id, the id and the name.
   */
  lemma PhotoUrlInjective(e1: string, i1: string, f1: string, e2: string, i2: string, f2: string)
    requires '/' !in e1 && '/' !in e2
    requires Ids.IsUuid(i1) && Ids.IsUuid(i2)
    requires PhotoUrl(e1, i1, f1) == PhotoUrl(e2, i2, f2)
    ensures e1 == e2 && i1 == i2 && f1 == f2
  {
    ParsePhotoUrlRoundTrip(e1, i1, f1);
    ParsePhotoUrlRoundTrip(e2, i2, f2);
  }

  /** The URL starts with the event id right after the prefix and ends with the file name. */
  lemma PhotoUrlContains(eventId: string, id: string, fileName: string)
    ensures var url := PhotoUrl(eventId, id, fileName);
      && |url| == |UrlPrefix| + |eventId| + |id| + |fileName| + 2
      && url[|UrlPrefix|..|UrlPrefix| + |eventId|] == eventId
      && url[|url| - |fileName|..] == fileName
  {
  }

  /** What the uploader records for a URL. */
  datatype StoredFile = StoredFile(eventId: string, fileName: string)

  /** `UploadResult`. */
  datatype UploadResult = UploadResult(url: string, fileName: string)

  /**
   * The uploader. `files` is the private `Map`; `issued` holds every id the
   * generator has handed out, so a new id differs from all earlier ones, as
   * `uuidv4()` ids do. The ghost `idOf` remembers the id inside each stored URL.
   */
  class InMemoryPhotoUploader {
    var files: map<string, StoredFile>
    var issued: set<string>
    ghost var idOf: map<string, string>

    /** Every stored URL was built from its record and an issued id. */
    ghost predicate Valid()
      reads this
    {
      && idOf.Keys == files.Keys
      && forall u :: u in files ==>
           idOf[u] in issued && Ids.IsUuid(idOf[u])
           && u == PhotoUrl(files[u].eventId, idOf[u], files[u].fileName)
    }

    constructor()
      ensures Valid()
      ensures files == map[] && issued == {}
    {
      files := map[];
      issued := {};
      idOf := map[];
    }

    /**
     * `upload`: builds the URL from the event id, a newly generated id and
     * the file name, records url -> (eventId, fileName), changing no other
     * key, and returns the URL with the file name. When no event id involved
     * holds a '/', the URL is not already a key.
     */
    method Upload(eventId: string, fileName: string) returns (r: UploadResult, ghost id: string)
      requires Valid()
      requires |issued| < Ids.Capacity
      modifies this
      ensures Valid()
      ensures id !in old(issued) && issued == old(issued) + {id} && Ids.IsUuid(id)
      ensures r.fileName == fileName
      ensures r.url == PhotoUrl(eventId, id, fileName)
      ensures files == old(files)[r.url := StoredFile(eventId, fileName)]
      ensures '/' !in eventId && (forall u :: u in old(files) ==> '/' !in old(files)[u].eventId) ==>
                r.url !in old(files)
    {
      var generated := Ids.FreshId(issued);
      id := generated;
      var url := UrlPrefix + eventId + "/" + generated + "-" + fileName;
      assert url == UrlPrefix + (eventId + "/" + generated + "-" + fileName);
      if '/' !in eventId && url in files && '/' !in files[url].eventId {
        PhotoUrlInjective(eventId, generated, fileName, files[url].eventId, idOf[url], files[url].fileName);
        assert false;
      }
      files := files[url := StoredFile(eventId, fileName)];
      idOf := idOf[url := generated];
      issued := issued + {generated};
      r := UploadResult(url, fileName);
    }

    /** `delete`: removes the URL if present and never fails; a second delete changes nothing. */
    method Delete(url: string)
      requires Valid()
      modifies this
      ensures Valid()
      ensures files == old(files) - {url}
      ensures url !in old(files) ==> files == old(files)
      ensures url !in files
      ensures issued == old(issued)
    {
      files := files - {url};
      idOf := idOf - {url};
    }
  }
}
