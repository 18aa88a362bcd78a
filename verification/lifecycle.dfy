/**
 * How the operations combine over the server's life: the library as the
 * server starts up, and a download undone by a delete.
 */
module Lifecycle {

  import opened Paths
  import opened Catalogue
  import opened Scanner
  import opened Removal
  import opened Acquisition

  /** The metadata file as found at start-up: missing, unreadable, or holding a library. */
  datatype Persisted =
    | Absent
    | Malformed
    | Loaded(library: Library)

  /** The library the server starts serving, and how many times it was saved on the way. */
  datatype Boot = Boot(library: Library, saves: nat)

  function SaveCount(r: Reconciliation): nat {
    if r.saveRequested then 1 else 0
  }

  /**
   * Start-up: load the metadata file, where an unreadable file empties the
   * library and triggers a scan, then scan the storage directory once more.
   * A loaded library keeps all of its records; whatever was loaded, the
   * final library and the number of saves are the ones scanning the start
   * library gives: one save exactly when that scan adds a record.
   */
  function Startup(p: Persisted, dir: Listing): (b: Boot)
    ensures p.Loaded? ==> forall k :: k in p.library ==> k in b.library && b.library[k] == p.library[k]
    ensures b.library == Scan(if p.Loaded? then p.library else map[], dir).library
    ensures b.saves <= 1
    ensures b.saves == SaveCount(Scan(if p.Loaded? then p.library else map[], dir))
  {
    match p
    case Absent =>
      var once := Scan(map[], dir);
      Boot(once.library, SaveCount(once))
    case Malformed =>
      var first := Scan(map[], dir);
      var second := Scan(first.library, dir);
      ScanIdempotent(map[], dir);
      Boot(second.library, SaveCount(first) + SaveCount(second))
    case Loaded(lib) =>
      var once := Scan(lib, dir);
      Boot(once.library, SaveCount(once))
  }

  /** An unreadable metadata file leads to the same start as a missing one, including the saves. */
  lemma MalformedLikeAbsent(dir: Listing)
    ensures Startup(Malformed, dir) == Startup(Absent, dir)
  {
    ScanIdempotent(map[], dir);
  }

  /** Start-up saves exactly when the directory holds a media file. */
  lemma StartupSavesIffMediaFiles(dir: Listing)
    ensures Startup(Absent, dir).saves == 1 <==> Candidates(dir) != []
  {
    var c := Candidates(dir);
    if c != [] {
      assert SplitExtRoot(c[0].name) in Stems(c);
    }
  }

  /** Deleting a video right after downloading it under a new id gives back the library from before the download. */
  lemma DownloadThenDeleteRestores(lib: Library, id: string, link: string, run: ToolRun, dir: Listing,
                                   dir': Listing, fails: bool)
    requires IsUuidText(id) && id !in lib
    requires DownloadVideo(lib, id, link, run, dir).reply.Downloaded?
    ensures Delete(DownloadVideo(lib, id, link, run, dir).library, dir', id, fails).library == lib
  {
    var v := DownloadVideo(lib, id, link, run, dir).library[id];
    RemoveAdded(lib, id, v);
  }

  lemma RemoveAdded<V>(m: map<string, V>, k: string, v: V)
    requires k !in m
    ensures m[k := v] - {k} == m
  {
    assert (m[k := v] - {k}).Keys == m.Keys;
  }

  /** A failed download followed by a delete of its id finds nothing to delete. */
  lemma FailedDownloadLeavesNothing(lib: Library, id: string, link: string, run: ToolRun, dir: Listing,
                                    dir': Listing, fails: bool)
    requires IsUuidText(id) && id !in lib
    requires DownloadVideo(lib, id, link, run, dir).reply.DownloadFailed?
    ensures Delete(DownloadVideo(lib, id, link, run, dir).library, dir', id, fails).reply == Reply(false, NotFoundMessage)
  {
  }
}
