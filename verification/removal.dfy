/**
 * Deleting a video (`delete_video`): the record leaves the library whether
 * or not its file could be removed from the storage directory.
 */
module Removal {

  import opened Paths
  import opened Catalogue
  import opened Scanner

  const NotFoundMessage := "Video not found"
  const DeletedMessage := "Video deleted successfully"

  /** The directory after `name` has been unlinked: every other entry, in the same order. */
  function Unlink(dir: Listing, name: string): (r: Listing)
    ensures forall e :: e in r <==> e in dir && e.name != name
    ensures |r| <= |dir|
  {
    if dir == [] then []
    else (if dir[0].name == name then [] else [dir[0]]) + Unlink(dir[1..], name)
  }

  /** The library and directory after a delete request, the reply, and whether a save is requested. */
  datatype Deletion = Deletion(library: Library, listing: Listing, reply: Reply, saveRequested: bool)

  /**
   * Delete request for `id`. `removalFails` says whether unlinking an
   * existing file raises; the server logs that and carries on.
   * An unknown id changes nothing and is reported as not found. A known id
   * leaves the library with every other record untouched, is reported as
   * deleted, and asks for a save; its file leaves the directory exactly when
   * it was there and could be removed.
   */
  function Delete(lib: Library, dir: Listing, id: string, removalFails: bool): (r: Deletion)
    ensures id !in lib ==> r == Deletion(lib, dir, Reply(false, NotFoundMessage), false)
    ensures id in lib ==>
              && r.library.Keys == lib.Keys - {id}
              && (forall k :: k in r.library ==> r.library[k] == lib[k])
              && r.reply == Reply(true, DeletedMessage)
              && r.saveRequested
    ensures id in lib ==>
              var gone := FileExists(dir, lib[id].filename) && !removalFails;
              forall e :: e in r.listing <==> e in dir && !(gone && e.name == lib[id].filename)
  {
    if id !in lib then Deletion(lib, dir, Reply(false, NotFoundMessage), false)
    else
      var filename := lib[id].filename;
      var listing := if FileExists(dir, filename) && !removalFails then Unlink(dir, filename) else dir;
      Deletion(lib - {id}, listing, Reply(true, DeletedMessage), true)
  }

  /** The reply depends only on whether the id was known, never on what happened to the file. */
  lemma DeleteReplyIgnoresFile(lib: Library, dir: Listing, dir': Listing, id: string, fails: bool, fails': bool)
    ensures Delete(lib, dir, id, fails).reply == Delete(lib, dir', id, fails').reply
    ensures Delete(lib, dir, id, fails).library == Delete(lib, dir', id, fails').library
  {
  }

  /** Deleting twice: the second request finds nothing and changes nothing. */
  lemma DeleteTwice(lib: Library, dir: Listing, id: string, fails: bool, fails': bool)
    ensures var once := Delete(lib, dir, id, fails);
            Delete(once.library, once.listing, id, fails') == Deletion(once.library, once.listing, Reply(false, NotFoundMessage), false)
  {
  }

  /** Deletion keeps every record stored under its own id. */
  lemma DeleteKeepsWellKeyed(lib: Library, dir: Listing, id: string, fails: bool)
    requires WellKeyed(lib)
    ensures WellKeyed(Delete(lib, dir, id, fails).library)
  {
  }

  /**
   * When the file of a deleted orphan-style record `<id>.<ext>` could not be
   * removed, the next scan brings the id back as a placeholder record.
   */
  lemma {:induction false} FailedRemovalResurrects(lib: Library, dir: Listing, id: string, i: nat)
    requires id in lib && id != [] && !IsHidden(id)
    requires i < |MediaExtensions| && lib[id].filename == id + "." + MediaExtensions[i]
    requires FileExists(dir, lib[id].filename)
    ensures var after := Delete(lib, dir, id, true);
            && id !in after.library
            && id in Scan(after.library, after.listing).library
            && Scan(after.library, after.listing).library[id].duration == 0
            && Scan(after.library, after.listing).library[id].originalUrl == ""
  {
    var after := Delete(lib, dir, id, true);
    assert after.listing == dir;
    ScanPrefersEarlierExtension(after.library, dir, id, i);
    OrphanRecordShape(after.library, dir, id);
  }

  /**
   * When the file was removed and no other file in the directory has the
   * same stem, the id stays deleted across the next scan.
   */
  lemma SuccessfulRemovalStays(lib: Library, dir: Listing, id: string)
    requires id in lib
    requires forall e :: e in dir && e.name != lib[id].filename ==> SplitExtRoot(e.name) != id
    ensures var after := Delete(lib, dir, id, false);
            id !in Scan(after.library, after.listing).library
  {
  }
}
