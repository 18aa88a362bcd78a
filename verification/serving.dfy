/**
 * Streaming a stored video (`watch_video`): the record must exist, its file
 * must be in the storage directory, and the media type follows the file's
 * extension.
 */
module Serving {

  import opened Text
  import opened Paths
  import opened Catalogue
  import opened Scanner

  const Mp4Type := "video/mp4"
  const WebmType := "video/webm"
  const MatroskaType := "video/x-matroska"

  /**
   * The media type sent with a file: WebM for `.webm`, Matroska for `.mkv`,
   * and MP4 for every other name, including names with no extension.
   */
  function ContentType(filename: string): (t: string)
    ensures t == WebmType <==> EndsWith(filename, ".webm")
    ensures t == MatroskaType <==> EndsWith(filename, ".mkv")
    ensures t == Mp4Type <==> !EndsWith(filename, ".webm") && !EndsWith(filename, ".mkv")
  {
    if EndsWith(filename, ".webm") then
      assert filename[|filename| - 1] == 'm';
      WebmType
    else if EndsWith(filename, ".mkv") then MatroskaType
    else Mp4Type
  }

  /** The media type for each globbed extension, in the same order. */
  const MediaTypes: seq<string> := [Mp4Type, WebmType, MatroskaType]

  /** A file named `<stem>.<ext>` for a globbed extension is served with that extension's media type. */
  lemma ContentTypeOfMediaFile(stem: string, m: nat)
    requires m < |MediaExtensions|
    ensures ContentType(stem + "." + MediaExtensions[m]) == MediaTypes[m]
  {
    var name := stem + "." + MediaExtensions[m];
    if m == 0 {
      assert name[|name| - 4..] == ".mp4";
    } else if m == 1 {
      assert name[|name| - 5..] == ".webm";
    } else {
      assert name[|name| - 4..] == ".mkv";
    }
  }

  /** A placeholder record made by a scan is served with the media type of the file it was made from. */
  lemma ScannedRecordContentType(lib: Library, dir: Listing, k: string)
    requires k in Scan(lib, dir).library && k !in lib
    ensures exists m :: 0 <= m < |MediaExtensions| &&
              Scan(lib, dir).library[k].filename == k + "." + MediaExtensions[m] &&
              ContentType(Scan(lib, dir).library[k].filename) == MediaTypes[m]
  {
    OrphanRecordShape(lib, dir, k);
    var m :| 0 <= m < |MediaExtensions| && Scan(lib, dir).library[k].filename == k + "." + MediaExtensions[m];
    ContentTypeOfMediaFile(k, m);
  }

  /** The answer to a watch request. */
  datatype Watch =
    | NotFound
    | FileMissing
    | Stream(filename: string, contentType: string)
  {
    /** The plain-text body sent with the 404 answers. */
    function Body(): string
      requires !Stream?
    {
      if NotFound? then "Video not found" else "Video file not found"
    }
  }

  /**
   * `watch_video` for `id`: unknown ids are not found; a known id whose
   * file is absent from the directory is a missing file; otherwise the
   * record's file is streamed with the media type of its name.
   */
  function WatchVideo(lib: Library, dir: Listing, id: string): (r: Watch)
    ensures r.NotFound? <==> id !in lib
    ensures r.FileMissing? <==> id in lib && !FileExists(dir, lib[id].filename)
    ensures r.Stream? ==> id in lib && r.filename == lib[id].filename && FileExists(dir, r.filename)
                          && r.contentType in MediaTypes && r.contentType == ContentType(r.filename)
  {
    if id !in lib then NotFound
    else
      var filename := lib[id].filename;
      if !FileExists(dir, filename) then FileMissing
      else Stream(filename, ContentType(filename))
  }

  /** Every record a scan creates can be streamed right after that scan, with its extension's media type. */
  lemma ScannedRecordStreams(lib: Library, dir: Listing, k: string)
    requires k in Scan(lib, dir).library && k !in lib
    ensures WatchVideo(Scan(lib, dir).library, dir, k).Stream?
  {
    OrphanRecordShape(lib, dir, k);
  }
}
