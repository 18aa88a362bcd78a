/**
 * Storing a downloaded video (`download_video` and the `/download` route):
 * the extraction tool either raises or returns optional metadata, the file
 * it wrote is found by its id, and a record for it joins the library. Every
 * failure is classified and leaves the library as it was.
 */
module Acquisition {

  import opened Options
  import opened Text
  import opened Catalogue
  import opened Failures

  /** What the extraction tool reports about a video; each field may be missing. */
  datatype Metadata = Metadata(title: Option<string>, duration: Option<nat>, thumbnail: Option<string>)

  /**
   * The outcome of running the extraction tool: it raised with some text, or
   * returned; `Returned(None)` stands for a result Python counts as false,
   * `None` or an empty dictionary.
   */
  datatype ToolRun =
    | Raised(text: string)
    | Returned(info: Option<Metadata>)

  const NoInfoText := "Failed to extract video information"
  const NoFileText := "File was not downloaded correctly"
  const SuccessMessage := "Video downloaded successfully!"
  const UnknownTitle := "Unknown Title"
  const NoUrlMessage := "No URL provided"
  const InvalidRequestMessage := "Invalid request data"

  predicate IsHexOrDash(c: char) {
    ('0' <= c <= '9') || ('a' <= c <= 'f') || c == '-'
  }

  /** The text form of a random UUID: lower-case hex digits and hyphens. */
  predicate IsUuidText(id: string) {
    id != [] && forall i :: 0 <= i < |id| ==> IsHexOrDash(id[i])
  }

  /**
   * The base names the glob `<id>.*` returns, in listing order. An id made of
   * hex digits and hyphens holds no glob metacharacter and does not start
   * with a dot, so the pattern matches exactly the names starting `<id>.`.
   */
  function DownloadedFiles(dir: Listing, id: string): (r: Listing)
    ensures forall e :: e in r <==> e in dir && StartsWith(e.name, id + ".")
    ensures r != [] ==> exists i :: 0 <= i < |dir| && dir[i] == r[0] &&
                          forall j :: 0 <= j < i ==> !StartsWith(dir[j].name, id + ".")
  {
    if dir == [] then []
    else if StartsWith(dir[0].name, id + ".") then [dir[0]] + DownloadedFiles(dir[1..], id)
    else
      var rest := DownloadedFiles(dir[1..], id);
      assert rest != [] ==> exists i :: 0 <= i < |dir| && dir[i] == rest[0] &&
                              forall j :: 0 <= j < i ==> !StartsWith(dir[j].name, id + ".") by {
        if rest != [] {
          var i :| 0 <= i < |dir[1..]| && dir[1..][i] == rest[0] &&
                   forall j :: 0 <= j < i ==> !StartsWith(dir[1..][j].name, id + ".");
          assert forall j :: 1 <= j < i + 1 ==> dir[j] == dir[1..][j - 1];
          assert dir[i + 1] == rest[0];
        }
      }
      rest
  }

  /** The record for a finished download of `link`, stored as file `e`. */
  function Record(id: string, link: string, m: Metadata, e: Entry): (v: Video)
    ensures v.id == id && v.filename == e.name && v.originalUrl == link
    ensures v.title == (if m.title.Some? then m.title.value else UnknownTitle)
    ensures v.duration == (if m.duration.Some? then m.duration.value else 0)
    ensures v.thumbnail == (if m.thumbnail.Some? then m.thumbnail.value else "")
    ensures v.sizeHundredthsMb == HundredthsOfMb(e.bytes)
  {
    Video(id, m.title.ValueOr(UnknownTitle), e.name, m.duration.ValueOr(0), m.thumbnail.ValueOr(""), link, HundredthsOfMb(e.bytes))
  }

  /** What the download reports: the new id and title, or the classified failure. */
  datatype DownloadReply =
    | Downloaded(videoId: string, title: string)
    | DownloadFailed(failure: Failure)
  {
    /** The `success` and `message` fields of the JSON reply. */
    function AsReply(): Reply {
      match this
      case Downloaded(_, _) => Reply(true, SuccessMessage)
      case DownloadFailed(f) => Reply(false, f.message)
    }
  }

  /** The library after a download attempt, the reply, and whether a save is requested. */
  datatype Download = Download(library: Library, reply: DownloadReply, saveRequested: bool)

  /**
   * `download_video(link)` with fresh id `id`, tool outcome `run`, and `dir`
   * the storage directory once the tool has finished.
   * A raised text, a missing result and a missing file each produce the
   * classification of the corresponding text and leave the library alone.
   * Otherwise the first file named `<id>.<something>` in listing order is
   * recorded under `id`, nothing else in the library changes, and a save is
   * requested.
   */
  function DownloadVideo(lib: Library, id: string, link: string, run: ToolRun, dir: Listing): (r: Download)
    requires IsUuidText(id)
    ensures r.reply.DownloadFailed? ==> r.library == lib && !r.saveRequested
    ensures run.Raised? ==> r.reply == DownloadFailed(Classify(run.text))
    ensures run == Returned(None) ==> r.reply == DownloadFailed(Classify(NoInfoText))
    ensures run.Returned? && run.info.Some? && DownloadedFiles(dir, id) == [] ==>
              r.reply == DownloadFailed(Classify(NoFileText))
    ensures r.reply.Downloaded? <==> run.Returned? && run.info.Some? && DownloadedFiles(dir, id) != []
    ensures r.reply.Downloaded? ==>
              var e := DownloadedFiles(dir, id)[0];
              && r.library == lib[id := Record(id, link, run.info.value, e)]
              && r.reply == Downloaded(id, r.library[id].title)
              && r.saveRequested
  {
    match run
    case Raised(text) => Download(lib, DownloadFailed(Classify(text)), false)
    case Returned(None) => Download(lib, DownloadFailed(Classify(NoInfoText)), false)
    case Returned(Some(m)) =>
      var files := DownloadedFiles(dir, id);
      if files == [] then Download(lib, DownloadFailed(Classify(NoFileText)), false)
      else
        var v := Record(id, link, m, files[0]);
        Download(lib[id := v], Downloaded(id, v.title), true)
  }

  /**
   * The failures the server raises itself are matched by no rule, so the
   * user sees them after the generic prefix.
   */
  lemma OwnFailuresUnclassified()
    ensures Classify(NoInfoText) == Failure(Unclassified, FallbackPrefix + NoInfoText)
    ensures Classify(NoFileText) == Failure(Unclassified, FallbackPrefix + NoFileText)
  {
    NoInfoTextLacksMarkers();
    NoFileTextLacksMarkers();
    UnmatchedWithoutMarkers(NoInfoText);
    UnmatchedWithoutMarkers(NoFileText);
  }

  lemma NoInfoTextLacksMarkers()
    ensures NoMarkers(NoInfoText)
  {
    NoMarkersConcat("Failed to ", "extract ");
    NoMarkersConcat("Failed to extract ", "video ");
    NoMarkersConcat("Failed to extract video ", "information");
    assert NoInfoText == "Failed to extract video " + "information";
  }

  lemma NoFileTextLacksMarkers()
    ensures NoMarkers(NoFileText)
  {
    NoMarkersConcat("File was ", "not ");
    NoMarkersConcat("File was not ", "downloaded ");
    NoMarkersConcat("File was not downloaded ", "correctly");
    assert NoFileText == "File was not downloaded " + "correctly";
  }

  /** A successful download adds exactly its own id and leaves every other record alone. */
  lemma DownloadFrame(lib: Library, id: string, link: string, run: ToolRun, dir: Listing)
    requires IsUuidText(id)
    requires DownloadVideo(lib, id, link, run, dir).reply.Downloaded?
    ensures var after := DownloadVideo(lib, id, link, run, dir).library;
            && after.Keys == lib.Keys + {id}
            && (forall k :: k in lib && k != id ==> after[k] == lib[k])
            && after[id].id == id
            && StartsWith(after[id].filename, id + ".")
            && FileExists(dir, after[id].filename)
            && after[id].originalUrl == link
  {
    var e := DownloadedFiles(dir, id)[0];
    assert e in DownloadedFiles(dir, id);
  }

  /** Downloads keep every record stored under its own id. */
  lemma DownloadKeepsWellKeyed(lib: Library, id: string, link: string, run: ToolRun, dir: Listing)
    requires IsUuidText(id) && WellKeyed(lib)
    ensures WellKeyed(DownloadVideo(lib, id, link, run, dir).library)
  {
  }

  /**
   * The body of a `/download` request once parsed as JSON: `Unparsed` is a
   * value Python counts as false (`null`, `{}`, `[]`, `""`), otherwise the
   * fields of the object.
   */
  datatype RequestBody =
    | Unparsed
    | Fields(fields: map<string, string>)

  /** The `/download` route's answer: a rejected request, or the download attempt. */
  datatype RouteAnswer =
    | BadRequest(message: string)
    | Handled(download: Download)

  /**
   * The `/download` route: a missing or empty body is invalid, a body with
   * no URL or an empty one is rejected, and otherwise the URL is downloaded.
   */
  function DownloadRoute(lib: Library, body: RequestBody, id: string, run: ToolRun, dir: Listing): (r: RouteAnswer)
    requires IsUuidText(id)
    ensures r == BadRequest(InvalidRequestMessage) <==> body == Unparsed || body == Fields(map[])
    ensures r == BadRequest(NoUrlMessage) <==>
              body.Fields? && body.fields != map[] && ("url" !in body.fields || body.fields["url"] == "")
    ensures body.Fields? && "url" in body.fields && body.fields["url"] != "" ==> r.Handled?
    ensures r.Handled? ==> body.Fields? && "url" in body.fields && body.fields["url"] != "" &&
                           r.download == DownloadVideo(lib, id, body.fields["url"], run, dir)
  {
    if body == Unparsed || body.fields == map[] then BadRequest(InvalidRequestMessage)
    else
      var link := if "url" in body.fields then body.fields["url"] else "";
      if link == "" then BadRequest(NoUrlMessage)
      else Handled(DownloadVideo(lib, id, link, run, dir))
  }
}
