/**
 * Reconciling the library with the storage directory (`scan_downloads_directory`):
 * every media file whose stem is not yet a video id gets a placeholder record;
 * records already in the library are never touched.
 */
module Scanner {

  import opened Text
  import opened Paths
  import opened Catalogue

  /** The extensions globbed for, in the order they are globbed. */
  const MediaExtensions: seq<string> := ["mp4", "webm", "mkv"]

  lemma MediaExtensionsHaveNoDot()
    ensures forall m :: 0 <= m < |MediaExtensions| ==> HasNoDot(MediaExtensions[m])
  {
  }

  /** The base names `glob` with the pattern `*.<ext>` in the storage directory returns, in listing order. */
  function Glob(dir: Listing, ext: string): (r: Listing)
    ensures forall e :: e in r <==> e in dir && MatchesExtension(e.name, ext)
  {
    if dir == [] then []
    else (if MatchesExtension(dir[0].name, ext) then [dir[0]] else []) + Glob(dir[1..], ext)
  }

  /** The name matches the glob of one of `exts`. */
  predicate MatchesAny(name: string, exts: seq<string>) {
    exists m :: 0 <= m < |exts| && MatchesExtension(name, exts[m])
  }

  /** One glob per extension, the results concatenated in extension order. */
  function GlobEach(dir: Listing, exts: seq<string>): (r: Listing)
    ensures forall e :: e in r ==> e in dir && MatchesAny(e.name, exts)
    ensures forall e, m :: e in dir && 0 <= m < |exts| && MatchesExtension(e.name, exts[m]) ==> e in r
  {
    if exts == [] then []
    else
      var r := Glob(dir, exts[0]) + GlobEach(dir, exts[1..]);
      assert forall e :: e in r ==> e in dir && MatchesAny(e.name, exts) by {
        forall e | e in r ensures e in dir && MatchesAny(e.name, exts) {
          if e !in Glob(dir, exts[0]) {
            var m :| 0 <= m < |exts[1..]| && MatchesExtension(e.name, exts[1..][m]);
            assert exts[1..][m] == exts[m + 1];
          }
        }
      }
      assert forall e, m :: e in dir && 0 <= m < |exts| && MatchesExtension(e.name, exts[m]) ==> e in r by {
        forall e, m | e in dir && 0 <= m < |exts| && MatchesExtension(e.name, exts[m]) ensures e in r {
          if m > 0 {
            assert exts[1..][m - 1] == exts[m];
          }
        }
      }
      r
  }

  /** The files the scan visits, in the order it visits them. */
  function Candidates(dir: Listing): Listing {
    GlobEach(dir, MediaExtensions)
  }

  /** The ids the files would be registered under. */
  function Stems(files: Listing): set<string> {
    set e | e in files :: SplitExtRoot(e.name)
  }

  lemma StemsCons(files: Listing)
    requires files != []
    ensures Stems(files) == {SplitExtRoot(files[0].name)} + Stems(files[1..])
  {
    assert forall e :: e in files <==> e == files[0] || e in files[1..];
  }

  /** The position of the first file whose stem is `k`. */
  function FirstWithStem(files: Listing, k: string): (i: nat)
    requires k in Stems(files)
    ensures i < |files| && SplitExtRoot(files[i].name) == k
    ensures forall j :: 0 <= j < i ==> SplitExtRoot(files[j].name) != k
  {
    StemsCons(files);
    if SplitExtRoot(files[0].name) == k then 0
    else 1 + FirstWithStem(files[1..], k)
  }

  /** The placeholder record for an orphan file. */
  function Synthesize(e: Entry): Video {
    var id := SplitExtRoot(e.name);
    Video(id, "Video " + Take(id, 8), e.name, 0, "", "", HundredthsOfMb(e.bytes))
  }

  /**
   * Visits `files` in order, adding a record for each one whose stem is not
   * yet a key; returns the new library and how many records were added.
   * Existing records are kept as they are, and exactly the stems become new keys.
   */
  function Absorb(lib: Library, files: Listing): (r: (Library, nat))
    ensures forall k :: k in lib ==> k in r.0 && r.0[k] == lib[k]
    ensures r.0.Keys == lib.Keys + Stems(files)
    decreases |files|
  {
    if files == [] then (lib, 0)
    else
      var id := SplitExtRoot(files[0].name);
      StemsCons(files);
      if id in lib then Absorb(lib, files[1..])
      else
        var rest := Absorb(lib[id := Synthesize(files[0])], files[1..]);
        (rest.0, rest.1 + 1)
  }

  lemma NewKeyStep(stems: set<string>, later: set<string>, keys: set<string>, id: string)
    requires stems == {id} + later && id !in keys
    ensures |stems - keys| == |later - (keys + {id})| + 1
  {
    var unseen := later - (keys + {id});
    assert stems - keys == unseen + {id};
  }

  lemma KeysOfUpdate(lib: Library, k: string, v: Video)
    ensures lib[k := v].Keys == lib.Keys + {k}
  {
  }

  lemma KnownKeyStep(stems: set<string>, later: set<string>, keys: set<string>, id: string)
    requires stems == {id} + later && id in keys
    ensures stems - keys == later - keys
  {
  }

  /** The count Absorb returns is the number of stems that were not yet keys. */
  lemma {:induction false} AbsorbCount(lib: Library, files: Listing)
    ensures Absorb(lib, files).1 == |Stems(files) - lib.Keys|
    decreases |files|
  {
    if files == [] {
      assert Stems(files) == {};
    } else {
      var id := SplitExtRoot(files[0].name);
      StemsCons(files);
      if id in lib {
        AbsorbCount(lib, files[1..]);
        KnownKeyStep(Stems(files), Stems(files[1..]), lib.Keys, id);
        assert Absorb(lib, files).1 == Absorb(lib, files[1..]).1;
      } else {
        var lib' := lib[id := Synthesize(files[0])];
        AbsorbCount(lib', files[1..]);
        KeysOfUpdate(lib, id, Synthesize(files[0]));
        NewKeyStep(Stems(files), Stems(files[1..]), lib.Keys, id);
        assert Absorb(lib, files).1 == Absorb(lib', files[1..]).1 + 1;
      }
    }
  }

  /** Each new record is synthesized from the FIRST file carrying its stem. */
  lemma {:induction false} AbsorbFirst(lib: Library, files: Listing, k: string)
    requires k in Absorb(lib, files).0 && k !in lib
    ensures k in Stems(files)
    ensures Absorb(lib, files).0[k] == Synthesize(files[FirstWithStem(files, k)])
    decreases |files|
  {
    var id := SplitExtRoot(files[0].name);
    StemsCons(files);
    if id in lib {
      AbsorbFirst(lib, files[1..], k);
    } else {
      var lib' := lib[id := Synthesize(files[0])];
      if k != id {
        AbsorbFirst(lib', files[1..], k);
      }
    }
  }

  /** A map that only grew differs from the original exactly when it has a new key. */
  lemma GrownDiffers<V>(m: map<string, V>, grown: map<string, V>)
    requires forall k :: k in m ==> k in grown && grown[k] == m[k]
    ensures grown != m <==> |grown.Keys - m.Keys| > 0
  {
    if |grown.Keys - m.Keys| > 0 {
      var k :| k in grown.Keys - m.Keys;
    } else {
      assert grown.Keys - m.Keys == {};
      assert grown.Keys == m.Keys;
    }
  }

  lemma DiffOfUnion<T>(a: set<T>, b: set<T>)
    ensures (a + b) - a == b - a
  {
  }

  /** What one scan produces: the new library, the number of records added, and whether to save. */
  datatype Reconciliation = Reconciliation(library: Library, added: nat, saveRequested: bool)

  /**
   * `scan_downloads_directory` applied to library `lib` and directory `dir`:
   * every existing record is kept unchanged, the new keys are exactly the
   * stems of the globbed media files, the count is the number of new keys,
   * and a save is requested exactly when something was added.
   */
  function Scan(lib: Library, dir: Listing): (r: Reconciliation)
    ensures forall k :: k in lib ==> k in r.library && r.library[k] == lib[k]
    ensures r.library.Keys == lib.Keys + Stems(Candidates(dir))
    ensures r.added == |r.library.Keys - lib.Keys|
    ensures r.saveRequested <==> r.added > 0
  {
    var absorbed := Absorb(lib, Candidates(dir));
    AbsorbCount(lib, Candidates(dir));
    DiffOfUnion(lib.Keys, Stems(Candidates(dir)));
    Reconciliation(absorbed.0, absorbed.1, absorbed.1 > 0)
  }

  /** Each record the scan adds is the placeholder for the first globbed file with that stem. */
  lemma ScanRecordsFirstFile(lib: Library, dir: Listing, k: string)
    requires k in Scan(lib, dir).library && k !in lib
    ensures k in Stems(Candidates(dir))
    ensures Scan(lib, dir).library[k] == Synthesize(Candidates(dir)[FirstWithStem(Candidates(dir), k)])
  {
    AbsorbFirst(lib, Candidates(dir), k);
  }

  /** The scan asks for a save exactly when the library changed. */
  lemma ScanSavesIffChanged(lib: Library, dir: Listing)
    ensures Scan(lib, dir).saveRequested <==> Scan(lib, dir).library != lib
  {
    GrownDiffers(lib, Scan(lib, dir).library);
  }

  /** Records stay stored under their own ids across a scan. */
  lemma ScanKeepsWellKeyed(lib: Library, dir: Listing)
    requires WellKeyed(lib)
    ensures WellKeyed(Scan(lib, dir).library)
  {
    var r := Scan(lib, dir).library;
    forall k | k in r ensures r[k].id == k {
      if k !in lib {
        ScanRecordsFirstFile(lib, dir, k);
      }
    }
  }

  /** A second scan over an unchanged directory adds nothing and saves nothing. */
  lemma ScanIdempotent(lib: Library, dir: Listing)
    ensures var once := Scan(lib, dir).library;
            Scan(once, dir) == Reconciliation(once, 0, false)
  {
  }

  /**
   * An orphan record has the promised shape: its id is the file's stem, its
   * file is a media file `<id>.<ext>` of the directory whose size it records,
   * its title is "Video " and the first eight characters of the id, and it
   * has no duration, thumbnail or source URL.
   */
  lemma {:induction false} OrphanRecordShape(lib: Library, dir: Listing, k: string)
    requires k in Scan(lib, dir).library && k !in lib
    ensures var v := Scan(lib, dir).library[k];
            && v.id == k
            && k != [] && !IsHidden(k)
            && (exists m :: 0 <= m < |MediaExtensions| && v.filename == k + "." + MediaExtensions[m])
            && (exists e :: e in dir && e.name == v.filename && v.sizeHundredthsMb == HundredthsOfMb(e.bytes))
            && v.title == "Video " + Take(k, 8)
            && v.duration == 0 && v.thumbnail == "" && v.originalUrl == ""
  {
    ScanRecordsFirstFile(lib, dir, k);
    var c := Candidates(dir);
    var e := c[FirstWithStem(c, k)];
    assert e in c;
    assert MatchesAny(e.name, MediaExtensions);
    var m :| 0 <= m < |MediaExtensions| && MatchesExtension(e.name, MediaExtensions[m]);
    MediaExtensionsHaveNoDot();
    StemOfMatch(e.name, MediaExtensions[m]);
  }

  lemma FirstWithStemAppend(a: Listing, b: Listing, k: string)
    requires k in Stems(a + b)
    ensures k in Stems(a) ==> FirstWithStem(a + b, k) == FirstWithStem(a, k)
    ensures k !in Stems(a) ==> k in Stems(b) && FirstWithStem(a + b, k) == |a| + FirstWithStem(b, k)
  {
    var f := FirstWithStem(a + b, k);
    if k in Stems(a) {
      var g := FirstWithStem(a, k);
      assert (a + b)[g] == a[g];
    } else {
      assert f >= |a|;
      assert (a + b)[f] == b[f - |a|];
      assert b[f - |a|] in b;
      var g := FirstWithStem(b, k);
      assert (a + b)[|a| + g] == b[g];
    }
  }

  /** A first match in `a` is the first match in `a + b`. */
  lemma FirstInFront(a: Listing, b: Listing, s: string, name: string)
    requires s in Stems(a) && a[FirstWithStem(a, s)].name == name
    ensures s in Stems(a + b) && (a + b)[FirstWithStem(a + b, s)].name == name
  {
    StemsAppend(a, b);
    FirstWithStemAppend(a, b, s);
    assert (a + b)[FirstWithStem(a, s)] == a[FirstWithStem(a, s)];
  }

  /** With no match in `a`, the first match in `b` is the first match in `a + b`. */
  lemma FirstBehind(a: Listing, b: Listing, s: string, name: string)
    requires s !in Stems(a) && s in Stems(b) && b[FirstWithStem(b, s)].name == name
    ensures s in Stems(a + b) && (a + b)[FirstWithStem(a + b, s)].name == name
  {
    StemsAppend(a, b);
    FirstWithStemAppend(a, b, s);
    var x := FirstWithStem(b, s);
    assert (a + b)[|a| + x] == b[x];
  }

  lemma StemsAppend(a: Listing, b: Listing)
    ensures Stems(a + b) == Stems(a) + Stems(b)
  {
    assert forall e :: e in a + b <==> e in a || e in b;
  }

  /** A file `<s>.<ext>` in the directory puts `s` among the stems globbed for `ext`. */
  lemma StemInGlob(dir: Listing, ext: string, s: string)
    requires HasNoDot(ext) && s != [] && !IsHidden(s)
    requires FileExists(dir, s + "." + ext)
    ensures s in Stems(Glob(dir, ext))
  {
    var e :| e in dir && e.name == s + "." + ext;
    MatchOfStem(s, ext);
    assert e in Glob(dir, ext);
  }

  /** The first file globbed for `ext` whose stem is `s` is `<s>.<ext>`. */
  lemma FirstInGlob(dir: Listing, ext: string, s: string)
    requires HasNoDot(ext) && s in Stems(Glob(dir, ext))
    ensures Glob(dir, ext)[FirstWithStem(Glob(dir, ext), s)].name == s + "." + ext
  {
    var g := Glob(dir, ext);
    var e := g[FirstWithStem(g, s)];
    assert e in g;
    StemOfMatch(e.name, ext);
  }

  /**
   * When `<s>.<exts[i]>` is in the directory, the first file with stem `s`
   * among the globbed files is `<s>.<exts[j]>` for an extension `j` globbed
   * no later than `i`.
   */
  lemma {:induction false} FirstInEarlierGlob(dir: Listing, exts: seq<string>, s: string, i: nat)
    requires forall m :: 0 <= m < |exts| ==> HasNoDot(exts[m])
    requires s != [] && !IsHidden(s)
    requires i < |exts| && FileExists(dir, s + "." + exts[i])
    ensures s in Stems(GlobEach(dir, exts))
    ensures exists j :: 0 <= j <= i &&
              GlobEach(dir, exts)[FirstWithStem(GlobEach(dir, exts), s)].name == s + "." + exts[j]
    decreases i
  {
    var g := Glob(dir, exts[0]);
    var rest := GlobEach(dir, exts[1..]);
    assert GlobEach(dir, exts) == g + rest;
    if s in Stems(g) {
      FirstInGlob(dir, exts[0], s);
      FirstInFront(g, rest, s, s + "." + exts[0]);
    } else {
      assert i > 0 by {
        if i == 0 {
          StemInGlob(dir, exts[0], s);
        }
      }
      assert exts[1..][i - 1] == exts[i];
      FirstInEarlierGlob(dir, exts[1..], s, i - 1);
      var j :| 0 <= j <= i - 1 && rest[FirstWithStem(rest, s)].name == s + "." + exts[1..][j];
      var ext := exts[j + 1];
      assert exts[1..][j] == ext;
      FirstBehind(g, rest, s, s + "." + ext);
    }
  }

  /**
   * Extension order decides between files of the same stem: an orphan
   * `<s>.webm` next to `<s>.mp4` yields one record, and it points at the
   * `.mp4` file; generally the record points at the earliest-globbed extension.
   */
  lemma ScanPrefersEarlierExtension(lib: Library, dir: Listing, s: string, i: nat)
    requires s != [] && !IsHidden(s) && s !in lib
    requires i < |MediaExtensions| && FileExists(dir, s + "." + MediaExtensions[i])
    ensures s in Scan(lib, dir).library
    ensures exists j :: 0 <= j <= i && Scan(lib, dir).library[s].filename == s + "." + MediaExtensions[j]
  {
    MediaExtensionsHaveNoDot();
    FirstInEarlierGlob(dir, MediaExtensions, s, i);
    assert s in Scan(lib, dir).library;
    ScanRecordsFirstFile(lib, dir, s);
  }

  /**
   * When `<s>.mp4` and `<s>.webm` are both orphans, the single record for `s`
   * points at the `.mp4` file.
   */
  lemma ScanPrefersMp4(lib: Library, dir: Listing, s: string)
    requires s != [] && !IsHidden(s) && s !in lib
    requires FileExists(dir, s + ".mp4")
    ensures s in Scan(lib, dir).library
    ensures Scan(lib, dir).library[s].filename == s + ".mp4"
  {
    Mp4Name(s);
    ScanPrefersEarlierExtension(lib, dir, s, 0);
    var j :| 0 <= j <= 0 && Scan(lib, dir).library[s].filename == s + "." + MediaExtensions[j];
    assert j == 0;
  }

  lemma Mp4Name(s: string)
    ensures s + "." + MediaExtensions[0] == s + ".mp4"
  {
  }
}
