/**
 * File-name rules of the host platform as the catalogue relies on them:
 * `os.path.splitext` on a bare file name, and what a glob pattern `*.<ext>`
 * matches (a POSIX glob is case-sensitive and never matches a hidden name,
 * one that starts with a dot, unless the pattern does).
 */
module Paths {

  import opened Options
  import opened Text

  predicate IsHidden(name: string) {
    |name| > 0 && name[0] == '.'
  }

  predicate AllDots(s: string) {
    forall j :: 0 <= j < |s| ==> s[j] == '.'
  }

  predicate HasNoDot(s: string) {
    forall j :: 0 <= j < |s| ==> s[j] != '.'
  }

  /**
   * The dot at `d` starts the extension of `name`: it is the last dot, and
   * something other than dots comes before it (`.bashrc` and `..mp4` have
   * no extension).
   */
  predicate ExtensionDotAt(name: string, d: nat)
    requires d < |name|
  {
    name[d] == '.' && HasNoDot(name[d + 1..]) && !AllDots(name[..d])
  }

  /** `os.path.splitext(name)[0]` for a file name without a directory part. */
  function SplitExtRoot(name: string): string {
    match LastIndexOf(name, '.')
    case None => name
    case Some(d) => if AllDots(name[..d]) then name else name[..d]
  }

  /**
   * splitext cuts `name` just before the dot that starts its extension, and
   * returns the whole name when it has none.
   */
  lemma SplitExtRootCut(name: string)
    ensures StartsWith(name, SplitExtRoot(name))
    ensures forall d :: 0 <= d < |name| && ExtensionDotAt(name, d) ==> SplitExtRoot(name) == name[..d]
    ensures (forall d :: 0 <= d < |name| ==> !ExtensionDotAt(name, d)) ==> SplitExtRoot(name) == name
  {
    LastIndexOfFinds(name, '.');
    match LastIndexOf(name, '.')
    case None =>
    case Some(d) =>
      assert forall e :: 0 <= e < |name| && ExtensionDotAt(name, e) ==> e == d;
      var tail := name[d + 1..];
      assert HasNoDot(tail) by {
        forall j | 0 <= j < |tail| ensures tail[j] != '.' {
          assert tail[j] == name[d + 1 + j];
        }
      }
      assert !AllDots(name[..d]) ==> ExtensionDotAt(name, d);
  }

  /** A name that the glob `*.<ext>` matches. */
  predicate MatchesExtension(name: string, ext: string) {
    !IsHidden(name) && EndsWith(name, "." + ext)
  }

  /**
   * A name matched by `*.<ext>`, for a dot-free extension, is `<stem>.<ext>`
   * where `stem` is what splitext leaves: non-empty and not hidden.
   */
  lemma {:induction false} StemOfMatch(name: string, ext: string)
    requires HasNoDot(ext)
    requires MatchesExtension(name, ext)
    ensures var stem := SplitExtRoot(name);
            && name == stem + "." + ext
            && stem != [] && !IsHidden(stem)
  {
    var d := |name| - |ext| - 1;
    SplitExtRootCut(name);
    assert name[d..] == "." + ext;
    assert name[d] == '.';
    assert d > 0;
    assert name[d + 1..] == ext;
    assert name[..d][0] != '.';
    assert ExtensionDotAt(name, d);
    assert name == name[..d] + name[d..];
  }

  /** Conversely, `<stem>.<ext>` is matched by `*.<ext>` and splitext recovers `stem`. */
  lemma {:induction false} MatchOfStem(stem: string, ext: string)
    requires HasNoDot(ext)
    requires stem != [] && !IsHidden(stem)
    ensures MatchesExtension(stem + "." + ext, ext)
    ensures SplitExtRoot(stem + "." + ext) == stem
  {
    var name := stem + "." + ext;
    assert name[|name| - |ext| - 1..] == "." + ext;
    StemOfMatch(name, ext);
    SplitExtRootCut(name);
    var root := SplitExtRoot(name);
    assert root + "." + ext == stem + "." + ext;
    assert |root| == |stem|;
    assert root == name[..|stem|] == stem;
  }
}
