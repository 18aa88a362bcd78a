/**
 * `sanitize_filename`: drop every character that is not a word character,
 * whitespace or a hyphen, strip surrounding whitespace, and turn each
 * remaining space into an underscore.
 */
module Sanitize {

  /** Word characters of the pattern `\w`, taken as ASCII letters, digits and the underscore. */
  predicate IsWordChar(c: char) {
    ('a' <= c <= 'z') || ('A' <= c <= 'Z') || ('0' <= c <= '9') || c == '_'
  }

  /** The characters Python treats as whitespace, both for `\s` and for `str.strip()`. */
  predicate IsSpace(c: char) {
    || ('\U{0009}' <= c <= '\U{000D}') || ('\U{001C}' <= c <= '\U{001F}') || c == ' '
    || c == '\U{0085}' || c == '\U{00A0}' || c == '\U{1680}'
    || ('\U{2000}' <= c <= '\U{200A}') || c == '\U{2028}' || c == '\U{2029}'
    || c == '\U{202F}' || c == '\U{205F}' || c == '\U{3000}'
  }

  /** A character the pattern `[^\w\s-]` does not remove. */
  predicate Kept(c: char) {
    IsWordChar(c) || IsSpace(c) || c == '-'
  }

  /** `re.sub(r'[^\w\s-]', '', s)`: the kept characters of `s`, in order. */
  function Filter(s: string): (r: string)
    ensures |r| <= |s|
    ensures forall c :: c in r <==> c in s && Kept(c)
  {
    if s == [] then []
    else (if Kept(s[0]) then [s[0]] else []) + Filter(s[1..])
  }

  /** Filtering works character by character: the kept characters of a concatenation are those of each part, in order. */
  lemma {:induction false} FilterConcat(a: string, b: string)
    ensures Filter(a + b) == Filter(a) + Filter(b)
  {
    if a == [] {
      assert a + b == b;
    } else {
      assert (a + b)[0] == a[0] && (a + b)[1..] == a[1..] + b;
      FilterConcat(a[1..], b);
    }
  }

  /** `s.lstrip()`. */
  function StripStart(s: string): (r: string)
    ensures |r| <= |s| && r == s[|s| - |r|..]
    ensures r == [] || !IsSpace(r[0])
    ensures forall c :: c in r ==> c in s
    ensures forall c :: !IsSpace(c) ==> (c in r <==> c in s)
    ensures forall i :: 0 <= i < |s| - |r| ==> IsSpace(s[i])
  {
    if s != [] && IsSpace(s[0]) then
      assert forall c :: c in s <==> c == s[0] || c in s[1..];
      StripStart(s[1..])
    else s
  }

  /** `s.rstrip()`. */
  function StripEnd(s: string): (r: string)
    ensures |r| <= |s| && r == s[..|r|]
    ensures r == [] || !IsSpace(r[|r| - 1])
    ensures forall c :: c in r ==> c in s
    ensures forall c :: !IsSpace(c) ==> (c in r <==> c in s)
    ensures forall i :: |r| <= i < |s| ==> IsSpace(s[i])
  {
    if s != [] && IsSpace(s[|s| - 1]) then
      var init := s[..|s| - 1];
      assert forall c :: c in s <==> c == s[|s| - 1] || c in init;
      var r := StripEnd(init);
      assert r == s[..|r|];
      r
    else s
  }

  /** `s.strip()`: whitespace goes from both ends, and every other character stays. */
  function Strip(s: string): (r: string)
    ensures |r| <= |s|
    ensures r == [] || (!IsSpace(r[0]) && !IsSpace(r[|r| - 1]))
    ensures forall c :: c in r ==> c in s
    ensures forall c :: !IsSpace(c) ==> (c in r <==> c in s)
    ensures exists i :: TrimmedAt(s, r, i)
  {
    var left := StripStart(s);
    var r := StripEnd(left);
    assert r != [] ==> r[0] == left[0];
    TrimBoth(s, left, r);
    r
  }

  /** Trimming a whitespace prefix and then a whitespace suffix leaves an infix surrounded by whitespace. */
  lemma TrimBoth(s: string, left: string, r: string)
    requires |left| <= |s| && left == s[|s| - |left|..]
    requires forall i :: 0 <= i < |s| - |left| ==> IsSpace(s[i])
    requires |r| <= |left| && r == left[..|r|]
    requires forall i :: |r| <= i < |left| ==> IsSpace(left[i])
    ensures TrimmedAt(s, r, |s| - |left|)
  {
    var i := |s| - |left|;
    assert r == s[i..i + |r|];
    assert forall j :: i + |r| <= j < |s| ==> s[j] == left[j - i];
  }

  /** `r` is the part of `s` at `i`, with nothing but whitespace before and after it. */
  predicate TrimmedAt(s: string, r: string, i: nat) {
    && i + |r| <= |s| && r == s[i..i + |r|]
    && (forall j :: 0 <= j < i ==> IsSpace(s[j]))
    && (forall j :: i + |r| <= j < |s| ==> IsSpace(s[j]))
  }

  /** `s.replace(' ', '_')`. */
  function SpacesToUnderscores(s: string): (r: string)
    ensures |r| == |s|
    ensures forall i :: 0 <= i < |s| ==> r[i] == if s[i] == ' ' then '_' else s[i]
    ensures forall c :: c != ' ' && c != '_' ==> (c in r <==> c in s)
    ensures ' ' !in r
    ensures forall i :: 0 <= i < |s| && s[i] != ' ' ==> r[i] == s[i]
  {
    if s == [] then []
    else [if s[0] == ' ' then '_' else s[0]] + SpacesToUnderscores(s[1..])
  }

  /** A character that may appear in a sanitized name: word characters, hyphens, and whitespace other than the space. */
  predicate Safe(c: char) {
    IsWordChar(c) || c == '-' || (IsSpace(c) && c != ' ')
  }

  /**
   * `sanitize_filename(title)`: the result is no longer than the title, has
   * no space, and has no whitespace at either end.
   */
  function SanitizeFilename(title: string): (r: string)
    ensures |r| <= |title|
    ensures ' ' !in r
    ensures r == [] || (!IsSpace(r[0]) && !IsSpace(r[|r| - 1]))
  {
    SpacesToUnderscores(Strip(Filter(title)))
  }

  /** Only safe characters appear in a sanitized name. */
  lemma SanitizedIsSafe(title: string)
    ensures forall c :: c in SanitizeFilename(title) ==> Safe(c)
  {
    var stripped := Strip(Filter(title));
    var r := SanitizeFilename(title);
    forall c | c in r ensures Safe(c) {
      var i :| 0 <= i < |r| && r[i] == c;
      assert stripped[i] in stripped;
    }
  }

  /**
   * Letters, digits and hyphens of the title all survive sanitizing, and no
   * other character except the underscore is introduced.
   */
  lemma SanitizeKeepsSolidCharacters(title: string)
    ensures forall c :: c != '_' && (IsWordChar(c) || c == '-') ==> (c in SanitizeFilename(title) <==> c in title)
    ensures forall c :: c in SanitizeFilename(title) && c != '_' ==> c in title
  {
  }

  lemma {:induction false} FilterKeepsKept(s: string)
    requires forall i :: 0 <= i < |s| ==> Kept(s[i])
    ensures Filter(s) == s
  {
    if s != [] {
      FilterKeepsKept(s[1..]);
    }
  }

  lemma {:induction false} NoSpaceUnchanged(s: string)
    requires ' ' !in s
    ensures SpacesToUnderscores(s) == s
  {
    if s != [] {
      NoSpaceUnchanged(s[1..]);
    }
  }

  /** A name with no whitespace at either end is unchanged by strip. */
  lemma StripTrimmed(s: string)
    requires s == [] || (!IsSpace(s[0]) && !IsSpace(s[|s| - 1]))
    ensures Strip(s) == s
  {
  }

  /** Sanitizing a sanitized name changes nothing. */
  lemma SanitizeIdempotent(title: string)
    ensures SanitizeFilename(SanitizeFilename(title)) == SanitizeFilename(title)
  {
    var r := SanitizeFilename(title);
    SanitizedIsSafe(title);
    assert forall i :: 0 <= i < |r| ==> Kept(r[i]) by {
      forall i | 0 <= i < |r| ensures Kept(r[i]) {
        assert Safe(r[i]);
      }
    }
    FilterKeepsKept(r);
    StripTrimmed(r);
    NoSpaceUnchanged(r);
  }

  lemma PlainIsNotSpace(c: char)
    requires IsWordChar(c) || c == '-'
    ensures Kept(c) && !IsSpace(c)
  {
  }

  /** A title made only of word characters and hyphens is its own sanitized name. */
  lemma SanitizeKeepsPlainNames(title: string)
    requires forall i :: 0 <= i < |title| ==> IsWordChar(title[i]) || title[i] == '-'
    ensures SanitizeFilename(title) == title
  {
    forall i | 0 <= i < |title| ensures Kept(title[i]) && !IsSpace(title[i]) {
      PlainIsNotSpace(title[i]);
    }
    FilterKeepsKept(title);
    StripTrimmed(title);
    NoSpaceUnchanged(title);
  }
}
