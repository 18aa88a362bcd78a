/** String helpers with the meaning Python gives them: `in`, `endswith`, slicing. */
module Text {

  import opened Options

  predicate StartsWith(s: string, prefix: string) {
    |prefix| <= |s| && s[..|prefix|] == prefix
  }

  predicate EndsWith(s: string, suffix: string) {
    |suffix| <= |s| && s[|s| - |suffix|..] == suffix
  }

  /** `p` occurs in `s` starting at index `i`. */
  predicate OccursAt(s: string, p: string, i: nat) {
    i + |p| <= |s| && s[i..i + |p|] == p
  }

  lemma OccursAtTail(s: string, p: string, i: nat)
    requires |s| > 0
    ensures OccursAt(s[1..], p, i) <==> OccursAt(s, p, i + 1)
  {
    if i + 1 + |p| <= |s| {
      assert s[1..][i..i + |p|] == s[i + 1..i + 1 + |p|];
    }
  }

  /** Python's `p in s`, computed left to right; the empty string occurs in every string. */
  function Contains(s: string, p: string): (b: bool)
    ensures b <==> exists i: nat :: OccursAt(s, p, i)
    decreases |s|
  {
    if |p| > |s| then
      assert forall i: nat :: !OccursAt(s, p, i);
      false
    else if s[..|p|] == p then
      assert OccursAt(s, p, 0);
      true
    else
      var rest := Contains(s[1..], p);
      assert rest ==> exists i: nat :: OccursAt(s, p, i) by {
        if rest {
          var i: nat :| OccursAt(s[1..], p, i);
          OccursAtTail(s, p, i);
        }
      }
      assert !rest ==> forall i: nat :: !OccursAt(s, p, i) by {
        if !rest {
          forall i: nat ensures !OccursAt(s, p, i) {
            if i > 0 {
              OccursAtTail(s, p, i - 1);
            }
          }
        }
      }
      rest
  }

  /** Python's `s[:n]`: at most the first `n` characters. */
  function Take(s: string, n: nat): (r: string)
    ensures |r| == if |s| < n then |s| else n
    ensures StartsWith(s, r)
  {
    if |s| < n then s else s[..n]
  }

  /** Python's `s.rfind(c)`, with `None` for -1. */
  function LastIndexOf(s: string, c: char): (r: Option<nat>)
    ensures r.Some? ==> r.value < |s|
  {
    if s == [] then None
    else if s[|s| - 1] == c then Some(|s| - 1)
    else LastIndexOf(s[..|s| - 1], c)
  }

  /** rfind finds nothing exactly when `c` is absent, and otherwise the last occurrence. */
  lemma {:induction false} LastIndexOfFinds(s: string, c: char)
    ensures LastIndexOf(s, c).None? <==> forall j :: 0 <= j < |s| ==> s[j] != c
    ensures LastIndexOf(s, c).Some? ==>
              var i := LastIndexOf(s, c).value;
              i < |s| && s[i] == c && forall j :: i < j < |s| ==> s[j] != c
  {
    if s != [] && s[|s| - 1] != c {
      var init := s[..|s| - 1];
      LastIndexOfFinds(init, c);
      assert forall j :: 0 <= j < |init| ==> init[j] == s[j];
    }
  }
}
