/**
 * Turning the text of a failed download into the message shown to the user:
 * an ordered table of phrases, the first phrase that occurs in the text
 * decides, and text that matches none is passed through after a fixed prefix.
 */
module Failures {

  import opened Options
  import opened Text

  datatype FailureKind =
    | MissingFfmpeg
    | FormatUnavailable
    | BotCheck
    | PremiumOnly
    | PrivateVideo
    | VideoUnavailable
    | Unclassified

  /** One row of the table: if `phrase` occurs in the failure text, the failure is `kind` and the user sees `message`. */
  datatype Rule = Rule(phrase: string, kind: FailureKind, message: string)

  const FfmpegPhrase := "ffmpeg is not installed"
  const FormatPhrase := "Requested format is not available"
  const BotPhrase := "Sign in to confirm you're not a bot"
  const PremiumPhrase := "This video is available for Premium users only"
  const PremiumOnlyPhrase := "This video is only available for Premium users"
  const PrivatePhrase := "Private video"
  const UnavailablePhrase := "Video unavailable"

  const FfmpegMessage := "Download failed: FFmpeg is not installed. Please install FFmpeg or use a different format."
  const FormatMessage := "Could not find the requested video format. The video might be restricted or unavailable."
  const BotMessage := "YouTube requires authentication. Your cookies may be invalid or expired. Please update your youtube_cookies.txt file."
  const PremiumMessage := "This video requires a YouTube Premium subscription."
  const PrivateMessage := "This video is private and cannot be accessed."
  const UnavailableMessage := "This video is unavailable. It may have been removed or set to private."

  /** The prefix put in front of failure text that no rule recognises. */
  const FallbackPrefix := "Download failed: "

  /** The rules in the order they are tried; the premium check has two phrasings. */
  const Rules: seq<Rule> := [
    Rule(FfmpegPhrase, MissingFfmpeg, FfmpegMessage),
    Rule(FormatPhrase, FormatUnavailable, FormatMessage),
    Rule(BotPhrase, BotCheck, BotMessage),
    Rule(PremiumPhrase, PremiumOnly, PremiumMessage),
    Rule(PremiumOnlyPhrase, PremiumOnly, PremiumMessage),
    Rule(PrivatePhrase, PrivateVideo, PrivateMessage),
    Rule(UnavailablePhrase, VideoUnavailable, UnavailableMessage)
  ]

  /** Rule `i` fires on `text`: its phrase occurs in it. */
  predicate Fires(rules: seq<Rule>, i: nat, text: string)
    requires i < |rules|
  {
    Contains(text, rules[i].phrase)
  }

  /** The index of the first rule whose phrase occurs in `text`, if any. */
  function FirstMatch(rules: seq<Rule>, text: string): (r: Option<nat>)
    ensures r.Some? ==> r.value < |rules| && Fires(rules, r.value, text)
    ensures r.Some? ==> forall j :: 0 <= j < r.value ==> !Fires(rules, j, text)
    ensures r.None? <==> forall j :: 0 <= j < |rules| ==> !Fires(rules, j, text)
  {
    if rules == [] then None
    else if Contains(text, rules[0].phrase) then
      assert Fires(rules, 0, text);
      Some(0)
    else
      var rest := FirstMatch(rules[1..], text);
      assert forall j :: 1 <= j < |rules| ==> Fires(rules[1..], j - 1, text) == Fires(rules, j, text) by {
        forall j | 1 <= j < |rules| ensures Fires(rules[1..], j - 1, text) == Fires(rules, j, text) {
          assert rules[1..][j - 1] == rules[j];
        }
      }
      match rest
      case None => None
      case Some(i) =>
        assert Fires(rules[1..], i, text);
        assert Fires(rules, i + 1, text);
        Some(i + 1)
  }

  /** What the user is told about a failed download, and how it was classified. */
  datatype Failure = Failure(kind: FailureKind, message: string)

  /**
   * The classification of failure `text`: the first rule in table order
   * that fires decides the kind and the message; when none fires, the
   * failure is unclassified and the message is the fixed prefix followed by
   * the text verbatim.
   */
  function Classify(text: string): (r: Failure)
    ensures forall i :: 0 <= i < |Rules| && Fires(Rules, i, text) && (forall j :: 0 <= j < i ==> !Fires(Rules, j, text)) ==>
              r == Failure(Rules[i].kind, Rules[i].message)
    ensures r.kind == Unclassified <==> forall j :: 0 <= j < |Rules| ==> !Fires(Rules, j, text)
    ensures r.kind == Unclassified ==> r.message == FallbackPrefix + text
  {
    assert forall j :: 0 <= j < |Rules| ==> Rules[j].kind != Unclassified;
    match FirstMatch(Rules, text)
    case Some(i) => Failure(Rules[i].kind, Rules[i].message)
    case None => Failure(Unclassified, FallbackPrefix + text)
  }

  /**
   * The same decision written as the chain of tests the server performs,
   * one `in` test after another; the table above is the data-driven form.
   */
  function ClassifyChain(text: string): Failure {
    if Contains(text, FfmpegPhrase) then Failure(MissingFfmpeg, FfmpegMessage)
    else if Contains(text, FormatPhrase) then Failure(FormatUnavailable, FormatMessage)
    else if Contains(text, BotPhrase) then Failure(BotCheck, BotMessage)
    else if Contains(text, PremiumPhrase)
         || Contains(text, PremiumOnlyPhrase) then Failure(PremiumOnly, PremiumMessage)
    else if Contains(text, PrivatePhrase) then Failure(PrivateVideo, PrivateMessage)
    else if Contains(text, UnavailablePhrase) then Failure(VideoUnavailable, UnavailableMessage)
    else Failure(Unclassified, FallbackPrefix + text)
  }

  /** The table-driven classification agrees with the chain of tests on every text. */
  lemma ClassifyAgreesWithChain(text: string)
    ensures Classify(text) == ClassifyChain(text)
  {
    var f := seq(|Rules|, j requires 0 <= j < |Rules| => Fires(Rules, j, text));
    RulePhrases();
    if f[0] {
    } else if f[1] {
    } else if f[2] {
    } else if f[3] {
    } else if f[4] {
    } else if f[5] {
    } else if f[6] {
    } else {
    }
  }

  /** The fallback message keeps the original text, which can be read back after the prefix. */
  lemma FallbackKeepsText(text: string)
    requires Classify(text).kind == Unclassified
    ensures StartsWith(Classify(text).message, FallbackPrefix)
    ensures Classify(text).message[|FallbackPrefix|..] == text
  {
    DropPrefix(FallbackPrefix, text);
  }

  lemma DropPrefix(a: string, b: string)
    ensures StartsWith(a + b, a) && (a + b)[|a|..] == b
  {
  }

  /**
   * Text that mentions a private video is never reported as unavailable,
   * whatever else it mentions; when none of the earlier phrases occurs it is
   * reported as private.
   */
  lemma PrivateBeforeUnavailable(text: string)
    requires Contains(text, PrivatePhrase)
    ensures Classify(text).kind != VideoUnavailable
    ensures (forall j :: 0 <= j < 5 ==> !Fires(Rules, j, text)) ==> Classify(text) == Failure(PrivateVideo, PrivateMessage)
  {
    RulePhrases();
    assert Fires(Rules, 5, text);
  }

  /** A phrase that contains a character the text lacks cannot occur in it. */
  lemma AbsentCharacter(text: string, phrase: string, c: char)
    requires c in phrase && c !in text
    ensures !Contains(text, phrase)
  {
  }

  /** Characters that each phrase of the table contains at least one of. */
  predicate IsMarker(c: char) {
    c == 'p' || c == 'q' || c == '\'' || c == 'P' || c == 'V'
  }

  predicate NoMarkers(text: string) {
    forall i :: 0 <= i < |text| ==> !IsMarker(text[i])
  }

  lemma NoMarkersConcat(a: string, b: string)
    requires NoMarkers(a) && NoMarkers(b)
    ensures NoMarkers(a + b)
  {
  }

  /** A phrase with a marker character cannot occur in text without markers. */
  lemma MarkerAbsent(text: string, phrase: string, k: nat)
    requires NoMarkers(text) && k < |phrase| && IsMarker(phrase[k])
    ensures !Contains(text, phrase)
  {
    AbsentCharacter(text, phrase, phrase[k]);
  }

  /** The marker at a known position of each phrase. */
  lemma PhrasesHaveMarkers()
    ensures FfmpegPhrase[3] == 'p' && FormatPhrase[2] == 'q' && BotPhrase[22] == '\''
    ensures PremiumPhrase[28] == 'P' && PremiumOnlyPhrase[33] == 'P' && PrivatePhrase[0] == 'P'
    ensures UnavailablePhrase[0] == 'V'
  {
  }

  lemma RulePhrases()
    ensures Rules[0].phrase == FfmpegPhrase && Rules[1].phrase == FormatPhrase && Rules[2].phrase == BotPhrase
    ensures Rules[3].phrase == PremiumPhrase && Rules[4].phrase == PremiumOnlyPhrase
    ensures Rules[5].phrase == PrivatePhrase && Rules[6].phrase == UnavailablePhrase
  {
  }

  /** Text without marker characters matches no rule and falls through to the generic message. */
  lemma UnmatchedWithoutMarkers(text: string)
    requires NoMarkers(text)
    ensures Classify(text) == Failure(Unclassified, FallbackPrefix + text)
  {
    PhrasesHaveMarkers();
    RulePhrases();
    MarkerAbsent(text, FfmpegPhrase, 3);
    MarkerAbsent(text, FormatPhrase, 2);
    MarkerAbsent(text, BotPhrase, 22);
    MarkerAbsent(text, PremiumPhrase, 28);
    MarkerAbsent(text, PremiumOnlyPhrase, 33);
    MarkerAbsent(text, PrivatePhrase, 0);
    MarkerAbsent(text, UnavailablePhrase, 0);
  }
}
