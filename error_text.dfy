/** The mapping from a yt-dlp error text to the message the formats endpoint
    returns: an ordered list of substring tests where the first match wins. */
module ErrorText {
  import opened Text

  const UnsupportedMessage: string := "Invalid or unsupported URL."
  const UnavailableMessage: string := "This video is unavailable."
  const PrivateMessage: string := "Private videos cannot be accessed."
  const AgeMessage: string := "Age-restricted video."
  const NotReadyMessage: string := "Livestreams/Premieres not ready."
  const RateLimitMessage: string := "Rate limited by YouTube. Please wait and try again later."
  const GenericMessage: string := "Could not fetch video data (may be region locked, deleted, etc)."

  /** The error texts the endpoint raises itself. Each is written as short
      pieces that join to the text: the proof that a text holds no pattern
      of the table goes piece by piece (`NoInfoMarkers` and its siblings),
      which keeps every step of it small. */
  const NoInfoText: string := "No video " + "information " + "extracted."
  const LiveText: string := "Live streams" + " cannot be " + "downloaded " + "until " + "finished."
  const NoFormatsText: string := "No downl" + "oadable " + "video or " + "audio " + "formats " + "found."

  /** The status code every mapped message is returned with. */
  const MappedStatus: int := 400

  /** The `if`/`elif` chain over `str(e)`. */
  function FriendlyMessage(error: string): string {
    if Contains(error, "Unsupported URL") then UnsupportedMessage
    else if Contains(error, "Video unavailable") then UnavailableMessage
    else if Contains(error, "Private video") then PrivateMessage
    else if Contains(error, "confirm your age") then AgeMessage
    else if Contains(error, "Premiere") || Contains(error, "live event") then NotReadyMessage
    else if Contains(error, "429") || Contains(error, "Too Many Requests") then RateLimitMessage
    else GenericMessage
  }

  /** One row of the table: any of its patterns selects its message. */
  datatype Rule = Rule(patterns: seq<string>, message: string)

  /** The same chain written as data, in priority order. */
  const Rules: seq<Rule> := [
    Rule(["Unsupported URL"], UnsupportedMessage),
    Rule(["Video unavailable"], UnavailableMessage),
    Rule(["Private video"], PrivateMessage),
    Rule(["confirm your age"], AgeMessage),
    Rule(["Premiere", "live event"], NotReadyMessage),
    Rule(["429", "Too Many Requests"], RateLimitMessage)
  ]

  predicate AnyContains(error: string, patterns: seq<string>) {
    patterns != [] && (Contains(error, patterns[0]) || AnyContains(error, patterns[1..]))
  }

  predicate RuleMatches(rule: Rule, error: string) {
    AnyContains(error, rule.patterns)
  }

  /** The message of the first rule that matches, or the generic message. */
  function FirstMatch(rules: seq<Rule>, error: string): string {
    if rules == [] then GenericMessage
    else if RuleMatches(rules[0], error) then rules[0].message
    else FirstMatch(rules[1..], error)
  }

  lemma AnyContainsOne(error: string, p: string)
    ensures AnyContains(error, [p]) <==> Contains(error, p)
  {
    assert [p][1..] == [];
  }

  lemma AnyContainsTwo(error: string, p: string, q: string)
    ensures AnyContains(error, [p, q]) <==> Contains(error, p) || Contains(error, q)
  {
    assert [p, q][1..] == [q];
    AnyContainsOne(error, q);
  }

  /** The chain and the table agree on every error text. */
  lemma FriendlyMessageIsFirstMatch(error: string)
    ensures FriendlyMessage(error) == FirstMatch(Rules, error)
  {
    var r0 := Rules;
    var r1 := r0[1..];
    var r2 := r1[1..];
    var r3 := r2[1..];
    var r4 := r3[1..];
    var r5 := r4[1..];
    assert r5[1..] == [];
    AnyContainsOne(error, "Unsupported URL");
    AnyContainsOne(error, "Video unavailable");
    AnyContainsOne(error, "Private video");
    AnyContainsOne(error, "confirm your age");
    AnyContainsTwo(error, "Premiere", "live event");
    AnyContainsTwo(error, "429", "Too Many Requests");
    assert FirstMatch(r5, error) == if RuleMatches(r5[0], error) then RateLimitMessage else GenericMessage;
    assert FirstMatch(r4, error) == if RuleMatches(r4[0], error) then NotReadyMessage else FirstMatch(r5, error);
    assert FirstMatch(r3, error) == if RuleMatches(r3[0], error) then AgeMessage else FirstMatch(r4, error);
    assert FirstMatch(r2, error) == if RuleMatches(r2[0], error) then PrivateMessage else FirstMatch(r3, error);
    assert FirstMatch(r1, error) == if RuleMatches(r1[0], error) then UnavailableMessage else FirstMatch(r2, error);
  }

  /** Priority: when rule `i` is the first rule that matches, its message is the answer. */
  lemma {:induction false} FirstMatchWins(rules: seq<Rule>, error: string, i: nat)
    requires i < |rules| && RuleMatches(rules[i], error)
    requires forall j :: 0 <= j < i ==> !RuleMatches(rules[j], error)
    ensures FirstMatch(rules, error) == rules[i].message
  {
    if i > 0 {
      assert !RuleMatches(rules[0], error);
      FirstMatchWins(rules[1..], error, i - 1);
    }
  }

  /** Without any matching rule the generic message is the answer. */
  lemma {:induction false} FirstMatchNone(rules: seq<Rule>, error: string)
    requires forall j :: 0 <= j < |rules| ==> !RuleMatches(rules[j], error)
    ensures FirstMatch(rules, error) == GenericMessage
  {
    if rules != [] {
      assert !RuleMatches(rules[0], error);
      FirstMatchNone(rules[1..], error);
    }
  }

  /** The answer is some rule's message exactly when some rule matches. */
  lemma {:induction false} FirstMatchSome(rules: seq<Rule>, error: string) returns (i: nat)
    requires exists j :: 0 <= j < |rules| && RuleMatches(rules[j], error)
    ensures i < |rules| && RuleMatches(rules[i], error) && FirstMatch(rules, error) == rules[i].message
    ensures forall j :: 0 <= j < i ==> !RuleMatches(rules[j], error)
  {
    if RuleMatches(rules[0], error) {
      i := 0;
    } else {
      var j :| 0 <= j < |rules| && RuleMatches(rules[j], error);
      assert j > 0 && rules[1..][j - 1] == rules[j];
      var k := FirstMatchSome(rules[1..], error);
      i := k + 1;
    }
  }

  /** The generic message comes out exactly when no pattern of the table occurs. */
  lemma FriendlyFallbackIff(error: string)
    ensures FriendlyMessage(error) == GenericMessage <==>
            forall j :: 0 <= j < |Rules| ==> !RuleMatches(Rules[j], error)
  {
    FriendlyMessageIsFirstMatch(error);
    if exists j :: 0 <= j < |Rules| && RuleMatches(Rules[j], error) {
      var i := FirstMatchSome(Rules, error);
      assert Rules[i].message != GenericMessage;
    } else {
      FirstMatchNone(Rules, error);
    }
  }

  /** The table's messages are pairwise different, so the answer names the rule. */
  lemma MessagesDistinct()
    ensures forall i, j :: 0 <= i < j < |Rules| ==> Rules[i].message != Rules[j].message
    ensures forall i :: 0 <= i < |Rules| ==> Rules[i].message != GenericMessage
  {
  }

  /** "Unsupported URL" outranks every later pattern, even when they occur too. */
  lemma UnsupportedOutranks(error: string)
    requires Contains(error, "Unsupported URL")
    ensures FriendlyMessage(error) == UnsupportedMessage
  {
  }

  /** A character that every pattern of the table contains: the pattern
      "live event" is told apart by its "ev" pair instead. */
  predicate MarkerChar(c: char) {
    c == 'U' || c == 'V' || c == 'P' || c == 'y' || c == '4' || c == 'T'
  }

  predicate MarkersAbsent(e: string) {
    (forall i :: 0 <= i < |e| ==> !MarkerChar(e[i])) && PairFree(e, 'e', 'v')
  }

  /** An error text without any marker character and without the pair "ev"
      contains no pattern, so it is mapped to the generic message. */
  lemma GenericWithoutMarkers(e: string)
    requires MarkersAbsent(e)
    ensures FriendlyMessage(e) == GenericMessage
  {
    assert 'U' !in e && 'V' !in e && 'P' !in e && 'y' !in e && '4' !in e && 'T' !in e;
    NotContainsChar(e, "Unsupported URL", 0);
    NotContainsChar(e, "Video unavailable", 0);
    NotContainsChar(e, "Private video", 0);
    NotContainsChar(e, "confirm your age", 8);
    NotContainsChar(e, "Premiere", 0);
    NotContainsPair(e, "live event", 5);
    NotContainsChar(e, "429", 0);
    NotContainsChar(e, "Too Many Requests", 0);
  }

  /** Marker-free pieces joined without an "ev" across the seam stay marker-free. */
  lemma MarkersConcat(x: string, y: string)
    requires MarkersAbsent(x) && MarkersAbsent(y)
    requires x == [] || y == [] || !(x[|x| - 1] == 'e' && y[0] == 'v')
    ensures MarkersAbsent(x + y)
  {
    PairFreeConcat(x, y, 'e', 'v');
    var s := x + y;
    forall i | 0 <= i < |s| ensures !MarkerChar(s[i]) {
      if i < |x| {
        assert s[i] == x[i];
      } else {
        assert s[i] == y[i - |x|];
      }
    }
  }

  /** The internal error texts the endpoint raises itself contain no pattern
      of the table, so they all reach the user as the generic message. */
  lemma InternalTextsAreGeneric()
    ensures FriendlyMessage(NoInfoText) == GenericMessage
    ensures FriendlyMessage(LiveText) == GenericMessage
    ensures FriendlyMessage(NoFormatsText) == GenericMessage
  {
    NoInfoMarkers();
    LiveMarkers();
    NoFormatsMarkers();
    GenericWithoutMarkers(NoInfoText);
    GenericWithoutMarkers(LiveText);
    GenericWithoutMarkers(NoFormatsText);
  }

  lemma NoInfoMarkers()
    ensures MarkersAbsent(NoInfoText)
  {
    assert MarkersAbsent("No video ") && MarkersAbsent("information ") && MarkersAbsent("extracted.");
    MarkersConcat("No video ", "information ");
    MarkersConcat("No video " + "information ", "extracted.");
  }

  lemma LiveMarkers()
    ensures MarkersAbsent(LiveText)
  {
    LiveHeadMarkers();
    LiveTailMarkers();
    MarkersConcat("Live streams" + " cannot be ", "downloaded " + "until " + "finished.");
  }

  lemma LiveHeadMarkers()
    ensures MarkersAbsent("Live streams" + " cannot be ")
  {
    assert MarkersAbsent("Live streams") && MarkersAbsent(" cannot be ");
    MarkersConcat("Live streams", " cannot be ");
  }

  lemma LiveTailMarkers()
    ensures MarkersAbsent("downloaded " + "until " + "finished.")
  {
    assert MarkersAbsent("downloaded ") && MarkersAbsent("until ") && MarkersAbsent("finished.");
    MarkersConcat("downloaded ", "until ");
    MarkersConcat("downloaded " + "until ", "finished.");
  }

  lemma NoFormatsMarkers()
    ensures MarkersAbsent(NoFormatsText)
  {
    NoFormatsHeadMarkers();
    NoFormatsTailMarkers();
    MarkersConcat("No downl" + "oadable " + "video or ", "audio " + "formats " + "found.");
  }

  lemma NoFormatsHeadMarkers()
    ensures MarkersAbsent("No downl" + "oadable " + "video or ")
  {
    assert MarkersAbsent("No downl") && MarkersAbsent("oadable ") && MarkersAbsent("video or ");
    MarkersConcat("No downl", "oadable ");
    MarkersConcat("No downl" + "oadable ", "video or ");
  }

  lemma NoFormatsTailMarkers()
    ensures MarkersAbsent("audio " + "formats " + "found.")
  {
    assert MarkersAbsent("audio ") && MarkersAbsent("formats ") && MarkersAbsent("found.");
    MarkersConcat("audio ", "formats ");
    MarkersConcat("audio " + "formats ", "found.");
  }
}
