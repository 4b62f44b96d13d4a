/**
  Feedback classification shared by both engines (they define the same three
  regular expressions): a whole-word stop keyword, then any snooze keyword, then
  any acknowledgement keyword, tried in that order on the stripped, lower-cased
  message.
*/
module Feedback {
  import opened Text

  /** `STOP_RE = \bстоп\b`. */
  const StopWord := "стоп"

  /** `SNOOZE_RE = (позже|после матча|завтра)`. */
  const SnoozeWords: seq<string> := ["позже", "после матча", "завтра"]

  /**
    `ACK_RE = (готово|сделал[аи]|принял[аи]|выпил[аи]|ок(ей)?|👍|✅)` with its
    character classes and optional group spelled out as alternatives.
  */
  const AckWords: seq<string> :=
    ["готово", "сделала", "сделали", "приняла", "приняли", "выпила", "выпили", "ок", "окей", "👍", "✅"]

  /** The outcome of classifying one message. */
  datatype Verdict = Stop | Snooze | Ack | NoMatch

  /** Some keyword of `ks` occurs in `s` (an unanchored search for an alternation). */
  predicate ContainsAny(s: string, ks: seq<string>) {
    exists j | 0 <= j < |ks| :: Contains(s, ks[j])
  }

  /** `user_message.strip().lower()`. */
  function Normalize(message: string): string {
    Lower(Strip(message))
  }

  /** A character class after a stem, as in `сделал[аи]`: the stem followed by either ending. */
  predicate StemThen(m: string, stem: string) {
    Contains(m, stem + "а") || Contains(m, stem + "и")
  }

  /** An optional group after a head, as in `ок(ей)?`, matches at `i`: the head with the tail, or the head alone. */
  predicate OptionalTailAt(m: string, head: string, tail: string, i: int) {
    OccursAt(m, head + tail, i) || OccursAt(m, head, i)
  }

  /** The acknowledgement regular expression, alternative by alternative, with its classes and optional group as written. */
  predicate AckRegex(m: string) {
    || Contains(m, "готово")
    || StemThen(m, "сделал") || StemThen(m, "принял") || StemThen(m, "выпил")
    || (exists i | 0 <= i <= |m| :: OptionalTailAt(m, "ок", "ей", i))
    || Contains(m, "👍") || Contains(m, "✅")
  }

  /** The first of the three searches that succeeds decides; a message matching none leaves the ticket alone. */
  function Classify(m: string): (v: Verdict)
    ensures v == Stop <==> ContainsWord(m, "стоп")
    ensures v == Snooze <==>
      !ContainsWord(m, "стоп") && (Contains(m, "позже") || Contains(m, "после матча") || Contains(m, "завтра"))
    ensures v == Ack <==>
      !ContainsWord(m, "стоп") && !Contains(m, "позже") && !Contains(m, "после матча") && !Contains(m, "завтра")
      && AckRegex(m)
  {
    SnoozeAlternatives(m);
    AckAlternatives(m);
    if ContainsWord(m, StopWord) then Stop
    else if ContainsAny(m, SnoozeWords) then Snooze
    else if ContainsAny(m, AckWords) then Ack
    else NoMatch
  }

  /** The snooze alternation searched as a list finds exactly the three keywords. */
  lemma SnoozeAlternatives(m: string)
    ensures ContainsAny(m, SnoozeWords) <==> Contains(m, "позже") || Contains(m, "после матча") || Contains(m, "завтра")
  {
    assert SnoozeWords[0] == "позже" && SnoozeWords[1] == "после матча" && SnoozeWords[2] == "завтра";
  }

  /**
    Searching for the eleven acknowledgement keywords finds a match exactly when
    the regular expression does: the character classes expand to two keywords
    each, and the optional `ей` never decides, since "окей" holds "ок".
  */
  lemma AckAlternatives(m: string)
    ensures ContainsAny(m, AckWords) <==> AckRegex(m)
  {
    assert AckWords[0] == "готово" && AckWords[1] == "сделал" + "а" && AckWords[2] == "сделал" + "и";
    assert AckWords[3] == "принял" + "а" && AckWords[4] == "принял" + "и" && AckWords[5] == "выпил" + "а";
    assert AckWords[6] == "выпил" + "и" && AckWords[7] == "ок" && AckWords[8] == "ок" + "ей";
    assert AckWords[9] == "👍" && AckWords[10] == "✅";
    OptionalTailIsHead(m, "ок", "ей");
  }

  /** An optional group never changes whether a search succeeds: it succeeds exactly when the head occurs. */
  lemma OptionalTailIsHead(m: string, head: string, tail: string)
    ensures (exists i | 0 <= i <= |m| :: OptionalTailAt(m, head, tail, i)) <==> Contains(m, head)
    ensures Contains(m, head + tail) ==> Contains(m, head)
  {
    forall i | 0 <= i <= |m| && OccursAt(m, head + tail, i)
      ensures OccursAt(m, head, i)
    {
      assert m[i..i + |head|] == m[i..i + |head + tail|][..|head|];
    }
    if Contains(m, head + tail) {
      var i :| 0 <= i <= |m| && OccursAt(m, head + tail, i);
      assert OccursAt(m, head, i);
    }
    if Contains(m, head) {
      var i :| 0 <= i <= |m| && OccursAt(m, head, i);
      assert OptionalTailAt(m, head, tail, i);
    }
  }

  /** Every keyword starts and ends with a non-whitespace character. */
  lemma KeywordsSolid()
    ensures SolidEnds(StopWord)
    ensures forall j | 0 <= j < |SnoozeWords| :: SolidEnds(SnoozeWords[j])
    ensures forall j | 0 <= j < |AckWords| :: SolidEnds(AckWords[j])
  {
  }

  /** The normalized message is the lower-cased message with only whitespace cut from its ends. */
  lemma NormalizeIsInner(message: string) returns (a: int, b: int)
    ensures SpaceOutside(Lower(message), a, b)
    ensures Normalize(message) == Lower(message)[a..b]
  {
    var r := Strip(message);
    a := StripStart(message);
    b := a + |r|;
    assert r == message[a..b];
    LowerKeepsSpace(message, a, b);
    assert Normalize(message) == Lower(message[a..b]);
  }

  /** A snooze keyword is found in the normalized message exactly when it is found in the lower-cased one. */
  lemma SnoozeWordIgnoresStrip(message: string, k: string)
    requires k in SnoozeWords
    ensures Contains(Normalize(message), k) <==> Contains(Lower(message), k)
  {
    KeywordsSolid();
    var a, b := NormalizeIsInner(message);
    ContainsInside(Lower(message), a, b, k);
  }

  /** `strip()` never changes the verdict: classifying the merely lower-cased message gives the same answer. */
  lemma ClassifyIgnoresStrip(message: string)
    ensures Classify(Normalize(message)) == Classify(Lower(message))
  {
    KeywordsSolid();
    var a, b := NormalizeIsInner(message);
    var s := Lower(message);
    WordInside(s, a, b, StopWord);
    forall j | 0 <= j < |SnoozeWords|
      ensures Contains(s[a..b], SnoozeWords[j]) <==> Contains(s, SnoozeWords[j])
    {
      ContainsInside(s, a, b, SnoozeWords[j]);
    }
    forall j | 0 <= j < |AckWords|
      ensures Contains(s[a..b], AckWords[j]) <==> Contains(s, AckWords[j])
    {
      ContainsInside(s, a, b, AckWords[j]);
    }
  }
}
