/**
  The plain ThreadWeave engine: filter the host's tickets, pick the one with the
  smallest (priority rank, creation time), surface it as the fixed carryover line
  and remember it; classify user feedback into a status change.

  Time is an integer count of microseconds (the resolution of Python's
  `datetime`) since a midnight epoch, so `t / Day` is the calendar day of `t`.
  A ticket is identified by its position in the host's list; the records are
  immutable and every operation returns the updated copies.
*/
module WeaveEngine {
  import opened Weave
  import opened Text
  import opened Feedback

  const Hour: int := 3_600_000_000
  const Day: int := 24 * Hour

  /** An unclosed topic of another thread; `kind` is the ticket's type, `caption` its label. */
  datatype Ticket = Ticket(
    id: string,
    kind: string,
    caption: string,
    originThreadId: string,
    createdAt: int,
    lastPingAt: Option<int>,
    status: Status,
    snoozeUntil: Option<int>)

  /** What `on_before_reply` returns, together with the context and tickets as it leaves them. */
  datatype Reply = Reply(line: Option<string>, ctx: Context, tickets: seq<Ticket>)

  /** `cfg.get("priority", [])`. */
  function Priority(cfg: Config): seq<string> {
    if cfg.priority.Some? then cfg.priority.value else []
  }

  /**
    The sort rank of a ticket type: the index of its last occurrence in the
    priority list, or the number of DISTINCT listed types when it is not listed.
  */
  function Rank(cfg: Config, kind: string): (r: nat)
    ensures kind in Priority(cfg) ==>
      && r < |Priority(cfg)| && Priority(cfg)[r] == kind
      && forall j | r < j < |Priority(cfg)| :: Priority(cfg)[j] != kind
    ensures kind !in Priority(cfg) ==> r == |set t | t in Priority(cfg)|
  {
    var index := PriorityIndex(Priority(cfg));
    if kind in index then index[kind] else |index|
  }

  /** With no repeated entry in the priority list, an unlisted type ranks after every listed one. */
  lemma UnlistedRanksLast(cfg: Config, listed: string, unlisted: string)
    requires Distinct(Priority(cfg))
    requires listed in Priority(cfg) && unlisted !in Priority(cfg)
    ensures Rank(cfg, listed) < Rank(cfg, unlisted)
  {
    DistinctIndexSize(Priority(cfg));
  }

  /**
    Unlisted types rank after every listed type exactly when no type is listed
    twice: with a repeat, the last entry of the list ranks no better than an
    unlisted type.
  */
  lemma UnlistedLastIffDistinct(cfg: Config, unlisted: string)
    requires unlisted !in Priority(cfg)
    ensures Distinct(Priority(cfg)) <==> forall t | t in Priority(cfg) :: Rank(cfg, t) < Rank(cfg, unlisted)
  {
    var p := Priority(cfg);
    if Distinct(p) {
      forall t | t in p
        ensures Rank(cfg, t) < Rank(cfg, unlisted)
      {
        UnlistedRanksLast(cfg, t, unlisted);
      }
    } else {
      DistinctCount(p);
      var last := p[|p| - 1];
      assert Rank(cfg, last) == |p| - 1;
      assert Rank(cfg, last) >= Rank(cfg, unlisted);
    }
  }

  /**
    A repeated entry can tie an unlisted type with a listed one: with priority
    [care, deadline, care] an unlisted type shares rank 2 with care, so the
    older of the two wins the sort.
  */
  lemma RepeatedEntryTiesUnlisted()
    ensures var cfg := Config(Some(["care", "deadline", "care"]), map[], []);
      Rank(cfg, "domestic") == Rank(cfg, "care") == 2
  {
    var cfg := Config(Some(["care", "deadline", "care"]), map[], []);
    TwoDistinctListed();
    assert |{"care", "deadline"}| == 2;
  }

  /** The list [care, deadline, care] names two distinct types. */
  lemma TwoDistinctListed()
    ensures (set t | t in ["care", "deadline", "care"]) == {"care", "deadline"}
  {
    var p := ["care", "deadline", "care"];
    assert p[0] == "care" && p[1] == "deadline" && p[2] == "care";
  }

  /**
    Repeats can even put an unlisted type first: with priority
    [care, care, care, care, deadline] an unlisted type ranks 2, care 3 and
    deadline 4.
  */
  lemma RepeatsCanRankUnlistedFirst()
    ensures var cfg := Config(Some(["care", "care", "care", "care", "deadline"]), map[], []);
      Rank(cfg, "domestic") == 2 && Rank(cfg, "care") == 3 && Rank(cfg, "deadline") == 4
  {
    var cfg := Config(Some(["care", "care", "care", "care", "deadline"]), map[], []);
    var p := Priority(cfg);
    FourCaresListTwo();
    assert |{"care", "deadline"}| == 2;
    assert p[3] == "care" && p[4] == "deadline" && p[4] != "care";
  }

  /** The list [care, care, care, care, deadline] names two distinct types. */
  lemma FourCaresListTwo()
    ensures (set t | t in ["care", "care", "care", "care", "deadline"]) == {"care", "deadline"}
  {
    var p := ["care", "care", "care", "care", "deadline"];
    assert p[0] == "care" && p[4] == "deadline";
    assert forall i | 0 <= i < 4 :: p[i] == "care";
  }

  /** The sort key `(rank, created_at)`, compared lexicographically. */
  datatype Key = Key(rank: int, created: int)

  predicate KeyLess(x: Key, y: Key) {
    x.rank < y.rank || (x.rank == y.rank && x.created < y.created)
  }

  function TicketKey(cfg: Config, t: Ticket): Key {
    Key(Rank(cfg, t.kind), t.createdAt)
  }

  /**
    The four exclusion rules of `_collect_candidates`: a ticket from the current
    thread, a done or muted ticket, a ticket snoozed until a later time, and the
    ticket surfaced last are all left out.
  */
  predicate Eligible(ctx: Context, t: Ticket, now: int): (ok: bool)
    ensures t.originThreadId == ctx.threadId ==> !ok
    ensures t.status == Done || t.status == Muted ==> !ok
    ensures ctx.lastTransferTicketId == Some(t.id) ==> !ok
    ensures t.originThreadId != ctx.threadId && ctx.lastTransferTicketId != Some(t.id) ==>
      (t.status == Open ==> ok) &&
      (t.status == Snoozed ==> (ok <==> t.snoozeUntil.None? || t.snoozeUntil.value <= now))
  {
    && t.originThreadId != ctx.threadId
    && t.status != Done && t.status != Muted
    && !(t.status == Snoozed && t.snoozeUntil.Some? && now < t.snoozeUntil.value)
    && ctx.lastTransferTicketId != Some(t.id)
  }

  /** Time only lets tickets in: one eligible now is eligible at every later time. */
  lemma EligibleLater(ctx: Context, t: Ticket, now: int, later: int)
    requires now <= later && Eligible(ctx, t, now)
    ensures Eligible(ctx, t, later)
  {
  }

  /** The positions of the tickets `_collect_candidates` keeps: the eligible ones, in input order. */
  function Collect(ctx: Context, tickets: seq<Ticket>, now: int): seq<nat> {
    Keep(tickets, t => Eligible(ctx, t, now))
  }

  /** `k` is the first position holding a smallest key: what a stable ascending sort puts in front. */
  predicate IsFirstMin(keys: seq<Key>, k: int) {
    && 0 <= k < |keys|
    && (forall j | 0 <= j < |keys| :: !KeyLess(keys[j], keys[k]))
    && (forall j | 0 <= j < k :: KeyLess(keys[k], keys[j]))
  }

  /** A scan that keeps the earliest smallest key seen so far. */
  function FirstMin(keys: seq<Key>): (k: nat)
    requires |keys| > 0
    ensures IsFirstMin(keys, k)
  {
    if |keys| == 1 then 0
    else
      var last := |keys| - 1;
      var best := FirstMin(keys[..last]);
      assert forall j | 0 <= j < last :: keys[..last][j] == keys[j];
      if KeyLess(keys[last], keys[best]) then last else best
  }

  /** At most one position is the first smallest, so the stable sort's front element is determined. */
  lemma FirstMinUnique(keys: seq<Key>, k1: int, k2: int)
    requires IsFirstMin(keys, k1) && IsFirstMin(keys, k2)
    ensures k1 == k2
  {
    var a, b := keys[k1], keys[k2];
    assert !KeyLess(a, b) && !KeyLess(b, a);
  }

  /** The keys of the candidates, in candidate order. */
  function CandidateKeys(cfg: Config, tickets: seq<Ticket>, cands: seq<nat>): (keys: seq<Key>)
    requires forall p | 0 <= p < |cands| :: cands[p] < |tickets|
    ensures |keys| == |cands|
    ensures forall p | 0 <= p < |cands| :: keys[p] == TicketKey(cfg, tickets[cands[p]])
  {
    seq(|cands|, p requires 0 <= p < |cands| => TicketKey(cfg, tickets[cands[p]]))
  }

  /** `_select_ticket`: the candidate a stable sort by `(rank, created_at)` puts first. */
  function SelectTicket(cfg: Config, tickets: seq<Ticket>, cands: seq<nat>): (k: nat)
    requires |cands| > 0
    requires forall p | 0 <= p < |cands| :: cands[p] < |tickets|
    ensures k < |cands|
    ensures forall p | 0 <= p < |cands| ::
      !KeyLess(TicketKey(cfg, tickets[cands[p]]), TicketKey(cfg, tickets[cands[k]]))
    ensures forall p | 0 <= p < k ::
      KeyLess(TicketKey(cfg, tickets[cands[k]]), TicketKey(cfg, tickets[cands[p]]))
  {
    var keys := CandidateKeys(cfg, tickets, cands);
    FirstMin(keys)
  }

  /**
    Ticket `i` is the one to surface: eligible, no eligible ticket has a smaller
    key, and every eligible ticket before it has a strictly larger key.
  */
  predicate Chosen(cfg: Config, ctx: Context, tickets: seq<Ticket>, now: int, i: int) {
    && 0 <= i < |tickets| && Eligible(ctx, tickets[i], now)
    && (forall j | 0 <= j < |tickets| && Eligible(ctx, tickets[j], now) ::
          !KeyLess(TicketKey(cfg, tickets[j]), TicketKey(cfg, tickets[i])))
    && (forall j | 0 <= j < i && Eligible(ctx, tickets[j], now) ::
          KeyLess(TicketKey(cfg, tickets[i]), TicketKey(cfg, tickets[j])))
  }

  /** Collecting and then selecting picks the chosen ticket of the whole list. */
  lemma {:induction false} CollectThenSelect(cfg: Config, ctx: Context, tickets: seq<Ticket>, now: int)
    requires |Collect(ctx, tickets, now)| > 0
    ensures var cands := Collect(ctx, tickets, now);
      Chosen(cfg, ctx, tickets, now, cands[SelectTicket(cfg, tickets, cands)])
  {
    var cands := Collect(ctx, tickets, now);
    var k := SelectTicket(cfg, tickets, cands);
    var i := cands[k];
    forall j | 0 <= j < |tickets| && Eligible(ctx, tickets[j], now)
      ensures !KeyLess(TicketKey(cfg, tickets[j]), TicketKey(cfg, tickets[i]))
      ensures j < i ==> KeyLess(TicketKey(cfg, tickets[i]), TicketKey(cfg, tickets[j]))
    {
      var p :| 0 <= p < |cands| && cands[p] == j;
      IncreasingOrder(cands, p, k);
    }
  }

  /** `_format_carryover`'s prefix: the label configured for the type, else the "default" label, else none. */
  function LabelPrefix(cfg: Config, kind: string): (prefix: string)
    ensures kind in cfg.labels ==> prefix == cfg.labels[kind]
    ensures kind !in cfg.labels && "default" in cfg.labels ==> prefix == cfg.labels["default"]
    ensures prefix == "" || prefix in cfg.labels.Values
    ensures kind !in cfg.labels && "default" !in cfg.labels ==> prefix == ""
  {
    if kind in cfg.labels then cfg.labels[kind]
    else if "default" in cfg.labels then cfg.labels["default"]
    else ""
  }

  /** `_format_carryover`: the fixed line, carrying the type's prefix and the ticket's label. */
  function FormatCarryover(cfg: Config, t: Ticket): (line: string)
    ensures CarryoverText(line) == Some(LabelPrefix(cfg, t.kind) + t.caption)
  {
    CarryoverRoundTrip(LabelPrefix(cfg, t.kind), t.caption);
    CarryoverLine(LabelPrefix(cfg, t.kind), t.caption)
  }

  /** The reply surfaces ticket `i`: its line, the context remembering it, and only its ping time set to `now`. */
  predicate Surfaces(cfg: Config, ctx: Context, tickets: seq<Ticket>, now: int, i: int, r: Reply)
    requires 0 <= i < |tickets|
  {
    var t := tickets[i];
    && r.line == Some(CarryoverLine(LabelPrefix(cfg, t.kind), t.caption))
    && r.ctx == ctx.(lastTransferTicketId := Some(t.id))
    && r.tickets == tickets[i := t.(lastPingAt := Some(now))]
  }

  /** `on_before_reply` with the clock reading `now` and the host's ticket list `tickets`. */
  function OnBeforeReply(cfg: Config, ctx: Context, tickets: seq<Ticket>, now: int): (r: Reply)
    ensures ctx.Isolated() ==> r == Reply(None, ctx, tickets)
    ensures (forall i | 0 <= i < |tickets| :: !Eligible(ctx, tickets[i], now)) ==> r == Reply(None, ctx, tickets)
    ensures r.line.Some? <==> !ctx.Isolated() && exists i | 0 <= i < |tickets| :: Eligible(ctx, tickets[i], now)
    ensures r.line.None? ==> r == Reply(None, ctx, tickets)
    ensures r.line.Some? ==>
      exists i | 0 <= i < |tickets| :: Chosen(cfg, ctx, tickets, now, i) && Surfaces(cfg, ctx, tickets, now, i, r)
  {
    if ctx.Isolated() then Reply(None, ctx, tickets)
    else
      var cands := Collect(ctx, tickets, now);
      if |cands| == 0 then Reply(None, ctx, tickets)
      else
        var i := cands[SelectTicket(cfg, tickets, cands)];
        CollectThenSelect(cfg, ctx, tickets, now);
        var t := tickets[i];
        var line := FormatCarryover(cfg, t);
        Reply(Some(line), ctx.(lastTransferTicketId := Some(t.id)), tickets[i := t.(lastPingAt := Some(now))])
  }

  /**
    No immediate repeat: after a ticket is surfaced, the next call with the
    updated context surfaces a ticket with a different id, whatever tickets the
    host then supplies.
  */
  lemma NoImmediateRepeat(cfg: Config, ctx: Context, tickets: seq<Ticket>, now: int, next: seq<Ticket>, later: int)
    requires !ctx.Isolated() && exists k | 0 <= k < |tickets| :: Eligible(ctx, tickets[k], now)
    ensures var first := OnBeforeReply(cfg, ctx, tickets, now);
      var second := OnBeforeReply(cfg, first.ctx, next, later);
      second.line.Some? ==> second.ctx.lastTransferTicketId != first.ctx.lastTransferTicketId
  {
    var first := OnBeforeReply(cfg, ctx, tickets, now);
    var second := OnBeforeReply(cfg, first.ctx, next, later);
    if second.line.Some? {
      var i :| 0 <= i < |tickets| && Chosen(cfg, ctx, tickets, now, i) && Surfaces(cfg, ctx, tickets, now, i, first);
      var j :| 0 <= j < |next| && Chosen(cfg, first.ctx, next, later, j) && Surfaces(cfg, first.ctx, next, later, j, second);
      assert first.ctx.lastTransferTicketId == Some(tickets[i].id);
      assert second.ctx.lastTransferTicketId == Some(next[j].id);
    }
  }

  /** 06:00:00.000 on the calendar day after `now`. */
  function NextDaySixAm(now: int): (r: int)
    ensures r / Day == now / Day + 1
    ensures r % Day == 6 * Hour
    ensures now + 6 * Hour < r <= now + Day + 6 * Hour
  {
    ((now + Day) / Day) * Day + 6 * Hour
  }

  /**
    "Tomorrow" is a calendar day, not a flat day: one minute after midnight and
    one minute before the next midnight both snooze until the same 06:00, which
    for the late message is only 6h01m away.
  */
  lemma TomorrowIsCalendarDay(midnight: int)
    requires midnight % Day == 0
    ensures NextDaySixAm(midnight + 60_000_000) == NextDaySixAm(midnight + Day - 60_000_000)
    ensures NextDaySixAm(midnight + Day - 60_000_000) == (midnight + Day - 60_000_000) + 6 * Hour + 60_000_000
  {
    var late := midnight + Day - 60_000_000;
    assert (midnight + 60_000_000) / Day == midnight / Day;
    assert late / Day == midnight / Day;
  }

  /** `_resolve_snooze`: the first matching keyword of the re-lower-cased message decides the snooze end. */
  function ResolveSnooze(message: string, now: int): (until: int)
    ensures until > now
    ensures Contains(Lower(message), "завтра") ==>
      until / Day == now / Day + 1 && until % Day == 6 * Hour
    ensures !Contains(Lower(message), "завтра") ==>
      (Contains(Lower(message), "после матча") || Contains(Lower(message), "позже") <==> until == now + 4 * Hour)
    ensures (!Contains(Lower(message), "завтра") && !Contains(Lower(message), "после матча")
      && !Contains(Lower(message), "позже")) ==> until == now + 2 * Hour
  {
    var text := Lower(message);
    if Contains(text, "завтра") then NextDaySixAm(now)
    else if Contains(text, "после матча") then now + 4 * Hour
    else if Contains(text, "позже") then now + 4 * Hour
    else now + 2 * Hour
  }

  /** Resolving on the normalized message and on the lower-cased one agree. */
  lemma ResolveIgnoresStrip(message: string, now: int)
    ensures ResolveSnooze(Normalize(message), now) == ResolveSnooze(Lower(message), now)
  {
    LowerIdempotent(Strip(message));
    LowerIdempotent(message);
    assert SnoozeWords[0] == "позже" && SnoozeWords[1] == "после матча" && SnoozeWords[2] == "завтра";
    SnoozeWordIgnoresStrip(message, "позже");
    SnoozeWordIgnoresStrip(message, "после матча");
    SnoozeWordIgnoresStrip(message, "завтра");
  }

  /**
    The two-hour fallback cannot be reached from feedback: a message classified
    as a snooze contains one of the three keywords, so the snooze lasts at least
    four hours.
  */
  lemma FallbackUnreachable(message: string, now: int)
    requires Classify(Lower(message)) == Snooze
    ensures ResolveSnooze(Lower(message), now) >= now + 4 * Hour
  {
    LowerIdempotent(message);
  }

  /** The snooze regular expression matches exactly when `_resolve_snooze` does not fall back to its shortest offset. */
  lemma SnoozeMatchIffNoFallback(message: string, now: int)
    ensures ContainsAny(Lower(message), SnoozeWords) <==> ResolveSnooze(message, now) != now + 2 * Hour
  {
    SnoozeAlternatives(Lower(message));
  }

  /**
    `handle_user_feedback`: a whole-word stop mutes, else a snooze keyword
    snoozes, else an acknowledgement closes; only status and snooze end change.
  */
  function HandleUserFeedback(t: Ticket, message: string, now: int): (r: Ticket)
    ensures r.(status := t.status, snoozeUntil := t.snoozeUntil) == t
    ensures Classify(Lower(message)) == Stop ==> r == t.(status := Muted)
    ensures Classify(Lower(message)) == Snooze ==>
      && r == t.(status := Snoozed, snoozeUntil := Some(ResolveSnooze(Lower(message), now)))
      && r.snoozeUntil.value >= now + 4 * Hour
    ensures Classify(Lower(message)) == Ack ==> r == t.(status := Done)
    ensures Classify(Lower(message)) == NoMatch ==> r == t
  {
    var m := Normalize(message);
    ClassifyIgnoresStrip(message);
    match Classify(m)
    case Stop => t.(status := Muted)
    case Snooze =>
      ResolveIgnoresStrip(message, now);
      FallbackUnreachable(message, now);
      t.(status := Snoozed, snoozeUntil := Some(ResolveSnooze(m, now)))
    case Ack => t.(status := Done)
    case NoMatch => t
  }

  /** Feeding the same message twice at the same time changes nothing the first call did not. */
  lemma FeedbackIdempotent(t: Ticket, message: string, now: int)
    ensures HandleUserFeedback(HandleUserFeedback(t, message, now), message, now) == HandleUserFeedback(t, message, now)
  {
  }

  /** "ок ✅" closes the ticket. */
  lemma AckScenario(t: Ticket, now: int)
    ensures HandleUserFeedback(t, "ок ✅", now) == t.(status := Done)
  {
    var m := "ок ✅";
    LowerFixes(m);
    AbsentChar(m, "стоп", 'с');
    assert OptionalTailAt(m, "ок", "ей", 0);
  }

  /** "после матча" at time T snoozes the ticket until T + 4h. */
  lemma AfterMatchScenario(t: Ticket, now: int)
    ensures HandleUserFeedback(t, "после матча", now) == t.(status := Snoozed, snoozeUntil := Some(now + 4 * Hour))
  {
    var m := "после матча";
    LowerFixes(m);
    AfterMatchIsSnooze();
    assert ResolveSnooze(m, now) == now + 4 * Hour by {
      AbsentChar(m, "завтра", 'з');
      assert OccursAt(m, "после матча", 0);
    }
  }

  /** "после матча" is classified as a snooze. */
  lemma AfterMatchIsSnooze()
    ensures Classify("после матча") == Snooze
  {
    var m := "после матча";
    NoStopInAfterMatch();
    assert OccursAt(m, "после матча", 0);
  }

  /** In "после матча" the letter "с" is followed by "л", so "стоп" does not occur, whole word or not. */
  lemma NoStopInAfterMatch()
    ensures !ContainsWord("после матча", "стоп")
  {
    var m := "после матча";
    forall i | 0 <= i <= |m|
      ensures !OccursAt(m, "стоп", i)
    {
      if i + 4 <= |m| {
        assert m[i] != 'с' || m[i + 1] != 'т';
        assert m[i..i + 4][0] == m[i] && m[i..i + 4][1] == m[i + 1];
      }
    }
  }

  /** "стоп" mutes the ticket and leaves its snooze end alone. */
  lemma StopScenario(t: Ticket, now: int)
    ensures HandleUserFeedback(t, "стоп", now) == t.(status := Muted)
  {
    var m := "стоп";
    assert Lower(m) == m;
    assert WordAt(m, "стоп", 0);
  }

  /** "стопка" holds "стоп" only as part of a longer word, so nothing changes. */
  lemma WholeWordScenario(t: Ticket, now: int)
    ensures HandleUserFeedback(t, "стопка", now) == t
  {
    var m := "стопка";
    assert Lower(m) == m;
    NoStopWordInStopka();
    NoAckInStopka();
    AbsentChar(m, "позже", 'з');
    AbsentChar(m, "после матча", 'л');
    AbsentChar(m, "завтра", 'з');
    assert Classify(Lower(m)) == NoMatch;
  }

  /** "стоп" occurs in "стопка" only at the start, followed by the word character "к". */
  lemma NoStopWordInStopka()
    ensures !ContainsWord("стопка", "стоп")
  {
    var m := "стопка";
    forall i | 0 <= i <= |m|
      ensures !WordAt(m, "стоп", i)
    {
      if i == 0 {
        assert IsWordChar(m[4]);
      } else if i == 1 {
        assert m[1] != 'с';
      } else if i == 2 {
        assert m[2] != 'с';
      }
    }
  }

  /** No acknowledgement keyword occurs in "стопка". */
  lemma NoAckInStopka()
    ensures !AckRegex("стопка")
  {
    var m := "стопка";
    NoVerbAckInStopka();
    assert "сделал" + "а" == "сделала" && "сделал" + "и" == "сделали";
    assert "принял" + "а" == "приняла" && "принял" + "и" == "приняли";
    assert "выпил" + "а" == "выпила" && "выпил" + "и" == "выпили";
    AbsentChar(m, "👍", '👍');
    AbsentChar(m, "✅", '✅');
    NoOkInStopka();
    OptionalTailIsHead(m, "ок", "ей");
  }

  /** None of the verb acknowledgements ("готово", "сделала", ...) occurs in "стопка": each holds a letter it lacks. */
  lemma NoVerbAckInStopka()
    ensures !Contains("стопка", "готово") && !Contains("стопка", "сделала") && !Contains("стопка", "сделали")
    ensures !Contains("стопка", "приняла") && !Contains("стопка", "приняли")
    ensures !Contains("стопка", "выпила") && !Contains("стопка", "выпили")
  {
    var m := "стопка";
    AbsentChar(m, "готово", 'г');
    AbsentChar(m, "сделала", 'д');
    AbsentChar(m, "сделали", 'д');
    AbsentChar(m, "приняла", 'р');
    AbsentChar(m, "приняли", 'р');
    AbsentChar(m, "выпила", 'в');
    AbsentChar(m, "выпили", 'в');
  }

  /** In "стопка" the letter "о" is followed by "п", so "ок" does not occur. */
  lemma NoOkInStopka()
    ensures !Contains("стопка", "ок")
  {
    var m := "стопка";
    forall i | 0 <= i <= |m|
      ensures !OccursAt(m, "ок", i)
    {
      if 0 <= i < |m| - 1 {
        assert m[i] != 'о' || m[i + 1] != 'к';
      }
    }
  }
}
