/**
  The weighted ThreadWeave engine: the same filter and feedback rules as the
  plain engine, but the ticket to surface is the one with the greatest score
  `(1 / (1 + rank)) * base`, where the base combines the presence/silence factor
  with the type's ontology weights; ties go to the older ticket, then to the
  earlier one in the list.

  Timestamps are seconds as Python floats, modelled as `real`; scores are `real`
  too, so the model computes exactly where Python rounds.
*/
module ThreadWeaveKS {
  import opened Weave
  import opened Text
  import opened Feedback

  /** The priority used when the configuration names none. */
  const DefaultPriority: seq<string> := ["care", "deadline", "creative", "domestic"]

  /** An unclosed topic of another thread; a zero `snoozeUntil` or `lastPingTs` means "not set". */
  datatype Ticket = Ticket(
    id: string,
    kind: string,
    caption: string,
    originThreadId: string,
    createdTs: real,
    lastPingTs: real,
    status: Status,
    snoozeUntil: real)

  /** What `on_before_reply` returns, together with the context and tickets as it leaves them. */
  datatype Reply = Reply(line: Option<string>, ctx: Context, tickets: seq<Ticket>)

  /** `cfg.get("priority", [care, deadline, creative, domestic])`. */
  function Priority(cfg: Config): seq<string> {
    if cfg.priority.Some? then cfg.priority.value else DefaultPriority
  }

  /**
    The rank inside `_ks_score`: the index of the type's last occurrence in the
    priority list, or the list's LENGTH when it is not listed.
  */
  function Rank(priority: seq<string>, kind: string): (r: nat)
    ensures kind in priority ==>
      && r < |priority| && priority[r] == kind
      && forall j | r < j < |priority| :: priority[j] != kind
    ensures kind !in priority ==> r == |priority|
  {
    var index := PriorityIndex(priority);
    if kind in index then index[kind] else |priority|
  }

  /** The ontology weights of one type on the axes Ω, α, Δ, Θ, Ξ; an absent entry weighs 0. */
  datatype Weights = Weights(omega: real, alpha: real, delta: real, theta: real, xi: real)

  /** `KAi_WEIGHTS`: each of the four known types spreads a total weight of 1 over two axes; other types weigh nothing. */
  function KAiWeights(kind: string): (w: Weights)
    ensures w.omega >= 0.0 && w.alpha >= 0.0 && w.delta >= 0.0 && w.theta >= 0.0 && w.xi >= 0.0
    ensures w.omega + w.alpha + w.delta + w.theta + w.xi
      == if kind in {"care", "deadline", "creative", "domestic"} then 1.0 else 0.0
  {
    if kind == "care" then Weights(0.0, 0.5, 0.0, 0.5, 0.0)
    else if kind == "deadline" then Weights(0.4, 0.0, 0.6, 0.0, 0.0)
    else if kind == "creative" then Weights(0.0, 0.0, 0.4, 0.0, 0.6)
    else if kind == "domestic" then Weights(0.5, 0.5, 0.0, 0.0, 0.0)
    else Weights(0.0, 0.0, 0.0, 0.0, 0.0)
  }

  /** The presence/silence factor: 1.0 when the user is active here and silent in the origin thread, else 0.6. */
  function Psi(ctx: Context): (psi: real)
    ensures psi == 1.0 <==> ctx.userActiveHere && ctx.silentInOrigin
    ensures psi == 1.0 || psi == 0.6
  {
    if ctx.userActiveHere && ctx.silentInOrigin then 1.0 else 0.6
  }

  /** The axis part of the base score: 0.15 per unit of Ω, α and Δ, 0.05 per unit of Θ, nothing for Ξ. */
  function AxisScore(kind: string): (e: real)
    ensures 0.0 <= e <= 0.15
  {
    var w := KAiWeights(kind);
    w.omega * 0.15 + w.alpha * 0.15 + w.delta * 0.15 + w.theta * 0.05 + w.xi * 0.0
  }

  /**
    Presence lifts every type by the same margin before the rank divides it: a
    type scores strictly more when the user is active here and silent in the
    origin thread than when not.
  */
  lemma {:induction false} PresenceRaisesScore(priority: seq<string>, here: Context, away: Context, kind: string)
    requires here.userActiveHere && here.silentInOrigin
    requires !(away.userActiveHere && away.silentInOrigin)
    ensures TypeScore(priority, away, kind) < TypeScore(priority, here, kind)
  {
    var d := 1.0 + Rank(priority, kind) as real;
    var hi := Psi(here) * 0.5 + AxisScore(kind);
    var lo := Psi(away) * 0.5 + AxisScore(kind);
    assert lo < hi;
    ScaleStrict(lo, hi, d);
    QuotientOrder(hi, d, lo, d);
  }

  /** `_ks_score` of a ticket of type `kind`: the base score shrunk by the factor `1 / (1 + rank)`. */
  function TypeScore(priority: seq<string>, ctx: Context, kind: string): (s: real)
    ensures s == (Psi(ctx) * 0.5 + AxisScore(kind)) / (1.0 + Rank(priority, kind) as real)
    ensures s > 0.0
  {
    var prio := 1.0 / (1.0 + Rank(priority, kind) as real);
    var base := (Psi(ctx) * 0.5) + AxisScore(kind);
    ScaleIsQuotient(base, 1.0 + Rank(priority, kind) as real);
    prio * base
  }

  /** Multiplying by `1 / d` is dividing by `d`. */
  lemma ScaleIsQuotient(b: real, d: real)
    requires d > 0.0
    ensures (1.0 / d) * b == b / d
    ensures b > 0.0 ==> b / d > 0.0
  {
  }

  /** Scaling both sides of `x <= y` by a non-negative `c` keeps the order. */
  lemma ScaleOrder(x: real, y: real, c: real)
    requires x <= y && c >= 0.0
    ensures x * c <= y * c
  {
  }

  /** Scaling both sides of `x < y` by a positive `c` keeps the strict order. */
  lemma ScaleStrict(x: real, y: real, c: real)
    requires x < y && c > 0.0
    ensures x * c < y * c
  {
  }

  /** `a / p > b / q` for positive denominators follows from `a * q > b * p`. */
  lemma QuotientOrder(a: real, p: real, b: real, q: real)
    requires p > 0.0 && q > 0.0 && a * q > b * p
    ensures a / p > b / q
  {
    var x, y := a / p, b / q;
    assert a == x * p;
    assert b == y * q;
    assert x * p * q > y * q * p;
  }

  /**
    "Lower rank is better" holds once the ranks are far enough apart: if
    `3 * (1 + ra) < 2 * (1 + rb)`, a type of rank `ra` strictly outscores one of
    rank `rb`, whatever the two types and the presence factor.
  */
  lemma FarRankWins(priority: seq<string>, ctx: Context, a: string, b: string)
    requires 3 * (1 + Rank(priority, a)) < 2 * (1 + Rank(priority, b))
    ensures TypeScore(priority, ctx, a) > TypeScore(priority, ctx, b)
  {
    var pa := 1.0 + Rank(priority, a) as real;
    var pb := 1.0 + Rank(priority, b) as real;
    var half := Psi(ctx) * 0.5;
    assert half >= 0.3;
    QuotientChain(half + AxisScore(a), half + AxisScore(b), half, pa, pb);
  }

  /** The arithmetic behind `FarRankWins`: a base of at least `h` over `pa` beats a base of at most `1.5 h` over `pb > 1.5 pa`. */
  lemma QuotientChain(ba: real, bb: real, h: real, pa: real, pb: real)
    requires h > 0.0 && pa >= 1.0 && pb > 1.5 * pa && ba >= h && bb <= 1.5 * h
    ensures ba / pa > bb / pb
  {
    ScaleOrder(h, ba, pb);
    ScaleStrict(1.5 * pa, pb, h);
    ScaleOrder(bb, 1.5 * h, pa);
    assert (1.5 * h) * pa == (1.5 * pa) * h;
    assert pb * h == h * pb;
    assert ba * pb > bb * pa;
    QuotientOrder(ba, pa, bb, pb);
  }

  /** A type of rank 0 strictly outscores a type of rank 1, for either presence factor. */
  lemma RankZeroBeatsRankOne(priority: seq<string>, ctx: Context, a: string, b: string)
    requires Rank(priority, a) == 0 && Rank(priority, b) == 1
    ensures TypeScore(priority, ctx, a) > TypeScore(priority, ctx, b)
  {
    FarRankWins(priority, ctx, a, b);
  }

  /** With the default priority the scores order care > deadline > creative > domestic > any unlisted type. */
  lemma DefaultPriorityOrder(ctx: Context, other: string)
    requires other !in DefaultPriority
    ensures var p := DefaultPriority;
      && TypeScore(p, ctx, "care") > TypeScore(p, ctx, "deadline")
      && TypeScore(p, ctx, "deadline") > TypeScore(p, ctx, "creative")
      && TypeScore(p, ctx, "creative") > TypeScore(p, ctx, "domestic")
      && TypeScore(p, ctx, "domestic") > TypeScore(p, ctx, other)
  {
    DefaultScores(ctx, other);
    if Psi(ctx) == 1.0 {
      assert 0.6 > 0.325 > 0.56 / 3.0 > 0.1625 > 0.1;
    } else {
      assert 0.4 > 0.225 > 0.12 > 0.1125 > 0.06;
    }
  }

  /** The five scores under the default priority: the base over one plus the type's position. */
  lemma DefaultScores(ctx: Context, other: string)
    requires other !in DefaultPriority
    ensures var p := DefaultPriority;
      var psi := Psi(ctx);
      && TypeScore(p, ctx, "care") == psi * 0.5 + 0.1
      && TypeScore(p, ctx, "deadline") == (psi * 0.5 + 0.15) / 2.0
      && TypeScore(p, ctx, "creative") == (psi * 0.5 + 0.06) / 3.0
      && TypeScore(p, ctx, "domestic") == (psi * 0.5 + 0.15) / 4.0
      && TypeScore(p, ctx, other) == psi * 0.5 / 5.0
  {
    DefaultRanks(other);
    DefaultAxes(other);
  }

  /** The axis parts of the four known types, and of any other type. */
  lemma DefaultAxes(other: string)
    requires other !in DefaultPriority
    ensures AxisScore("care") == 0.1 && AxisScore("deadline") == 0.15
    ensures AxisScore("creative") == 0.06 && AxisScore("domestic") == 0.15 && AxisScore(other) == 0.0
  {
    assert other != "care" && other != "deadline" && other != "creative" && other != "domestic";
  }

  /** Under the default priority each listed type ranks by its position and any other type ranks fifth. */
  lemma DefaultRanks(other: string)
    requires other !in DefaultPriority
    ensures var p := DefaultPriority;
      && Rank(p, "care") == 0 && Rank(p, "deadline") == 1
      && Rank(p, "creative") == 2 && Rank(p, "domestic") == 3 && Rank(p, other) == 4
  {
    DefaultDistinct();
    RankOfDistinct(DefaultPriority, 0);
    RankOfDistinct(DefaultPriority, 1);
    RankOfDistinct(DefaultPriority, 2);
    RankOfDistinct(DefaultPriority, 3);
  }

  /** No type is listed twice in the default priority. */
  lemma DefaultDistinct()
    ensures Distinct(DefaultPriority)
  {
    var p := DefaultPriority;
    assert p[1] != p[0] && p[2] != p[0] && p[3] != p[0];
    assert p[2] != p[1] && p[3] != p[1] && p[3] != p[2];
  }

  /** In a priority list with no repeats, each type ranks at its position. */
  lemma RankOfDistinct(priority: seq<string>, i: nat)
    requires Distinct(priority) && i < |priority|
    ensures Rank(priority, priority[i]) == i
  {
    var r := Rank(priority, priority[i]);
    assert priority[r] == priority[i];
  }

  /**
    Deeper in a custom priority list two ranks can tie: with the presence factor
    0.6, creative at rank 3 and deadline at rank 4 both score 0.09.
  */
  lemma DeepRanksTie(ctx: Context)
    requires Psi(ctx) == 0.6
    ensures var p := ["care", "domestic", "chores", "creative", "deadline"];
      TypeScore(p, ctx, "creative") == TypeScore(p, ctx, "deadline") == 0.09
  {
    var p := ["care", "domestic", "chores", "creative", "deadline"];
    assert Rank(p, "creative") == 3 && Rank(p, "deadline") == 4;
  }

  /**
    A shallow exact tie: with priority [care, chores, deadline] and ψ = 0.6,
    the unweighted chores at rank 1 and deadline at rank 2 both score 0.15.
  */
  lemma ShallowRanksTie(ctx: Context)
    requires Psi(ctx) == 0.6
    ensures var p := ["care", "chores", "deadline"];
      TypeScore(p, ctx, "chores") == TypeScore(p, ctx, "deadline") == 0.15
  {
    var p := ["care", "chores", "deadline"];
    assert Rank(p, "chores") == 1 && Rank(p, "deadline") == 2;
  }

  /**
    One rank further down the order inverts: creative at rank 4 scores 0.072 and
    deadline at rank 5 scores 0.075, so the worse-ranked type wins.
  */
  lemma DeepRanksInvert(ctx: Context)
    requires Psi(ctx) == 0.6
    ensures var p := ["care", "domestic", "chores", "errands", "creative", "deadline"];
      TypeScore(p, ctx, "creative") < TypeScore(p, ctx, "deadline")
  {
    var p := ["care", "domestic", "chores", "errands", "creative", "deadline"];
    assert Rank(p, "creative") == 4 && Rank(p, "deadline") == 5;
    assert TypeScore(p, ctx, "creative") == 0.072;
    assert TypeScore(p, ctx, "deadline") == 0.075;
  }

  /** `_ks_score` of a ticket. */
  function Score(cfg: Config, ctx: Context, t: Ticket): real {
    TypeScore(Priority(cfg), ctx, t.kind)
  }

  /** The exclusion rules of `_collect`; a snooze end of 0.0 is falsy and excludes nothing. */
  predicate Eligible(ctx: Context, t: Ticket, now: real): (ok: bool)
    ensures t.originThreadId == ctx.threadId ==> !ok
    ensures t.status == Done || t.status == Muted ==> !ok
    ensures ctx.lastTransferTicketId == Some(t.id) ==> !ok
    ensures t.originThreadId != ctx.threadId && ctx.lastTransferTicketId != Some(t.id) ==>
      (t.status == Open ==> ok) &&
      (t.status == Snoozed ==> (ok <==> t.snoozeUntil == 0.0 || t.snoozeUntil <= now))
  {
    && t.originThreadId != ctx.threadId
    && t.status != Done && t.status != Muted
    && !(t.status == Snoozed && t.snoozeUntil != 0.0 && now < t.snoozeUntil)
    && ctx.lastTransferTicketId != Some(t.id)
  }

  /** Time only lets tickets in: one eligible now is eligible at every later time. */
  lemma EligibleLater(ctx: Context, t: Ticket, now: real, later: real)
    requires now <= later && Eligible(ctx, t, now)
    ensures Eligible(ctx, t, later)
  {
  }

  /** The positions of the tickets `_collect` keeps: the eligible ones, in input order. */
  function Collect(ctx: Context, tickets: seq<Ticket>, now: real): seq<nat> {
    Keep(tickets, t => Eligible(ctx, t, now))
  }

  /** The `max` key `(score, -created_ts)`, compared lexicographically. */
  datatype Key = Key(score: real, negCreated: real)

  predicate KeyGreater(x: Key, y: Key) {
    x.score > y.score || (x.score == y.score && x.negCreated > y.negCreated)
  }

  function TicketKey(cfg: Config, ctx: Context, t: Ticket): Key {
    Key(Score(cfg, ctx, t), -t.createdTs)
  }

  /** `k` is the first position holding a greatest key: what Python's `max` returns. */
  predicate IsFirstMax(keys: seq<Key>, k: int) {
    && 0 <= k < |keys|
    && (forall j | 0 <= j < |keys| :: !KeyGreater(keys[j], keys[k]))
    && (forall j | 0 <= j < k :: KeyGreater(keys[k], keys[j]))
  }

  /** `max` scans left to right and replaces its pick only by a strictly greater key. */
  function FirstMax(keys: seq<Key>): (k: nat)
    requires |keys| > 0
    ensures IsFirstMax(keys, k)
  {
    if |keys| == 1 then 0
    else
      var last := |keys| - 1;
      var best := FirstMax(keys[..last]);
      assert forall j | 0 <= j < last :: keys[..last][j] == keys[j];
      if KeyGreater(keys[last], keys[best]) then last else best
  }

  /** The keys of the candidates, in candidate order. */
  function CandidateKeys(cfg: Config, ctx: Context, tickets: seq<Ticket>, cands: seq<nat>): (keys: seq<Key>)
    requires forall p | 0 <= p < |cands| :: cands[p] < |tickets|
    ensures |keys| == |cands|
    ensures forall p | 0 <= p < |cands| :: keys[p] == TicketKey(cfg, ctx, tickets[cands[p]])
  {
    seq(|cands|, p requires 0 <= p < |cands| => TicketKey(cfg, ctx, tickets[cands[p]]))
  }

  /** `_choose`: the candidate `max` picks by `(score, -created_ts)`. */
  function Choose(cfg: Config, ctx: Context, tickets: seq<Ticket>, cands: seq<nat>): (k: nat)
    requires |cands| > 0
    requires forall p | 0 <= p < |cands| :: cands[p] < |tickets|
    ensures k < |cands|
    ensures forall p | 0 <= p < |cands| ::
      !KeyGreater(TicketKey(cfg, ctx, tickets[cands[p]]), TicketKey(cfg, ctx, tickets[cands[k]]))
    ensures forall p | 0 <= p < k ::
      KeyGreater(TicketKey(cfg, ctx, tickets[cands[k]]), TicketKey(cfg, ctx, tickets[cands[p]]))
  {
    FirstMax(CandidateKeys(cfg, ctx, tickets, cands))
  }

  /**
    Ticket `i` is the one to surface: eligible, no eligible ticket has a greater
    key, and every eligible ticket before it has a strictly smaller key.
  */
  predicate Chosen(cfg: Config, ctx: Context, tickets: seq<Ticket>, now: real, i: int) {
    && 0 <= i < |tickets| && Eligible(ctx, tickets[i], now)
    && (forall j | 0 <= j < |tickets| && Eligible(ctx, tickets[j], now) ::
          !KeyGreater(TicketKey(cfg, ctx, tickets[j]), TicketKey(cfg, ctx, tickets[i])))
    && (forall j | 0 <= j < i && Eligible(ctx, tickets[j], now) ::
          KeyGreater(TicketKey(cfg, ctx, tickets[i]), TicketKey(cfg, ctx, tickets[j])))
  }

  /** Collecting and then choosing picks the chosen ticket of the whole list. */
  lemma {:induction false} CollectThenChoose(cfg: Config, ctx: Context, tickets: seq<Ticket>, now: real)
    requires |Collect(ctx, tickets, now)| > 0
    ensures var cands := Collect(ctx, tickets, now);
      Chosen(cfg, ctx, tickets, now, cands[Choose(cfg, ctx, tickets, cands)])
  {
    var cands := Collect(ctx, tickets, now);
    var k := Choose(cfg, ctx, tickets, cands);
    var i := cands[k];
    forall j | 0 <= j < |tickets| && Eligible(ctx, tickets[j], now)
      ensures !KeyGreater(TicketKey(cfg, ctx, tickets[j]), TicketKey(cfg, ctx, tickets[i]))
      ensures j < i ==> KeyGreater(TicketKey(cfg, ctx, tickets[i]), TicketKey(cfg, ctx, tickets[j]))
    {
      var p :| 0 <= p < |cands| && cands[p] == j;
      IncreasingOrder(cands, p, k);
    }
  }

  /** `_format`: the prefix is "care: " for a care ticket and empty for every other type. */
  function Format(t: Ticket): (line: string)
    ensures t.kind == "care" ==> CarryoverText(line) == Some("care: " + t.caption)
    ensures t.kind != "care" ==> CarryoverText(line) == Some(t.caption)
  {
    var prefix := if t.kind == "care" then "care: " else "";
    CarryoverRoundTrip(prefix, t.caption);
    assert "" + t.caption == t.caption;
    CarryoverLine(prefix, t.caption)
  }

  /** The reply surfaces ticket `i`: its line, the context remembering it, and only its ping time set to `now`. */
  predicate Surfaces(ctx: Context, tickets: seq<Ticket>, now: real, i: int, r: Reply)
    requires 0 <= i < |tickets|
  {
    var t := tickets[i];
    && r.line == Some(CarryoverLine(if t.kind == "care" then "care: " else "", t.caption))
    && r.ctx == ctx.(lastTransferTicketId := Some(t.id))
    && r.tickets == tickets[i := t.(lastPingTs := now)]
  }

  /** `on_before_reply` with the clock reading `now` and the host's ticket list `tickets`. */
  function OnBeforeReply(cfg: Config, ctx: Context, tickets: seq<Ticket>, now: real): (r: Reply)
    ensures ctx.Isolated() ==> r == Reply(None, ctx, tickets)
    ensures (forall i | 0 <= i < |tickets| :: !Eligible(ctx, tickets[i], now)) ==> r == Reply(None, ctx, tickets)
    ensures r.line.Some? <==> !ctx.Isolated() && exists i | 0 <= i < |tickets| :: Eligible(ctx, tickets[i], now)
    ensures r.line.None? ==> r == Reply(None, ctx, tickets)
    ensures r.line.Some? ==>
      exists i | 0 <= i < |tickets| :: Chosen(cfg, ctx, tickets, now, i) && Surfaces(ctx, tickets, now, i, r)
  {
    if ctx.Isolated() then Reply(None, ctx, tickets)
    else
      var cands := Collect(ctx, tickets, now);
      if |cands| == 0 then Reply(None, ctx, tickets)
      else
        var i := cands[Choose(cfg, ctx, tickets, cands)];
        CollectThenChoose(cfg, ctx, tickets, now);
        var t := tickets[i];
        Reply(Some(Format(t)), ctx.(lastTransferTicketId := Some(t.id)), tickets[i := t.(lastPingTs := now)])
  }

  /** No immediate repeat: the next call with the updated context surfaces a ticket with a different id. */
  lemma NoImmediateRepeat(cfg: Config, ctx: Context, tickets: seq<Ticket>, now: real, next: seq<Ticket>, later: real)
    requires !ctx.Isolated() && exists k | 0 <= k < |tickets| :: Eligible(ctx, tickets[k], now)
    ensures var first := OnBeforeReply(cfg, ctx, tickets, now);
      var second := OnBeforeReply(cfg, first.ctx, next, later);
      second.line.Some? ==> second.ctx.lastTransferTicketId != first.ctx.lastTransferTicketId
  {
    var first := OnBeforeReply(cfg, ctx, tickets, now);
    var second := OnBeforeReply(cfg, first.ctx, next, later);
    if second.line.Some? {
      var i :| 0 <= i < |tickets| && Chosen(cfg, ctx, tickets, now, i) && Surfaces(ctx, tickets, now, i, first);
      var j :| 0 <= j < |next| && Chosen(cfg, first.ctx, next, later, j) && Surfaces(first.ctx, next, later, j, second);
      assert first.ctx.lastTransferTicketId == Some(tickets[i].id);
      assert second.ctx.lastTransferTicketId == Some(next[j].id);
    }
  }

  /** `_resolve_snooze`: a flat day, four hours or two hours, by the first matching keyword. */
  function ResolveSnooze(message: string, now: real): (until: real)
    ensures until > now
    ensures Contains(Lower(message), "завтра") ==> until == now + 86400.0
    ensures !Contains(Lower(message), "завтра") ==>
      (Contains(Lower(message), "после матча") || Contains(Lower(message), "позже") <==> until == now + 14400.0)
    ensures (!Contains(Lower(message), "завтра") && !Contains(Lower(message), "после матча")
      && !Contains(Lower(message), "позже")) ==> until == now + 7200.0
  {
    var m := Lower(message);
    if Contains(m, "завтра") then now + (24 * 3600) as real
    else if Contains(m, "после матча") || Contains(m, "позже") then now + (4 * 3600) as real
    else now + (2 * 3600) as real
  }

  /** Resolving on the normalized message and on the lower-cased one agree. */
  lemma ResolveIgnoresStrip(message: string, now: real)
    ensures ResolveSnooze(Normalize(message), now) == ResolveSnooze(Lower(message), now)
  {
    LowerIdempotent(Strip(message));
    LowerIdempotent(message);
    assert SnoozeWords[0] == "позже" && SnoozeWords[1] == "после матча" && SnoozeWords[2] == "завтра";
    SnoozeWordIgnoresStrip(message, "позже");
    SnoozeWordIgnoresStrip(message, "после матча");
    SnoozeWordIgnoresStrip(message, "завтра");
  }

  /** A message classified as a snooze always holds a keyword, so the two-hour fallback is never used. */
  lemma FallbackUnreachable(message: string, now: real)
    requires Classify(Lower(message)) == Snooze
    ensures ResolveSnooze(Lower(message), now) >= now + 14400.0
  {
    LowerIdempotent(message);
  }

  /** The snooze regular expression matches exactly when `_resolve_snooze` does not fall back to its shortest offset. */
  lemma SnoozeMatchIffNoFallback(message: string, now: real)
    ensures ContainsAny(Lower(message), SnoozeWords) <==> ResolveSnooze(message, now) != now + 7200.0
  {
    SnoozeAlternatives(Lower(message));
  }

  /**
    `handle_user_feedback`: a whole-word stop mutes, else a snooze keyword
    snoozes, else an acknowledgement closes; only status and snooze end change.
  */
  function HandleUserFeedback(t: Ticket, message: string, now: real): (r: Ticket)
    ensures r.(status := t.status, snoozeUntil := t.snoozeUntil) == t
    ensures Classify(Lower(message)) == Stop ==> r == t.(status := Muted)
    ensures Classify(Lower(message)) == Snooze ==>
      && r == t.(status := Snoozed, snoozeUntil := ResolveSnooze(Lower(message), now))
      && r.snoozeUntil >= now + 14400.0
    ensures Classify(Lower(message)) == Ack ==> r == t.(status := Done)
    ensures Classify(Lower(message)) == NoMatch ==> r == t
  {
    var m := Normalize(message);
    ClassifyIgnoresStrip(message);
    match Classify(m)
    case Stop => t.(status := Muted)
    case Snooze =>
      ResolveIgnoresStrip(message, now);
      FallbackUnreachable(message, now);
      t.(status := Snoozed, snoozeUntil := ResolveSnooze(m, now))
    case Ack => t.(status := Done)
    case NoMatch => t
  }
}
