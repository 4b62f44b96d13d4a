# ThreadWeave carryover core in Dafny

ThreadWeave is a cross-thread carryover helper for a conversational agent. A
*ticket* is an unclosed topic left in some other conversation thread. Right
before the agent replies, the engine may put one carryover line at the top of
the reply: "Лил, висит <prefix><label> — отметь, и я веду дальше." The user's
next message then closes, snoozes or mutes that ticket.

The repository has two engine variants and a hooks file. All three are modelled
here.

- **Plain engine** (`weave_engine.py`, module `WeaveEngine`):
  - A ticket is eligible if four exclusion rules pass.
  - It picks the candidate that a stable sort by `(rank, created_at)` puts first.
  - Rank is the position of the type's last occurrence in `priority`. An
    unlisted type gets the number of *distinct* listed types.
  - The line carries the configured label prefix.
  - `завтра` snoozes until 06:00 on the next calendar day.
- **Weighted engine** (`src/threadweave_min_ks.py`, module `ThreadWeaveKS`):
  - Scores each candidate as `(1/(1+rank)) × (0.5·ψ + axis weights)`.
  - Picks it with `max` by `(score, -created_ts)`. An unlisted type ranks at
    the priority list's *length*.
  - `завтра` is a flat +24h.
  - The top-level `threadweave_min_ks.py` is byte-for-byte the same file, so the
    same module models it. Its line numbers are the same.
- **Hooks** (`weave_hooks.py`, module `WeaveHooks`): runs the plain engine when a
  message holds a quiet trigger.

Shared modules:

- `Weave` (`weave.dfy`): the ticket status, context, configuration, the
  priority index, and the carryover line with its inverse.
- `Text` (`text.dfy`): Python's substring test, `str.lower`, `str.strip` and the
  regular-expression word boundary `\b`.
- `Feedback` (`feedback.dfy`): the three keyword regular expressions and how
  their results rank. Both engines define the same ones.
- `Quiet` (`quiet.dfy`): the case-insensitive quiet-trigger test. Both
  `weave_hooks.py` and the weighted engine implement it.

Modelling choices:

- State is immutable. `OnBeforeReply` returns a `Reply` that holds the line, the
  updated context and the updated ticket list. `HandleUserFeedback` returns the
  updated ticket.
- A ticket is identified by its position in the host's list. `Collect` returns
  the positions it keeps.
- Time in the plain engine is a naive `datetime`: a clock time with no time
  zone, as `utcnow()` returns. It is an integer count of microseconds from a
  midnight, so the day boundary falls at multiples of `Day` and
  `.replace(hour=6)` sets the clock-face hour.
- Time and scores in the weighted engine are `real` seconds.
- Every call takes its clock reading `now` as a parameter.
- Python's `type` and `label` fields are named `kind` and `caption`, because
  both words are reserved in Dafny.

## Model

| member | source | states |
|---|---|---|
| Weave.PriorityIndex | weave_engine.py:58-60 | the index's keys are exactly the listed types, and each maps to the position of its last occurrence (no later entry repeats it) |
| Weave.DistinctIndexSize | weave_engine.py:58-60 | with no repeated entry the index has exactly as many entries as the list, so only repeats make `len(index)` smaller than `len(priority)` |
| Weave.DistinctCount | weave_engine.py:58-60 | a list names at most as many types as it has entries, and exactly as many iff no entry repeats |
| Weave.Keep | weave_engine.py:119-135 | the filter loop keeps exactly the positions whose element passes, each once, in increasing order; both engines' `Collect` (and src/threadweave_min_ks.py:98-110) is this filter over their exclusion rules |
| Weave.CarryoverRoundTrip | weave_engine.py:153 | the fixed-shape carryover line can be read back, and it yields exactly the prefix followed by the label |
| Text.Lower | weave_engine.py:103 | `str.lower` keeps the length, leaves no upper-case letter (A–Z, U+0400–U+042F) behind, changes no character that is not upper-case, and keeps every position's whitespace and word-character class |
| Text.LowerFixes | weave_engine.py:157 | a message with no upper-case letter is its own lower-cased form |
| Text.IsSpace | weave_engine.py:103 | the characters `strip()` cuts are never word characters and never upper-case letters |
| Text.IsWordChar | weave_engine.py:22 | the `\w` class around `\bстоп\b` holds every upper-case letter the model lower-cases, the ASCII lower-case letters, digits and `_`, and nothing past the Cyrillic block |
| Text.LowerIdempotent | weave_engine.py:157 | lower-casing an already lower-cased message again changes nothing (the `message.lower()` inside `_resolve_snooze`) |
| Text.Strip | weave_engine.py:103 | `strip()` is a contiguous slice with only whitespace outside it and non-whitespace at both of its ends |
| Text.AbsentChar | weave_engine.py:20-22 | a keyword with a character the message lacks is not found in it |
| Text.ContainsInside | weave_engine.py:103 | a keyword with non-blank ends is found in the stripped message iff it is found in the unstripped one |
| Text.WordInside | weave_engine.py:22 | a whole-word `\bw\b` match is found in the stripped message iff it is found in the unstripped one |
| Text.TrimmedSlice | weave_engine.py:103 | cutting leading and then trailing whitespace leaves one contiguous slice of the message |
| Text.LowerKeepsSpace | weave_engine.py:103 | lower-casing keeps the whitespace outside a slice where it was, and lower-casing a slice equals slicing the lower-cased string |
| Text.StripUnique | weave_engine.py:103 | `strip()`'s result is the only slice with whitespace outside it and non-whitespace at both ends, and all-whitespace text strips to nothing |
| Text.StripLowerCommute | weave_engine.py:103 | lower-casing and stripping commute: `strip().lower()` equals `lower().strip()` |
| Feedback.Classify | weave_engine.py:104-113 | whole-word `стоп` gives Stop; otherwise any snooze keyword gives Snooze; otherwise any of the eleven acknowledgement words gives Ack; each verdict holds iff its keyword condition holds |
| Feedback.AckAlternatives | weave_engine.py:20 | the acknowledgement regex, read with its character classes `[аи]` and its optional group `(ей)?`, matches exactly when one of the eleven spelled-out words occurs |
| Feedback.OptionalTailIsHead | weave_engine.py:20 | a match of `ок(ей)?` somewhere is the same as an occurrence of `ок`, since `окей` itself contains `ок` |
| Feedback.KeywordsSolid | weave_engine.py:20-22 | no keyword starts or ends with whitespace |
| Feedback.NormalizeIsInner | weave_engine.py:103 | `strip().lower()` is the lower-cased message with only whitespace cut from its two ends |
| Feedback.SnoozeWordIgnoresStrip | weave_engine.py:103-107 | each snooze keyword is found in `strip().lower()` iff it is found in `lower()` |
| Feedback.ClassifyIgnoresStrip | weave_engine.py:103-111 | classifying `strip().lower()` gives the same verdict as classifying `lower()` alone: stripping never changes the outcome |
| Quiet.AnyTrigger | weave_hooks.py:28-32 | the early-return loop finds a trigger iff some trigger, lower-cased, occurs in the text |
| Quiet.Triggered | weave_hooks.py:25-32 | a message fires iff some configured trigger, lower-cased, is a substring of the lower-cased message; the weighted engine's `quiet_triggered` at src/threadweave_min_ks.py:65-68 is the same test |
| Quiet.NoTriggersNeverFire | weave_hooks.py:27-32 | with no triggers configured, no message fires |
| Quiet.EmptyTriggerAlwaysFires | weave_hooks.py:29-31 | an empty trigger phrase fires on every message |
| Quiet.TriggeredIgnoresCase | weave_hooks.py:28-30 | lower-casing the message beforehand never changes whether it fires |
| WeaveHooks.MaybeQuietTriggerLine | weave_hooks.py:35-44 | without a trigger the result is no line, with context and tickets untouched; a line comes back iff the message fires, the thread is not isolated and some ticket is eligible, and then it is the engine's chosen ticket |
| WeaveHooks.NoTriggersNoLine | weave_hooks.py:27-44 | with no triggers configured the hook never surfaces anything or changes any state |
| WeaveHooks.TriggeredIsEngine | weave_hooks.py:16-22 | when the message fires, the hook's result is exactly the engine's `on_before_reply` result for the same context and time |
| WeaveEngine.Rank | weave_engine.py:143 | a listed type ranks at the position of its last occurrence; an unlisted type ranks at the number of distinct listed types |
| WeaveEngine.UnlistedRanksLast | weave_engine.py:58-60 | with no repeated entry in `priority`, every unlisted type ranks after every listed one |
| WeaveEngine.RepeatedEntryTiesUnlisted | weave_engine.py:58-60 | with priority `[care, deadline, care]` an unlisted type ranks 2, the same as `care` |
| WeaveEngine.TwoDistinctListed | weave_engine.py:58-60 | the list `[care, deadline, care]` names exactly two types |
| WeaveEngine.UnlistedLastIffDistinct | weave_engine.py:143 | every listed type ranks strictly before an unlisted one iff `priority` has no repeated entry |
| WeaveEngine.RepeatsCanRankUnlistedFirst | weave_engine.py:143 | with priority `[care, care, care, care, deadline]` an unlisted type ranks 2, ahead of `care` at 3 and `deadline` at 4 |
| WeaveEngine.FourCaresListTwo | weave_engine.py:58-60 | the list `[care, care, care, care, deadline]` names exactly two types |
| WeaveEngine.Eligible | weave_engine.py:124-133 | a ticket from the current thread, a done or muted ticket, and the ticket surfaced last are never eligible; otherwise an open ticket always is, and a snoozed one is iff it has no snooze end or that end is not after `now` |
| WeaveEngine.EligibleLater | weave_engine.py:129-130 | a ticket eligible now stays eligible at every later time: snoozes only expire |
| WeaveEngine.FirstMin | weave_engine.py:146-147 | the front of a stable ascending sort: a smallest key, and strictly smaller than every key before it |
| WeaveEngine.FirstMinUnique | weave_engine.py:146-147 | that front element is unique, so the choice is fully determined |
| WeaveEngine.SelectTicket | weave_engine.py:137-147 | returns a candidate with a minimal `(rank, created_at)`; among full ties, the earliest |
| WeaveEngine.CollectThenSelect | weave_engine.py:87-90 | filtering and then selecting picks, among all tickets, an eligible one no eligible ticket beats, and the first such one |
| WeaveEngine.LabelPrefix | weave_engine.py:151 | the type's own label when configured, else the "default" label when configured, else empty; never anything but the empty string or a configured label |
| WeaveEngine.FormatCarryover | weave_engine.py:149-153 | the line carries the label configured for the type (else the "default" label, else nothing) followed by the ticket label |
| WeaveEngine.OnBeforeReply | weave_engine.py:76-98 | isolation or no eligible ticket gives no line and no change; otherwise the line belongs to the chosen ticket, the context remembers its id, and only that ticket's `last_ping_at` becomes `now` |
| WeaveEngine.NoImmediateRepeat | weave_engine.py:96 | after a call that surfaces a ticket, the next call with the updated context never surfaces the same ticket id again |
| WeaveEngine.NextDaySixAm | weave_engine.py:159 | the result lies in the next calendar day at exactly 06:00, between 6h and 30h after `now` |
| WeaveEngine.TomorrowIsCalendarDay | weave_engine.py:159 | 00:01 and 23:59 of one day both snooze until the same 06:00, so "tomorrow" is not a flat +24h |
| WeaveEngine.ResolveSnooze | weave_engine.py:155-164 | `завтра` (checked first) gives the next day's 06:00; otherwise `после матча`/`позже` gives exactly +4h; otherwise +2h; always after `now` |
| WeaveEngine.SnoozeMatchIffNoFallback | weave_engine.py:155-164 | `_resolve_snooze` falls back to +2h exactly when no snooze keyword occurs in the lower-cased message |
| WeaveEngine.ResolveIgnoresStrip | weave_engine.py:103-109 | resolving the stripped, lower-cased message and the merely lower-cased one give the same time |
| WeaveEngine.FallbackUnreachable | weave_engine.py:107-109 | a message classified as a snooze always snoozes for at least 4h, so the +2h branch cannot be reached through feedback |
| WeaveEngine.HandleUserFeedback | weave_engine.py:100-113 | Stop mutes, Snooze sets `snoozed` and a snooze end ≥ now + 4h, Ack closes, no match leaves the ticket as it was; no field other than status and snooze end ever changes |
| WeaveEngine.FeedbackIdempotent | weave_engine.py:100-113 | feeding the same message again at the same time changes nothing more |
| WeaveEngine.AckScenario | tests/test_weave_engine.py:23-24 | "ок ✅" closes the ticket |
| WeaveEngine.AfterMatchIsSnooze | weave_engine.py:107 | "после матча" is classified as a snooze |
| WeaveEngine.AfterMatchScenario | tests/test_weave_engine.py:35-37 | "после матча" snoozes the ticket until exactly `now` + 4h |
| WeaveEngine.NoStopInAfterMatch | weave_engine.py:22 | `\bстоп\b` does not match "после матча" |
| WeaveEngine.StopScenario | weave_engine.py:104-106 | "стоп" mutes the ticket and leaves its snooze end alone |
| WeaveEngine.WholeWordScenario | weave_engine.py:22 | "стопка" contains "стоп" only inside a longer word, and nothing else matches, so the ticket is unchanged |
| WeaveEngine.NoStopWordInStopka | weave_engine.py:22 | `\bстоп\b` does not match "стопка" |
| WeaveEngine.NoAckInStopka | weave_engine.py:20 | the acknowledgement regex does not match "стопка" |
| WeaveEngine.NoVerbAckInStopka | weave_engine.py:20 | none of the verb acknowledgements occurs in "стопка" |
| WeaveEngine.NoOkInStopka | weave_engine.py:20 | "ок" does not occur in "стопка" |
| ThreadWeaveKS.Rank | src/threadweave_min_ks.py:114-115 | a listed type ranks at the position of its last occurrence; an unlisted type ranks at the length of the priority list |
| ThreadWeaveKS.KAiWeights | src/threadweave_min_ks.py:47-52 | every weight is non-negative; the weights of each of the four known types sum to 1, and an unknown type weighs nothing |
| ThreadWeaveKS.Psi | src/threadweave_min_ks.py:118 | ψ is 1.0 exactly when the user is active here and silent in the origin thread, and 0.6 otherwise |
| ThreadWeaveKS.PresenceRaisesScore | src/threadweave_min_ks.py:118-125 | any type scores strictly more when ψ is 1.0 than when it is 0.6, at the same rank |
| ThreadWeaveKS.AxisScore | src/threadweave_min_ks.py:117-124 | the axis part of the base score lies between 0 and 0.15 |
| ThreadWeaveKS.TypeScore | src/threadweave_min_ks.py:112-125 | the score is the base `0.5·ψ + axis part` divided by `1 + rank`, and it is always positive |
| ThreadWeaveKS.FarRankWins | src/threadweave_min_ks.py:113-125 | when `3·(1+ra) < 2·(1+rb)`, a type of rank `ra` strictly outscores a type of rank `rb`, whatever the types and ψ |
| ThreadWeaveKS.RankZeroBeatsRankOne | src/threadweave_min_ks.py:113-125 | a type of rank 0 strictly outscores a type of rank 1, for either ψ |
| ThreadWeaveKS.DefaultPriorityOrder | src/threadweave_min_ks.py:58 | under the default priority the scores order care > deadline > creative > domestic > any unlisted type, for either ψ |
| ThreadWeaveKS.DefaultScores | src/threadweave_min_ks.py:112-125 | the exact score of each default type and of an unlisted type, as a function of ψ |
| ThreadWeaveKS.DefaultAxes | src/threadweave_min_ks.py:47-52 | axis parts 0.1, 0.15, 0.06 and 0.15 for care, deadline, creative and domestic, and 0 for any other type |
| ThreadWeaveKS.DefaultRanks | src/threadweave_min_ks.py:57-58 | under the default priority care, deadline, creative and domestic rank 0 to 3, and any other type ranks 4 |
| ThreadWeaveKS.DefaultDistinct | src/threadweave_min_ks.py:57 | the default priority lists no type twice |
| ThreadWeaveKS.RankOfDistinct | src/threadweave_min_ks.py:114 | in a priority list without repeats each type ranks at its own position |
| ThreadWeaveKS.DeepRanksTie | src/threadweave_min_ks.py:112-125 | with priority `[care, domestic, chores, creative, deadline]` and ψ = 0.6, creative at rank 3 and deadline at rank 4 score exactly the same |
| ThreadWeaveKS.ShallowRanksTie | src/threadweave_min_ks.py:112-125 | with priority `[care, chores, deadline]` and ψ = 0.6, chores at rank 1 and deadline at rank 2 both score exactly 0.15 |
| ThreadWeaveKS.DeepRanksInvert | src/threadweave_min_ks.py:112-125 | with priority `[care, domestic, chores, errands, creative, deadline]` and ψ = 0.6, the higher-priority creative scores strictly less than deadline |
| ThreadWeaveKS.Eligible | src/threadweave_min_ks.py:101-108 | a ticket from the current thread, a done or muted ticket, and the ticket surfaced last are never eligible; otherwise an open ticket always is, and a snoozed one is iff its snooze end is 0.0 (falsy) or not after `now` |
| ThreadWeaveKS.EligibleLater | src/threadweave_min_ks.py:105-106 | a ticket eligible now stays eligible at every later time: snoozes only expire |
| ThreadWeaveKS.FirstMax | src/threadweave_min_ks.py:130 | what `max` returns: a greatest key, and strictly greater than every key before it |
| ThreadWeaveKS.Choose | src/threadweave_min_ks.py:127-130 | returns a candidate with maximal `(score, -created_ts)`: highest score, then the oldest, then the earliest in the list |
| ThreadWeaveKS.CollectThenChoose | src/threadweave_min_ks.py:74-77 | filtering and then choosing picks, among all tickets, an eligible one no eligible ticket beats, and the first such one |
| ThreadWeaveKS.Format | src/threadweave_min_ks.py:132-134 | the line carries "care: " before the label iff the ticket type is `care`, else just the label |
| ThreadWeaveKS.OnBeforeReply | src/threadweave_min_ks.py:70-82 | isolation or no eligible ticket gives no line and no change; otherwise the line belongs to the chosen ticket, the context remembers its id, and only that ticket's `last_ping_ts` becomes `now` |
| ThreadWeaveKS.NoImmediateRepeat | src/threadweave_min_ks.py:80 | after a call that surfaces a ticket, the next call with the updated context never surfaces the same ticket id again |
| ThreadWeaveKS.ResolveSnooze | src/threadweave_min_ks.py:136-142 | `завтра` gives +86400 s; otherwise `после матча`/`позже` gives exactly +14400 s; otherwise +7200 s; always after `now` |
| ThreadWeaveKS.SnoozeMatchIffNoFallback | src/threadweave_min_ks.py:136-142 | `_resolve_snooze` falls back to +7200 s exactly when no snooze keyword occurs in the lower-cased message |
| ThreadWeaveKS.ResolveIgnoresStrip | src/threadweave_min_ks.py:86-92 | resolving the stripped, lower-cased message and the merely lower-cased one give the same time |
| ThreadWeaveKS.FallbackUnreachable | src/threadweave_min_ks.py:90-92 | a message classified as a snooze always snoozes for at least 14400 s, so the +7200 s branch cannot be reached through feedback |
| ThreadWeaveKS.HandleUserFeedback | src/threadweave_min_ks.py:84-96 | Stop mutes, Snooze sets `snoozed` and a snooze end ≥ now + 14400, Ack closes, no match leaves the ticket as it was; only status and snooze end ever change |

## Where the engines depart from their evident intent, and from each other

- **Rank of unlisted types.** Both engines evidently mean an unlisted type to
  rank after every listed one. The plain engine sorts "by configured priority
  first" (weave_engine.py:141) and gives an unlisted type the past-the-end
  default of its `get` (weave_engine.py:143). The weighted engine's
  `prio_rank.get(t.type, len(self.priority))` under "lower is better"
  (src/threadweave_min_ks.py:113-115) does the same.
  - The plain engine ranks an unlisted type at `len(self._priority_index)`,
    which is the number of distinct entries. Unlisted types rank after every
    listed type exactly when `priority` has no repeated entry
    (`WeaveEngine.UnlistedLastIffDistinct`).
  - A repeated entry can make an unlisted type tie with a listed one
    (`WeaveEngine.RepeatedEntryTiesUnlisted`), or even rank it ahead of every
    listed type (`WeaveEngine.RepeatsCanRankUnlistedFirst`).
  - The weighted engine uses `len(self.priority)` instead.
- **"Lower rank is better"** holds between ranks 0 and 1 in the weighted
  engine, and whenever `3·(1+ra) < 2·(1+rb)`. Deeper in a custom priority list
  it can fail:
  - `ThreadWeaveKS.DeepRanksTie` shows two types at adjacent ranks with exactly
    equal scores, 0.09 each. IEEE doubles compute 0.09 for both as well, so the
    source ties too and `max` falls back to `-created_ts`, as the model does.
  - `ThreadWeaveKS.DeepRanksInvert` shows the higher-priority type scoring
    strictly lower.
- **"Tomorrow".** The plain engine snoozes until 06:00 the next calendar day
  (`WeaveEngine.TomorrowIsCalendarDay`). The weighted engine adds a flat 24h.
- **Tie-breaks.** The plain engine prefers the oldest `created_at`, then list
  order. The weighted engine prefers the highest score, then the smallest
  `created_ts`, then list order.

## Left out

- `scan_tickets` (weave_engine.py:66-74, src/threadweave_min_ks.py:61-62): the
  stub returns an empty list. The host supplies the tickets, so they are a
  parameter.
- The clock defaults `now or datetime.utcnow()`, `now_ts or time.time()` and
  the hooks' `datetime.utcnow()` (weave_hooks.py:22). `now` is always a
  parameter. The falsy substitution of a zero `now_ts` in the weighted engine
  is not modelled.
- Python `datetime` range limits (year 9999 overflow of `now + timedelta`): time
  is an unbounded integer.
- IEEE floating point in `_ks_score` and the weighted engine's timestamps:
  these are exact `real` numbers, so an exact tie may be broken by rounding in
  the source. In `ThreadWeaveKS.ShallowRanksTie` (priority
  `[care, chores, deadline]`, ψ = 0.6) chores and deadline both score exactly
  0.15. In doubles, chores gets `0.15` and deadline `1/3 × 0.45 =
  0.14999999999999997`, so the source picks chores, while the model falls back
  to the older ticket.
- Time-zone-aware `datetime` values: every clock reading in the source is a
  naive `utcnow()`. Zone offsets, daylight-saving shifts, and the `TypeError`
  from comparing an aware `datetime` with a naive one are not modelled.
- Full Unicode in `str.lower` and the regular-expression `\w`:
  - Lower-casing covers ASCII and Cyrillic (U+0400–U+042F).
  - Word characters cover ASCII letters, digits, `_` and Cyrillic
    (U+0400–U+0481, U+048A–U+04FF).
  - Characters outside these ranges are treated as neither upper-case nor word
    characters.
  - Whitespace follows `str.isspace` exactly.
- Feedback.Classify: matches keywords against the lower-cased message by
  plain equality of characters. Python's `re.IGNORECASE` also equates
  characters that `str.lower` leaves distinct, such as U+1C82 "ᲂ" with "о",
  U+1C83 "ᲃ" with "с" and U+1C84 "ᲄ" with "т", so "ᲂк" closes a ticket in the
  source but is no match here.
- Text.Lower: does not model `str.lower`'s case mappings that change the
  length (such as "İ"). Every mapping modelled is one character to one
  character.
- Status strings other than the four known ones: `Status` is a closed datatype.
- The `if not ticket: return None` guards (weave_engine.py:91-92,
  src/threadweave_min_ks.py:78-79) and `if not candidates` inside the selectors
  cannot fire, because a dataclass instance is always truthy and the list is
  never empty there.
- Object aliasing: a ticket that occurs twice in the host's list is two
  independent values here.
- Configuration loading, the relative import in `weave_hooks.py` and dataclass
  mechanics: Python plumbing with no behaviour to model.
- Concurrency: the host serialises calls.
