/**
  Shapes shared by both ThreadWeave carryover engines: the ticket status, the
  per-reply context, the configuration surface, the priority index both engines
  build from the configured priority list, and the fixed Russian carryover line.
*/
module Weave {

  datatype Option<+T> = None | Some(value: T)

  /** The four ticket statuses: "open", "snoozed", "done", "muted". */
  datatype Status = Open | Snoozed | Done | Muted

  /** Per-reply state created by the host; the engines only write `lastTransferTicketId`. */
  datatype Context = Context(
    threadId: string,
    isTemporary: bool,
    isProjectOnly: bool,
    lastTransferTicketId: Option<string>,
    userActiveHere: bool,
    silentInOrigin: bool)
  {
    /** Temporary and project-only threads never receive a carryover. */
    predicate Isolated() {
      isTemporary || isProjectOnly
    }
  }

  /**
    The configuration dictionary. An absent "priority" key is `None` (each engine
    has its own default); an absent "labels" or "quiet_triggers" key behaves as the
    empty map or the empty list, so it is represented by one.
  */
  datatype Config = Config(
    priority: Option<seq<string>>,
    labels: map<string, string>,
    quietTriggers: seq<string>)

  /** No type occurs twice in the list. */
  predicate Distinct(s: seq<string>) {
    forall i, j | 0 <= i < j < |s| :: s[i] != s[j]
  }

  /**
    The dictionary `{t: i for i, t in enumerate(priority)}`: every listed type maps
    to the index of its LAST occurrence, since later entries overwrite earlier ones.
  */
  function PriorityIndex(priority: seq<string>): (m: map<string, nat>)
    ensures m.Keys == set t | t in priority
    ensures forall t | t in m :: m[t] < |priority| && priority[m[t]] == t
    ensures forall t | t in m :: forall j | m[t] < j < |priority| :: priority[j] != t
  {
    if |priority| == 0 then map[]
    else PriorityIndex(priority[..|priority| - 1])[priority[|priority| - 1] := |priority| - 1]
  }

  /** The index has one entry per distinct type, so its size is the list length exactly when no type repeats. */
  lemma {:induction false} DistinctIndexSize(priority: seq<string>)
    requires Distinct(priority)
    ensures |PriorityIndex(priority)| == |priority|
  {
    if |priority| > 0 {
      var init := priority[..|priority| - 1];
      var last := priority[|priority| - 1];
      DistinctIndexSize(init);
      assert last !in PriorityIndex(init);
    }
  }

  /** A list names at most as many types as it has entries, and exactly as many when no type repeats. */
  lemma {:induction false} DistinctCount(p: seq<string>)
    ensures |set t | t in p| <= |p|
    ensures Distinct(p) <==> |set t | t in p| == |p|
  {
    if |p| > 0 {
      var init, last := p[..|p| - 1], p[|p| - 1];
      DistinctCount(init);
      assert p == init + [last];
      assert (set t | t in p) == (set t | t in init) + {last};
      if last in init {
        var k :| 0 <= k < |init| && init[k] == last;
        assert p[k] == p[|p| - 1];
      } else {
        assert Distinct(p) ==> Distinct(init) by {
          assert forall i | 0 <= i < |init| :: init[i] == p[i];
        }
        assert Distinct(init) ==> Distinct(p) by {
          assert forall i | 0 <= i < |init| :: p[i] == init[i] && p[i] != last;
        }
      }
    }
  }

  /** In a strictly increasing sequence a smaller element sits at an earlier position. */
  lemma IncreasingOrder(s: seq<nat>, p: int, k: int)
    requires forall i, j | 0 <= i < j < |s| :: s[i] < s[j]
    requires 0 <= p < |s| && 0 <= k < |s|
    ensures s[p] < s[k] ==> p < k
  {
    assert p > k ==> s[k] < s[p];
  }

  /**
    The positions of the elements of `xs` that `keep` accepts, in order: the
    loop that appends every element passing its filter to a fresh list.
  */
  function Keep<T>(xs: seq<T>, keep: T -> bool): (kept: seq<nat>)
    ensures forall p | 0 <= p < |kept| :: kept[p] < |xs| && keep(xs[kept[p]])
    ensures forall i | 0 <= i < |xs| && keep(xs[i]) :: i in kept
    ensures forall p, q | 0 <= p < q < |kept| :: kept[p] < kept[q]
  {
    if |xs| == 0 then []
    else
      var last := |xs| - 1;
      var init := Keep(xs[..last], keep);
      assert forall i | 0 <= i < last :: xs[..last][i] == xs[i];
      if keep(xs[last]) then init + [last] else init
  }

  /** The fixed words around every carryover line. */
  const Lead := "Лил, висит "
  const Tail := " — отметь, и я веду дальше."

  /** The display line `Лил, висит {prefix}{caption} — отметь, и я веду дальше.` */
  function CarryoverLine(prefix: string, caption: string): string {
    Lead + prefix + caption + Tail
  }

  /** Reads back the prefix and caption from a carryover line, or None if the line does not have its shape. */
  function CarryoverText(line: string): Option<string> {
    if |Lead| + |Tail| <= |line| && line[..|Lead|] == Lead && line[|line| - |Tail|..] == Tail
    then Some(line[|Lead|..|line| - |Tail|])
    else None
  }

  /** Formatting and reading back are inverse: the line carries the prefix and caption unchanged. */
  lemma CarryoverRoundTrip(prefix: string, caption: string)
    ensures CarryoverText(CarryoverLine(prefix, caption)) == Some(prefix + caption)
  {
    var line := CarryoverLine(prefix, caption);
    assert line == Lead + (prefix + caption) + Tail;
    assert line[..|Lead|] == Lead;
    assert line[|line| - |Tail|..] == Tail;
    assert line[|Lead|..|line| - |Tail|] == prefix + caption;
  }
}
