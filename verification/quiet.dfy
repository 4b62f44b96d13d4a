/**
  The quiet-trigger test: a message fires when some configured trigger phrase,
  lower-cased, occurs anywhere in the lower-cased message. The hooks module and
  the weighted engine implement the same test, one with a loop and one with
  `any`; both are this one function.
*/
module Quiet {
  import opened Weave
  import opened Text

  /** Tries the triggers in order and stops at the first whose lower-cased form occurs in `text`. */
  function AnyTrigger(triggers: seq<string>, text: string): (found: bool)
    ensures found <==> exists j | 0 <= j < |triggers| :: Contains(text, Lower(triggers[j]))
  {
    if |triggers| == 0 then false
    else if Contains(text, Lower(triggers[0])) then true
    else
      var rest := AnyTrigger(triggers[1..], text);
      assert forall j | 1 <= j < |triggers| :: triggers[j] == triggers[1..][j - 1];
      rest
  }

  /** A message fires when some trigger phrase of the configuration, lower-cased, occurs in it lower-cased. */
  function Triggered(cfg: Config, message: string): (fired: bool)
    ensures fired <==>
      exists j | 0 <= j < |cfg.quietTriggers| :: Contains(Lower(message), Lower(cfg.quietTriggers[j]))
  {
    AnyTrigger(cfg.quietTriggers, Lower(message))
  }

  /** With no triggers configured, no message fires. */
  lemma NoTriggersNeverFire(cfg: Config, message: string)
    requires cfg.quietTriggers == []
    ensures !Triggered(cfg, message)
  {
  }

  /** An empty trigger phrase occurs in every message, so it fires on every message. */
  lemma EmptyTriggerAlwaysFires(cfg: Config, message: string)
    requires "" in cfg.quietTriggers
    ensures Triggered(cfg, message)
  {
    var j :| 0 <= j < |cfg.quietTriggers| && cfg.quietTriggers[j] == "";
    assert Lower(cfg.quietTriggers[j]) == "";
    EmptyIsContained(Lower(message));
  }

  /** The test ignores case in the message: lower-casing it beforehand changes no verdict. */
  lemma TriggeredIgnoresCase(cfg: Config, message: string)
    ensures Triggered(cfg, Lower(message)) == Triggered(cfg, message)
  {
    LowerIdempotent(message);
  }
}
