/**
  The hooks an agent calls around ThreadWeave's plain engine: when a user
  message carries a quiet trigger, run the engine right away and hand back its
  carryover line; otherwise do nothing.
*/
module WeaveHooks {
  import opened Weave
  import opened Quiet
  import opened WeaveEngine

  /**
    `maybe_quiet_trigger_line`: without a quiet trigger in the message nothing
    surfaces and nothing changes; with one, the engine runs at `now` and its
    result is passed through.
  */
  function MaybeQuietTriggerLine(cfg: Config, ctx: Context, tickets: seq<Ticket>, message: string, now: int): (r: Reply)
    ensures !Triggered(cfg, message) ==> r == Reply(None, ctx, tickets)
    ensures r.line.Some? <==>
      && Triggered(cfg, message)
      && !ctx.Isolated()
      && exists i | 0 <= i < |tickets| :: Eligible(ctx, tickets[i], now)
    ensures r.line.None? ==> r == Reply(None, ctx, tickets)
    ensures r.line.Some? ==>
      exists i | 0 <= i < |tickets| :: Chosen(cfg, ctx, tickets, now, i) && Surfaces(cfg, ctx, tickets, now, i, r)
  {
    if Triggered(cfg, message) then OnBeforeReply(cfg, ctx, tickets, now)
    else Reply(None, ctx, tickets)
  }

  /** With no quiet triggers configured, the hook never surfaces anything. */
  lemma NoTriggersNoLine(cfg: Config, ctx: Context, tickets: seq<Ticket>, message: string, now: int)
    requires cfg.quietTriggers == []
    ensures MaybeQuietTriggerLine(cfg, ctx, tickets, message, now) == Reply(None, ctx, tickets)
  {
    NoTriggersNeverFire(cfg, message);
  }

  /** A triggered hook behaves exactly like calling the engine directly. */
  lemma TriggeredIsEngine(cfg: Config, ctx: Context, tickets: seq<Ticket>, message: string, now: int)
    requires Triggered(cfg, message)
    ensures MaybeQuietTriggerLine(cfg, ctx, tickets, message, now) == OnBeforeReply(cfg, ctx, tickets, now)
  {
  }
}
