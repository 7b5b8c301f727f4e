/** Contexts with cached copies, and the lane object. */
module Lanes {
  import opened Types
  import opened PriorityMempool
  import opened LaneModel

  /** sdk.Context: a cached context starts from the same state and is written back by assignment. */
  class Context {
    var state: State

    constructor (state: State)
      ensures this.state == state
    {
      this.state := state;
    }
  }

  /** How a call that may panic ends. */
  datatype Outcome = Ok | Err | Panic

  class BaseLane {
    const cfg: LaneConfig
    const mempool: PriorityNonceMempool<Priority>

    constructor (cfg: LaneConfig, mempool: PriorityNonceMempool<Priority>)
      requires mempool.Valid() && mempool.cfg.txPriority == cfg.txPriority
      ensures this.cfg == cfg && this.mempool == mempool && Valid()
    {
      this.cfg, this.mempool := cfg, mempool;
    }

    ghost predicate Valid()
      reads mempool
    {
      mempool.Valid() && mempool.cfg.txPriority == cfg.txPriority
    }

    /** The lane as its handlers see it now. */
    ghost function View(): Lane
      reads mempool
    {
      Lane(cfg, mempool.SelectedTxs())
    }

    /** VerifyTx: the context is only written when the transaction passes. */
    method VerifyTx(ctx: Context, tx: Tx) returns (r: Outcome)
      modifies ctx
      ensures var a := LaneModel.VerifyTx(cfg, old(ctx.state), tx);
              && ctx.state == (if a.Passed? then a.state else old(ctx.state))
              && r == (match a case Passed(_) => Ok case Failed => Err case Panicked => Panic)
      ensures r == Ok ==> Passes(cfg, old(ctx.state), tx, ctx.state)
      ensures (r == Err <==> Fails(cfg, old(ctx.state), tx)) && (r == Panic <==> Panics(cfg, old(ctx.state), tx))
      ensures r != Ok ==> ctx.state == old(ctx.state)
    {
      if cfg.ante.Some? {
        var catchCtx := new Context(ctx.state);
        match cfg.ante.value(catchCtx.state, tx)
        case Failed => return Err;
        case Panicked => return Panic;
        case Passed(st) =>
          catchCtx.state := st;
          ctx.state := catchCtx.state;
      }
      r := Ok;
    }
  }
}
