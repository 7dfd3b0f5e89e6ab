// Borrow conservation over runs of handle operations under one call context.

module ContextRuns {
  import opened Words
  import opened Wrappers
  import opened ResourceTables
  import opened CallSpecs
  import opened Instances

  datatype Op =
    | New(rep: Rep)
    | LowerOwn(value: uint32)
    | LowerBorrow(value: uint32)
    | Drop(idx: uint32, rt: uint32)
    | LiftOwn(idx: uint32)
    | LiftBorrow(idx: uint32)

  predicate Adds(op: Op) {
    op.New? || op.LowerOwn? || op.LowerBorrow?
  }

  /** The instance works under ctx, and lends go to scope. */
  ghost predicate Ready(inst: Instance, ctx: CallContext, scope: BorrowScope)
    reads inst, inst.table, inst.table.scopes
  {
    && inst.table.Valid() && inst.table.Balanced()
    && inst.callContext == ctx && scope.table == inst.table && scope in inst.table.scopes
  }

  /** The context counts exactly the borrowed entries. */
  ghost predicate Counted(inst: Instance, ctx: CallContext, scope: BorrowScope)
    reads inst, inst.table, inst.table.scopes, ctx
  {
    Ready(inst, ctx, scope) && inst.Drift() == 0
  }

  /** What the index range and the counters cannot take: a handle that needs slot 2^31, or lend number 2^32 of one. */
  ghost predicate Stuck(inst: Instance, op: Op)
    requires |inst.table.entries| <= TWO_31
    reads inst, inst.table
  {
    || (Adds(op) && inst.table.freeHead < 0 && |inst.table.entries| == TWO_31)
    || (op.LiftBorrow? && exists h :: h in inst.table.Live() && h.index == op.idx && h.generation < 1000
                                      && inst.table.Live()[h].numLends == TWO_32 - 1)
  }

  method IsStuck(inst: Instance, op: Op) returns (stuck: bool)
    requires inst.table.Valid()
    ensures stuck <==> Stuck(inst, op)
  {
    hide TableOk, LiveMap;
    stuck := Adds(op) && inst.table.freeHead < 0 && |inst.table.entries| == TWO_31;
    if op.LiftBorrow? {
      var f := inst.FindHandle(op.idx);
      stuck := f.Some? && f.value.1.numLends == TWO_32 - 1;
      if f.Some? {
        OnlyAtIndex(inst.table.entries, f.value.0);
      }
    }
  }

  /** No operation changes the difference between the borrowed entries and the context's count. */
  method Step(inst: Instance, ctx: CallContext, scope: BorrowScope, op: Op)
    requires Ready(inst, ctx, scope) && !Stuck(inst, op)
    modifies inst, inst.table, ctx, scope
    ensures Ready(inst, ctx, scope) && inst.Drift() == old(inst.Drift())
  {
    hide TableOk, LiveMap, LendsMatch, BorrowCount;
    match op {
      case New(rep) =>
        var _, _ := inst.ResourceNew(rep);
      case LowerOwn(value) =>
        var _, _ := inst.LowerOwn(value);
      case LowerBorrow(value) =>
        var _, _ := inst.LowerBorrow(value, ctx);
      case Drop(idx, rt) =>
        var _ := inst.ResourceDrop(idx, rt);
      case LiftOwn(idx) =>
        var _ := inst.LiftOwn(idx);
      case LiftBorrow(idx) =>
        var _ := inst.LiftBorrow(idx, scope);
    }
  }

  method CountedStep(inst: Instance, ctx: CallContext, scope: BorrowScope, op: Op)
    requires Counted(inst, ctx, scope) && !Stuck(inst, op)
    modifies inst, inst.table, ctx, scope
    ensures Counted(inst, ctx, scope)
  {
    hide TableOk, LiveMap, LendsMatch, BorrowCount, Stuck;
    Step(inst, ctx, scope, op);
  }

  /**
    Starting with no borrowed entries and a count of zero, after any run, however long, the count is the
    number of borrowed entries: it is never negative, and the return check passes exactly when all were
    dropped. Only a full table or the 2^32nd lend of one handle ends the run early.
   */
  method Run(inst: Instance, ctx: CallContext, scope: BorrowScope, ops: seq<Op>) returns (n: nat)
    requires Counted(inst, ctx, scope)
    modifies inst, inst.table, ctx, scope
    ensures n <= |ops| && Counted(inst, ctx, scope) && |inst.table.entries| <= TWO_31
    ensures n < |ops| ==> Stuck(inst, ops[n])
    ensures ctx.numBorrows == BorrowCount(inst.table.Live())
    ensures ctx.ValidateReturn() <==> forall h :: h in inst.table.Live() ==> inst.table.Live()[h].own
  {
    hide TableOk, LiveMap, LendsMatch, BorrowCount, Counted, Stuck;
    n := 0;
    while n < |ops|
      invariant n <= |ops| && Counted(inst, ctx, scope)
    {
      CountedIs(inst, ctx, scope);
      var stuck := IsStuck(inst, ops[n]);
      if stuck {
        return;
      }
      CountedStep(inst, ctx, scope, ops[n]);
      n := n + 1;
    }
    CountedIs(inst, ctx, scope);
  }

  lemma CountedIs(inst: Instance, ctx: CallContext, scope: BorrowScope)
    requires Counted(inst, ctx, scope)
    ensures inst.table.Valid() && ctx.numBorrows == BorrowCount(inst.table.Live())
    ensures ctx.ValidateReturn() <==> forall h :: h in inst.table.Live() ==> inst.table.Live()[h].own
  {
    hide TableOk, LiveMap, LendsMatch, BorrowCount;
    NoneBorrowed(inst.table.Live());
  }

  lemma NoneBorrowed(live: map<Handle, HandleEntry>)
    ensures BorrowCount(live) == 0 <==> forall h :: h in live ==> live[h].own
  {
    if h :| h in live && !live[h].own {
      assert h in Borrowed(live);
    }
  }
}
