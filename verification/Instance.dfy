// Component instances: the call bracket, borrow accounting and the resource built-ins.

module Instances {
  import opened Words
  import opened Wrappers
  import opened Values
  import opened ResourceTables
  import opened CallSpecs

  // ----- call contexts -----

  class CallContext {
    var numBorrows: int

    constructor ()
      ensures numBorrows == 0
    {
      numBorrows := 0;
    }

    method IncrementBorrows()
      modifies this
      ensures numBorrows == old(numBorrows) + 1
    {
      numBorrows := numBorrows + 1;
    }

    method DecrementBorrows()
      modifies this
      ensures numBorrows == old(numBorrows) - 1
    {
      numBorrows := numBorrows - 1;
    }

    predicate ValidateReturn()
      reads this
    {
      numBorrows <= 0
    }
  }

  // ----- subtasks -----

  datatype SubtaskState = Pending | Resolved | Finishing | Done

  class Subtask {
    const scope: BorrowScope
    var state: SubtaskState
    var result: seq<Val>

    constructor (table: ResourceTable)
      requires table.Valid() && table.Balanced()
      modifies table
      ensures fresh(scope) && scope.table == table && scope.lenders == [] && state == Pending && result == []
      ensures table.scopes == old(table.scopes) + [scope]
      ensures table.entries == old(table.entries) && table.freeHead == old(table.freeHead) && table.hist == old(table.hist)
      ensures table.Valid() && table.Balanced()
    {
      hide TableOk, LiveMap, LendsMatch;
      scope := new BorrowScope(table);
      state, result := Pending, [];
    }

    method DeliverResolve(r: seq<Val>) returns (ok: bool)
      modifies this
      ensures ok == (old(state) == Pending)
      ensures if ok then state == Resolved && result == r else state == old(state) && result == old(result)
    {
      if state != Pending {
        return false;
      }
      result, state := r, Resolved;
      ok := true;
    }

    method StartFinish() returns (ok: bool)
      modifies this
      ensures ok == (old(state) == Resolved) && result == old(result)
      ensures state == if ok then Finishing else old(state)
    {
      if state != Resolved {
        return false;
      }
      state := Finishing;
      ok := true;
    }

    /** Releases the borrow scope and completes; allowed from Resolved and Finishing only. */
    method Finish() returns (ok: bool)
      requires scope.table.Valid() && scope.table.Balanced() && scope in scope.table.scopes
      modifies this, scope, scope.table
      ensures ok == (old(state) == Resolved || old(state) == Finishing) && result == old(result)
      ensures scope.table.Valid() && scope.table.Balanced() && scope.table.Shape() == old(scope.table.Shape())
      ensures if ok
        then state == Done && scope.lenders == []
             && Returned(old(scope.table.Live()), scope.table.Live(), multiset(old(scope.lenders)))
        else state == old(state) && scope.lenders == old(scope.lenders) && scope.table.Live() == old(scope.table.Live())
    {
      hide TableOk, LiveMap, LendsMatch, Returned;
      if state == Pending || state == Done {
        return false;
      }
      var r := scope.Release();
      if r != None {
        return false;
      }
      state := Done;
      ok := true;
    }
  }

  lemma OtherGenerationIsDead(entries: seq<TableEntry>, h: Handle, h': Handle)
    requires |entries| <= TWO_31 && h in LiveMap(entries) && h'.index == h.index
    ensures h' in LiveMap(entries) <==> h' == h
  {
  }

  lemma OnlyAtIndex(entries: seq<TableEntry>, h: Handle)
    requires |entries| <= TWO_31 && h in LiveMap(entries)
    ensures forall h' :: h' in LiveMap(entries) && h'.index == h.index ==> h' == h
  {
    hide LiveMap;
    forall h' | h' in LiveMap(entries) && h'.index == h.index ensures h' == h {
      OtherGenerationIsDead(entries, h, h');
    }
  }

  /** The live handles of a table and its history. */
  lemma TableStore(entries: seq<TableEntry>, freeHead: int, hist: History)
    requires |entries| <= TWO_31 && TableOk(entries, freeHead, hist)
    ensures StoreOk(Store(LiveMap(entries), hist))
    ensures HasRoom(Store(LiveMap(entries), hist)) <==> freeHead >= 0 || |entries| < TWO_31
  {
    FreeHead(entries, freeHead, hist);
    forall h | h in LiveMap(entries) ensures h.index < |hist.uses| && h.index !in hist.freeList {
      assert LiveIn(entries, h);
    }
  }

  /** The handle that is reached is the only one at its index. */
  lemma ReachedIs(entries: seq<TableEntry>, idx: uint32, h: Handle)
    requires |entries| <= TWO_31 && Reaches(LiveMap(entries), idx, h)
    ensures CanReach(LiveMap(entries), idx) && Reached(LiveMap(entries), idx) == h
  {
    hide LiveMap;
    OnlyAtIndex(entries, h);
  }

  lemma NotReached(live: map<Handle, HandleEntry>, idx: uint32)
    requires forall h :: h in live && h.index == idx ==> h.generation >= 1000
    ensures !CanReach(live, idx)
  {
  }

  // ----- a lend that lasts as long as the call -----

  /** live is base, or base with one handle lent once more. */
  ghost predicate LentOver(base: map<Handle, HandleEntry>, live: map<Handle, HandleEntry>, lenders: seq<Handle>) {
    || (lenders == [] && live == base)
    || (|lenders| == 1 && lenders[0] in base && base[lenders[0]].numLends + 1 < TWO_32
        && live == base[lenders[0] := Lent(base[lenders[0]])])
  }

  /** Giving the lend back undoes it. */
  lemma ReturnedOver(base: map<Handle, HandleEntry>, live: map<Handle, HandleEntry>, live': map<Handle, HandleEntry>, lenders: seq<Handle>)
    requires LentOver(base, live, lenders) && Returned(live, live', multiset(lenders))
    ensures live' == base
  {
    if lenders != [] {
      assert lenders == [lenders[0]];
      forall h | h in base ensures live'[h] == base[h] {
        assert h != lenders[0] ==> multiset(lenders)[h] == 0;
      }
    }
  }

  lemma PrefixTrans<T>(a: seq<T>, b: seq<T>, c: seq<T>)
    requires a <= b <= c
    ensures a <= c
  {
  }

  class Instance {
    const table: ResourceTable
    var callContext: CallContext?
    var mayLeaveDisabled: bool
    var activeCallDepth: int
    var destructors: set<uint32>
    var destroyed: seq<(uint32, Rep)>      // destructor calls made by resource.drop, oldest first
    ghost var finished: seq<CallRecord>    // every call of the instance that has ended, in the order they ended

    constructor ()
      ensures fresh(table) && table.Valid() && table.Balanced() && table.Live() == map[]
      ensures table.entries == [] && table.freeHead == -1 && table.hist == History([], [], {})
      ensures callContext == null && !mayLeaveDisabled && activeCallDepth == 0 && destroyed == [] && finished == []
    {
      table := new ResourceTable();
      callContext, mayLeaveDisabled, activeCallDepth, destructors, destroyed := null, false, 0, {}, [];
      finished := [];
    }

    /** Borrowed entries not accounted for by the current call context. */
    ghost function Drift(): int
      requires callContext != null && |table.entries| <= TWO_31
      reads this, table, callContext
    {
      BorrowCount(table.Live()) - callContext.numBorrows
    }

    ghost function StoreOf(): (st: Store)
      requires table.Valid()
      reads this, table
      ensures StoreOk(st) && st.live == table.Live() && st.hist == table.hist
      ensures HasRoom(st) <==> HasSlot()
    {
      TableStore(table.entries, table.freeHead, table.hist);
      Store(table.Live(), table.hist)
    }

    /** The state a call works on. */
    ghost function WorldOf(): (w: World)
      requires table.Valid()
      reads this, table, callContext
      ensures w.store == StoreOf()
    {
      World(StoreOf(), destroyed, if callContext == null then 0 else callContext.numBorrows, finished)
    }

    /** What every action leaves alone. */
    twostate predicate Framed()
      reads this, table, table.scopes
    {
      && table.Valid() && table.Balanced()
      && old(table.scopes) <= table.scopes
      && callContext == old(callContext) && activeCallDepth == old(activeCallDepth) && destructors == old(destructors)
      && (mayLeaveDisabled ==> old(mayLeaveDisabled))
    }

    ghost predicate Sound()
      reads this, table, table.scopes
    {
      table.Valid() && table.Balanced() && 0 <= activeCallDepth
    }

    /** The table has a free slot or can grow: its links reach 2^31 slots. */
    predicate HasSlot()
      reads this, table
    {
      table.freeHead >= 0 || |table.entries| < TWO_31
    }

    /** The table can take one more handle. */
    ghost predicate CanAdd()
      reads this, table, table.scopes
    {
      table.Valid() && table.Balanced() && HasSlot()
    }

    /** The handle that lifting idx finds can be lent once more. */
    ghost predicate CanLend(idx: uint32)
      reads this, table, table.scopes
    {
      && table.Valid() && table.Balanced()
      && forall h :: h in table.Live() && h.index == idx && h.generation < 1000 ==> table.Live()[h].numLends + 1 < TWO_32
    }

    method ResourceNew(rep: Rep) returns (idx: uint32, ghost h: Handle)
      requires CanAdd()
      modifies table
      ensures Framed() && WorldOf() == NewSem(rep, old(WorldOf()))
      ensures h !in old(table.Live()) && h.index == idx && table.Live() == old(table.Live())[h := HandleEntry(0, rep, true, 0)]
      ensures h == NextHandle(old(table.entries), old(table.freeHead))
      ensures callContext != null ==> Drift() == old(Drift())
    {
      hide TableOk, LiveMap, LendsMatch, BorrowCount, StoreOk;
      var handle := table.New(rep, true);
      h := handle;
      BorrowCountInsert(old(table.Live()), h, HandleEntry(0, rep, true, 0));
      idx := handle.index;
    }

    method LowerOwn(rep: uint32) returns (idx: uint32, ghost h: Handle)
      requires CanAdd()
      modifies table
      ensures Framed() && WorldOf() == NewSem(U32Rep(rep), old(WorldOf()))
      ensures h !in old(table.Live()) && h.index == idx && table.Live() == old(table.Live())[h := HandleEntry(0, U32Rep(rep), true, 0)]
      ensures h == NextHandle(old(table.entries), old(table.freeHead))
      ensures callContext != null ==> Drift() == old(Drift())
    {
      idx, h := ResourceNew(U32Rep(rep));
    }

    method LowerBorrow(rep: uint32, ctx: CallContext) returns (idx: uint32, ghost h: Handle)
      requires CanAdd() && callContext == ctx
      modifies table, ctx
      ensures Framed() && WorldOf() == ParamSem(BorrowParam(rep), destructors, old(WorldOf())).0
      ensures ctx.numBorrows == old(ctx.numBorrows) + 1
      ensures h !in old(table.Live()) && h.index == idx && table.Live() == old(table.Live())[h := HandleEntry(0, U32Rep(rep), false, 0)]
      ensures h == NextHandle(old(table.entries), old(table.freeHead))
      ensures Drift() == old(Drift())
    {
      hide TableOk, LiveMap, LendsMatch, BorrowCount, StoreOk;
      var handle := table.New(U32Rep(rep), false);
      h := handle;
      BorrowCountInsert(old(table.Live()), h, HandleEntry(0, U32Rep(rep), false, 0));
      ctx.IncrementBorrows();
      idx := handle.index;
    }

    /** resource.drop by index: only ever names the generation-0 handle of that slot. */
    method ResourceDrop(idx: uint32, rt: uint32) returns (r: Option<Error>)
      requires table.Valid() && table.Balanced()
      modifies table, this`destroyed, callContext
      ensures Framed() && (callContext != null ==> WorldOf() == DropSem(idx, rt, destructors, old(WorldOf())))
      ensures var h, live := Handle(0, idx), old(table.Live());
        && r == (if h !in live then Some(InvalidHandle)
                 else if live[h].numLends > 0 then Some(ResourceInUse)
                 else None)
        && table.Live() == (if r == None then live - {h} else live)
        && destroyed == (if r == None && live[h].own && rt in destructors
                         then old(destroyed) + [(rt, live[h].rep)] else old(destroyed))
        && (callContext != null ==>
              callContext.numBorrows == old(callContext.numBorrows) - if r == None && !live[h].own then 1 else 0)
      ensures callContext != null ==> Drift() == old(Drift())
    {
      hide TableOk, LiveMap, LendsMatch, BorrowCount, StoreOk;
      var h := Handle(0, idx);
      var e := table.Remove(h);
      if e.Err? {
        return Some(e.error);
      }
      BorrowCountRemove(old(table.Live()), h);
      if e.value.own {
        if rt in destructors {
          destroyed := destroyed + [(rt, e.value.rep)];
        }
      } else {
        if callContext != null {
          callContext.DecrementBorrows();
        }
      }
      r := None;
    }

    /** The handle for an index, searched over generations 0 to 999. */
    method FindHandle(idx: uint32) returns (r: Option<(Handle, HandleEntry)>)
      requires table.Valid()
      ensures r.Some? ==> var (h, e) := r.value; h in table.Live() && table.Live()[h] == e && h.index == idx && h.generation < 1000
      ensures r.None? ==> forall h :: h in table.Live() && h.index == idx ==> h.generation >= 1000
    {
      hide TableOk, LiveMap;
      var h := Handle(0, idx);
      var e := table.Get(h);
      if e.Err? {
        for gen := 1 to 1000
          invariant e.Err?
          invariant forall g: uint32 :: g < gen ==> Handle(g, idx) !in table.Live()
        {
          h := Handle(gen, idx);
          e := table.Get(h);
          if e.Ok? {
            return Some((h, e.value));
          }
        }
        return None;
      }
      r := Some((h, e.value));
    }

    method LiftOwn(idx: uint32) returns (r: Result<Rep, CallError>)
      requires table.Valid() && table.Balanced()
      modifies table
      ensures Framed() && table.scopes == old(table.scopes)
      ensures r == Err(BadIndex) <==> forall h :: h in old(table.Live()) && h.index == idx ==> h.generation >= 1000
      ensures forall h :: h in old(table.Live()) && h.index == idx && h.generation < 1000 ==>
        var e := old(table.Live())[h];
        && r == (if !e.own then Err(NotOwned) else if e.numLends > 0 then Err(TableError(ResourceInUse)) else Ok(e.rep))
        && (r.Ok? ==> table.Live() == old(table.Live()) - {h} && table.hist == Freed(old(table.hist), h))
      ensures r.Err? ==> table.Live() == old(table.Live()) && table.hist == old(table.hist)
      ensures BorrowCount(table.Live()) == old(BorrowCount(table.Live()))
    {
      hide TableOk, LiveMap, LendsMatch, BorrowCount;
      var f := FindHandle(idx);
      if f.None? {
        return Err(BadIndex);
      }
      var (h, e) := f.value;
      OnlyAtIndex(table.entries, h);
      if !e.own {
        return Err(NotOwned);
      }
      BorrowCountRemove(table.Live(), h);
      var removed := table.Remove(h);
      if removed.Err? {
        return Err(TableError(removed.error));
      }
      r := Ok(removed.value.rep);
    }

    /** Whether the lend counter of the handle at the index has room for one more. */
    method Lendable(idx: uint32) returns (ok: bool)
      requires table.Valid() && table.Balanced()
      ensures ok <==> CanLend(idx)
    {
      hide TableOk, LiveMap, LendsMatch;
      var f := FindHandle(idx);
      ok := f.None? || f.value.1.numLends != TWO_32 - 1;
      if f.Some? {
        OnlyAtIndex(table.entries, f.value.0);
      }
    }

    method LiftBorrow(idx: uint32, scope: BorrowScope) returns (r: Result<Rep, CallError>)
      requires CanLend(idx) && scope.table == table && scope in table.scopes
      modifies table, scope
      ensures table.Valid() && table.Balanced() && table.Shape() == old(table.Shape())
      ensures forall h :: h in old(table.Live()) && h.index == idx && h.generation < 1000 ==>
        && r == Ok(old(table.Live())[h].rep)
        && table.Live() == old(table.Live())[h := Lent(old(table.Live())[h])]
        && scope.lenders == old(scope.lenders) + [h]
      ensures r.Err? ==> r == Err(BadIndex) && table.Live() == old(table.Live()) && scope.lenders == old(scope.lenders)
      ensures r.Err? <==> forall h :: h in old(table.Live()) && h.index == idx ==> h.generation >= 1000
      ensures BorrowCount(table.Live()) == old(BorrowCount(table.Live()))
    {
      hide TableOk, LiveMap, LendsMatch, BorrowCount;
      var f := FindHandle(idx);
      if f.None? {
        return Err(BadIndex);
      }
      var (h, e) := f.value;
      OnlyAtIndex(table.entries, h);
      var a := scope.AddLender(h);
      if a != None {
        return Err(TableError(InvalidHandle));
      }
      BorrowCountSame(old(table.Live()), table.Live());
      r := Ok(e.rep);
    }

    // ----- guest activity -----

    method RunGuest(g: Guest)
      requires Sound() && callContext != null && 0 < activeCallDepth
      modifies this, table, callContext
      ensures Framed() && WorldOf() == GuestSem(g, destructors, old(WorldOf()))
      decreases g, 0
    {
      hide TableOk, LiveMap, LendsMatch, StoreOk;
      for i := 0 to |g.steps|
        invariant Framed() && WorldOf() == StepsSem(g.steps[..i], destructors, old(WorldOf()))
      {
        StepsNext(g.steps, i, destructors, old(WorldOf()));
        RunStep(g.steps[i]);
      }
      assert g.steps[..|g.steps|] == g.steps;
    }

    /** A handle that would need slot 2^31 is not created. */
    method RunStep(s: GuestStep)
      requires Sound() && callContext != null && 0 < activeCallDepth
      modifies this, table, callContext
      ensures Framed() && WorldOf() == StepSem(s, destructors, old(WorldOf()))
      decreases s, 0
    {
      hide TableOk, LiveMap, LendsMatch, StoreOk, BorrowCount, CallSem, Ended, DropSem, Total, Honest, LendsSame, Fair, CallExit;
      match s
      case NewResource(rep) =>
        if HasSlot() {
          var _, _ := ResourceNew(rep);
        }
      case DropResource(idx, rt) =>
        var _ := ResourceDrop(idx, rt);
      case NestedCall(plan) =>
        var _, _, _, _ := Call(plan);
    }

    /** A handle that would need slot 2^31 is not lowered. */
    method LowerParam(p: Param, ctx: CallContext) returns (ok: bool)
      requires Sound() && callContext == ctx && 0 < activeCallDepth
      modifies this, table, ctx
      ensures Framed() && (WorldOf(), ok) == ParamSem(p, destructors, old(WorldOf()))
      decreases p, 0
    {
      hide TableOk, LiveMap, LendsMatch, StoreOk, BorrowCount;
      ok := p.PlainParam? || HasSlot();
      if !ok {
        return;
      }
      match p
      case OwnParam(rep) =>
        var _, _ := LowerOwn(rep);
      case BorrowParam(rep) =>
        var _, _ := LowerBorrow(rep, ctx);
      case PlainParam(alloc) =>
        RunGuest(alloc);
        ok := alloc.ok;
    }

    method LowerParams(ps: seq<Param>, ctx: CallContext) returns (ok: bool)
      requires Sound() && callContext == ctx && 0 < activeCallDepth
      modifies this, table, ctx
      ensures Framed() && (WorldOf(), ok) == ParamsSem(ps, destructors, old(WorldOf()))
      decreases ps, 0
    {
      hide TableOk, LiveMap, LendsMatch, StoreOk;
      for i := 0 to |ps|
        invariant Framed() && (WorldOf(), true) == ParamsSem(ps[..i], destructors, old(WorldOf()))
      {
        ParamsNext(ps, i, destructors, old(WorldOf()));
        var fine := LowerParam(ps[i], ctx);
        if !fine {
          return false;
        }
      }
      assert ps[..|ps|] == ps;
      ok := true;
    }

    // ----- the call bracket -----

    /** Resolve, start finishing, finish: the tail of every successful exit and of the deferred cleanup. */
    method Complete(task: Subtask, vals: seq<Val>) returns (ok: bool)
      requires task.scope.table == table && task.scope in table.scopes && task.state == Pending
      requires table.Valid() && table.Balanced()
      modifies task, task.scope, table
      ensures ok && task.state == Done && task.result == vals && task.scope.lenders == []
      ensures table.Valid() && table.Balanced() && table.Shape() == old(table.Shape())
      ensures Returned(old(table.Live()), table.Live(), multiset(old(task.scope.lenders)))
    {
      hide TableOk, LiveMap, LendsMatch, Returned;
      var _ := task.DeliverResolve(vals);
      var _ := task.StartFinish();
      ok := task.Finish();
    }

    method LiftResult(result: ResultPlan, scope: BorrowScope) returns (r: Result<seq<Val>, CallError>)
      requires Sound() && scope.table == table && scope in table.scopes && scope.lenders == []
      modifies table, scope
      ensures table.Valid() && table.Balanced() && table.scopes == old(table.scopes)
      ensures r == LiftAnswer(result, old(table.Live()))
      ensures LentOver(AfterLift(result, old(StoreOf())).live, table.Live(), scope.lenders)
      ensures table.hist == AfterLift(result, old(StoreOf())).hist
    {
      hide TableOk, LiveMap, LendsMatch, BorrowCount, StoreOk, Reached, CanReach;
      match result {
        case OwnResult(idx) =>
          FindsReached(idx);
          var rep := LiftOwn(idx);
          r := if rep.Err? then Err(rep.error) else Ok([Own(if rep.value.U32Rep? then rep.value.u else 0)]);
        case BorrowResult(idx) =>
          FindsReached(idx);
          var lendable := Lendable(idx);
          if !lendable {
            return Err(Exhausted);
          }
          var rep := LiftBorrow(idx, scope);
          r := if rep.Err? then Err(rep.error) else Ok([Borrow(if rep.value.U32Rep? then rep.value.u else 0)]);
        case OtherResult(liftable, vals) => r := if liftable then Ok(vals) else Err(LiftFailed);
      }
    }

    lemma FindsReached(idx: uint32)
      requires table.Valid()
      ensures CanReach(table.Live(), idx) ==>
        var h := Reached(table.Live(), idx);
        h in table.Live() && h.index == idx && h.generation < 1000
        && forall h' :: h' in table.Live() && h'.index == idx ==> h' == h
      ensures !CanReach(table.Live(), idx) ==> forall h :: h in table.Live() && h.index == idx ==> h.generation >= 1000
    {
      hide LiveMap, TableOk;
      if CanReach(table.Live(), idx) {
        OnlyAtIndex(table.entries, Reached(table.Live(), idx));
      } else {
        forall h | h in table.Live() && h.index == idx ensures h.generation >= 1000 {
          assert !Reaches(table.Live(), idx, h);
        }
      }
    }

    /** Lifts the result, validates the borrows and finishes the subtask. */
    method Conclude(result: ResultPlan, task: Subtask, ctx: CallContext) returns (r: Result<seq<Val>, CallError>)
      requires Sound() && callContext == ctx
      requires task.scope.table == table && task.scope in table.scopes && task.state == Pending && task.scope.lenders == []
      modifies table, task, task.scope
      ensures table.Valid() && table.Balanced() && table.scopes == old(table.scopes)
      ensures r == ConcludeAnswer(result, old(WorldOf())) && ExitOk(r, task)
      ensures LentOver(AfterLift(result, old(StoreOf())).live, table.Live(), task.scope.lenders)
      ensures table.hist == AfterLift(result, old(StoreOf())).hist
    {
      hide TableOk, LiveMap, LendsMatch, BorrowCount, Returned, StoreOk, LiftAnswer, AfterLift, LentOver;
      ghost var base := AfterLift(result, StoreOf()).live;
      r := LiftResult(result, task.scope);
      if r.Err? {
        return;
      }
      if !ctx.ValidateReturn() {
        return Err(OutstandingBorrows);
      }
      ghost var lent := table.Live();
      ghost var lenders := task.scope.lenders;
      var ok := Complete(task, r.value);
      ReturnedOver(base, lent, table.Live(), lenders);
      NoneLent(base);
      if !ok {
        return Err(FinishFailed);
      }
    }

    /** How the body of a call can end. */
    static ghost predicate ExitOk(r: Result<seq<Val>, CallError>, task: Subtask)
      reads task, task.scope
    {
      && (r.Ok? ==> task.state == Done && task.scope.lenders == [] && task.result == r.value)
      && (r.Err? ==> task.state == Pending)
    }

    method RunOptional(g: Option<Guest>) returns (ok: bool)
      requires Sound() && callContext != null && 0 < activeCallDepth
      modifies this, table, callContext
      ensures Framed() && (WorldOf(), ok) == OptionalSem(g, destructors, old(WorldOf()))
      decreases g, 0
    {
      hide TableOk, LiveMap, LendsMatch, StoreOk, GuestSem;
      ok := true;
      if g.Some? {
        RunGuest(g.value);
        ok := g.value.ok;
      }
    }

    /** Lowers the parameters with may_leave off, then allocates the return area when one is passed. */
    method Prepare(plan: CallPlan, ctx: CallContext) returns (ok: bool)
      requires Sound() && callContext == ctx && 0 < activeCallDepth
      modifies this, table, ctx
      ensures Framed() && !mayLeaveDisabled && (WorldOf(), ok) == PrepareSem(plan, destructors, old(WorldOf()))
      decreases plan, 0
    {
      hide TableOk, LiveMap, LendsMatch, StoreOk, ParamsSem, OptionalSem;
      mayLeaveDisabled := true;
      ok := LowerParams(plan.params, ctx);
      mayLeaveDisabled := false;
      if !ok {
        return;
      }
      ok := RunOptional(plan.retptr);
    }

    /** Runs the core function, then post-return with may_leave off. */
    method Execute(plan: CallPlan) returns (err: Option<CallError>)
      requires Sound() && callContext != null && !mayLeaveDisabled && 0 < activeCallDepth
      modifies this, table, callContext
      ensures Framed() && (WorldOf(), err) == ExecuteSem(plan, destructors, old(WorldOf()))
      decreases plan, 0
    {
      hide TableOk, LiveMap, LendsMatch, StoreOk, GuestSem, OptionalSem;
      RunGuest(plan.body);
      if !plan.body.ok {
        return Some(CoreFailed);
      }
      mayLeaveDisabled := plan.postReturn.Some?;
      var ok := RunOptional(plan.postReturn);
      mayLeaveDisabled := false;
      err := if ok then None else Some(PostReturnFailed);
    }

    method Invoke(plan: CallPlan, ctx: CallContext) returns (err: Option<CallError>)
      requires Sound() && callContext == ctx && 0 < activeCallDepth
      modifies this, table, ctx
      ensures Framed() && !mayLeaveDisabled && (WorldOf(), err) == InvokeSem(plan, destructors, old(WorldOf()))
      decreases plan, 1
    {
      hide TableOk, LiveMap, LendsMatch, StoreOk, PrepareSem, ExecuteSem;
      var ok := Prepare(plan, ctx);
      if !ok {
        return Some(LowerFailed);
      }
      err := Execute(plan);
    }

    /** The table is that of w, but for a lend of the task. */
    ghost predicate AtWorld(w: World, task: Subtask)
      requires table.Valid()
      reads this, table, callContext, task, task.scope
    {
      && LentOver(w.store.live, table.Live(), task.scope.lenders) && table.hist == w.store.hist
      && destroyed == w.destroyed && finished == w.ended && callContext != null && callContext.numBorrows == w.borrows
    }

    /** The reentrance check, then the call between EnterCall and the deferred ExitCall. */
    method Enter(plan: CallPlan, task: Subtask, ctx: CallContext) returns (r: Result<seq<Val>, CallError>)
      requires Sound() && callContext == ctx
      requires task.scope.table == table && task.scope in table.scopes && task.state == Pending && task.scope.lenders == []
      modifies this, table, ctx, task, task.scope
      ensures table.Valid() && table.Balanced() && old(table.scopes) <= table.scopes
      ensures callContext == ctx && activeCallDepth == old(activeCallDepth) && destructors == old(destructors)
      ensures var (w, out) := CallSem(plan, old(activeCallDepth) > 0, destructors, old(WorldOf()));
        r == out && AtWorld(w, task)
      ensures ExitOk(r, task)
      ensures if plan.callerIsSelf && old(activeCallDepth) > 0 then mayLeaveDisabled == old(mayLeaveDisabled) else !mayLeaveDisabled
      decreases plan, 3
    {
      hide TableOk, LiveMap, LendsMatch, StoreOk, InvokeSem, AfterLift, ConcludeAnswer;
      if plan.callerIsSelf && activeCallDepth > 0 {
        return Err(Recursive);
      }
      activeCallDepth := activeCallDepth + 1;
      var err := Invoke(plan, ctx);
      if err.Some? {
        r := Err(err.value);
      } else {
        r := Conclude(plan.result, task, ctx);
      }
      if activeCallDepth > 0 {
        activeCallDepth := activeCallDepth - 1;
      }
    }

    /** The deferred cleanup: a subtask still pending is resolved with nothing and finished. */
    method Cleanup(task: Subtask, ghost base: map<Handle, HandleEntry>)
      requires task.scope.table == table && task.scope in table.scopes
      requires task.state == Pending || (task.state == Done && task.scope.lenders == [])
      requires table.Valid() && table.Balanced() && LentOver(base, table.Live(), task.scope.lenders)
      modifies table, task, task.scope
      ensures task.state == Done && task.scope.lenders == []
      ensures task.result == if old(task.state) == Done then old(task.result) else []
      ensures table.Valid() && table.Balanced() && table.Shape() == old(table.Shape())
      ensures table.Live() == base
    {
      hide TableOk, LiveMap, LendsMatch, Returned;
      ghost var live, lenders := table.Live(), task.scope.lenders;
      if task.state == Pending {
        var _ := Complete(task, []);
        ReturnedOver(base, live, table.Live(), lenders);
      }
    }

    /** The call with its fresh context installed, up to and including the deferred cleanups. */
    method Bracket(plan: CallPlan, task: Subtask, ctx: CallContext) returns (r: Result<seq<Val>, CallError>)
      requires Sound()
      requires task.scope.table == table && task.scope in table.scopes && task.state == Pending && task.scope.lenders == []
      requires ctx != callContext && ctx.numBorrows == 0
      modifies this, table, ctx, task, task.scope
      ensures table.Valid() && table.Balanced() && old(table.scopes) <= table.scopes
      ensures callContext == old(callContext) && activeCallDepth == old(activeCallDepth) && destructors == old(destructors)
      ensures task.state == Done && task.scope.lenders == [] && (r.Ok? ==> task.result == r.value)
      ensures if plan.callerIsSelf && old(activeCallDepth) > 0 then mayLeaveDisabled == old(mayLeaveDisabled) else !mayLeaveDisabled
      ensures var (w, out) := CallSem(plan, old(activeCallDepth) > 0, destructors, old(WorldOf()).(borrows := 0));
        && r == out && ctx.numBorrows == w.borrows
        && WorldOf() == w.(borrows := old(WorldOf()).borrows)
      decreases plan, 4
    {
      hide TableOk, LiveMap, LendsMatch, StoreOk, CallSem, LentOver;
      var previous := callContext;
      callContext := ctx;
      ghost var start := WorldOf();
      assert start == old(WorldOf()).(borrows := 0);
      r := Enter(plan, task, ctx);
      callContext := previous;
      ghost var w := CallSem(plan, old(activeCallDepth) > 0, destructors, start).0;
      Cleanup(task, w.store.live);
      assert StoreOf() == w.store;
    }

    /** What every exit of a call guarantees about its subtask, its context and may_leave. */
    twostate predicate CallExit(plan: CallPlan, new r: Result<seq<Val>, CallError>, new task: Subtask, new ctx: CallContext)
      reads this, table, task, task.scope, ctx
    {
      && task.state == Done && task.scope.lenders == [] && task.scope.table == table
      && (r == Err(Recursive) ==> mayLeaveDisabled == old(mayLeaveDisabled))
      && (r != Err(Recursive) ==> !mayLeaveDisabled)
      && (mayLeaveDisabled == old(mayLeaveDisabled) <==> r == Err(Recursive) || !old(mayLeaveDisabled))
      && (r.Ok? ==> task.result == r.value && ctx.ValidateReturn())
    }

    /** Sets up the subtask and the context, then runs the bracket. */
    method SetUp(plan: CallPlan) returns (r: Result<seq<Val>, CallError>, ghost ctx: CallContext, ghost task: Subtask)
      requires Sound()
      modifies this, table
      ensures Framed() && fresh(ctx) && fresh(task) && CallExit(plan, r, task, ctx)
      ensures var (w, out) := CallSem(plan, old(activeCallDepth) > 0, destructors, old(WorldOf()).(borrows := 0));
        && r == out && ctx.numBorrows == w.borrows
        && WorldOf() == w.(borrows := old(WorldOf()).borrows)
      decreases plan, 5
    {
      hide TableOk, LiveMap, LendsMatch, StoreOk, CallSem, Fair;
      var context := new CallContext();
      var subtask := new Subtask(table);
      ghost var scopes := table.scopes;
      assert old(table.scopes) <= scopes;
      assert WorldOf() == old(WorldOf());
      r := Bracket(plan, subtask, context);
      PrefixTrans(old(table.scopes), scopes, table.scopes);
      ctx, task := context, subtask;
      CallFair(plan, old(activeCallDepth) > 0, destructors, old(WorldOf()).(borrows := 0));
      OnlyRecursive(plan, old(activeCallDepth) > 0, destructors, old(WorldOf()).(borrows := 0));
    }

    /**
      ExportedFunc.Call with its deferred cleanups: it does and answers what the specification says. `nested`
      lists the calls that ended while it ran, at every depth: the context counts the change in borrowed
      entries exactly when theirs add up to nothing.
     */
    method Call(plan: CallPlan)
      returns (r: Result<seq<Val>, CallError>, ghost ctx: CallContext, ghost task: Subtask, ghost nested: seq<CallRecord>)
      requires Sound()
      modifies this, table
      ensures Framed() && fresh(ctx) && fresh(task) && CallExit(plan, r, task, ctx)
      ensures var call := CallSem(plan, old(activeCallDepth) > 0, destructors, old(WorldOf()).(borrows := 0));
        r == call.1 && ctx.numBorrows == call.0.borrows && WorldOf() == Ended(old(WorldOf()), call)
      ensures LendsSame(old(table.Live()), table.Live())
      ensures finished == old(finished) + nested + [CallRecord(ctx.numBorrows, r.Ok?)]
      ensures NoNestedCalls(plan) ==> nested == []
      ensures BorrowCount(table.Live()) == old(BorrowCount(table.Live())) + ctx.numBorrows + Total(nested)
      ensures ctx.numBorrows == BorrowCount(table.Live()) - old(BorrowCount(table.Live())) <==> Total(nested) == 0
      ensures old(Honest(finished)) && r.Ok? && (forall i :: 0 <= i < |nested| ==> nested[i].returned) ==>
        BorrowCount(table.Live()) <= old(BorrowCount(table.Live()))
      decreases plan, 6
    {
      hide TableOk, LiveMap, LendsMatch, StoreOk, CallSem, BorrowCount, LendsSame, NoNestedCalls, Total, Honest;
      ghost var start := WorldOf().(borrows := 0);
      CallFair(plan, activeCallDepth > 0, destructors, start);
      if NoNestedCalls(plan) {
        NoNestedEndsNothing(plan, activeCallDepth > 0, destructors, start);
      }
      r, ctx, task := SetUp(plan);
      nested := finished[|old(finished)|..];
      TotalOfCall(old(finished), finished, CallRecord(ctx.numBorrows, r.Ok?));
      finished := finished + [CallRecord(ctx.numBorrows, r.Ok?)];
    }
  }

  lemma NoneLent(base: map<Handle, HandleEntry>)
    ensures LentOver(base, base, [])
  {
  }

  lemma StepsNext(steps: seq<GuestStep>, i: nat, dtors: set<uint32>, w: World)
    requires StoreOk(w.store) && i < |steps|
    ensures StepsSem(steps[..i + 1], dtors, w) == StepSem(steps[i], dtors, StepsSem(steps[..i], dtors, w))
  {
    hide StoreOk;
    assert steps[..i + 1][..i] == steps[..i];
  }

  lemma ParamsNext(ps: seq<Param>, i: nat, dtors: set<uint32>, w: World)
    requires StoreOk(w.store) && i < |ps|
    ensures var before := ParamsSem(ps[..i], dtors, w);
      && ParamsSem(ps[..i + 1], dtors, w) == (if before.1 then ParamSem(ps[i], dtors, before.0) else before)
      && (!ParamsSem(ps[..i + 1], dtors, w).1 ==> ParamsSem(ps, dtors, w) == ParamsSem(ps[..i + 1], dtors, w))
  {
    hide StoreOk;
    assert ps[..i + 1][..i] == ps[..i];
    if !ParamsSem(ps[..i + 1], dtors, w).1 {
      StaysFailed(ps, i + 1, dtors, w);
    }
  }

  lemma {:induction false} StaysFailed(ps: seq<Param>, i: nat, dtors: set<uint32>, w: World)
    requires StoreOk(w.store) && i <= |ps| && !ParamsSem(ps[..i], dtors, w).1
    ensures ParamsSem(ps, dtors, w) == ParamsSem(ps[..i], dtors, w)
    decreases |ps|
  {
    hide StoreOk;
    if i == |ps| {
      assert ps[..i] == ps;
    } else {
      var shorter := ps[..|ps| - 1];
      assert shorter[..i] == ps[..i];
      StaysFailed(shorter, i, dtors, w);
    }
  }

  /** Only the reentrance check gives that answer, and only a call that is let in turns may_leave on. */
  lemma OnlyRecursive(plan: CallPlan, active: bool, dtors: set<uint32>, w: World)
    requires StoreOk(w.store)
    ensures CallSem(plan, active, dtors, w).1 == Err(Recursive) <==> plan.callerIsSelf && active
  {
    hide StoreOk;
    CallAnswers(plan, active, dtors, w);
  }

  // ----- where borrow accounting does not hold -----

  /**
    A borrow is handed to the guest as a bare slot index, but resource.drop only reads an index as
    generation 0: the guest can drop it exactly when its slot is new or its generation has just come round to 0.
   */
  method LowerBorrowThenDrop(inst: Instance, rep: uint32, ctx: CallContext) returns (dropped: bool)
    requires inst.CanAdd() && inst.callContext == ctx
    modifies inst, inst.table, ctx
    ensures dropped <==> old(inst.table.freeHead) < 0
                         || old(inst.table.entries)[old(inst.table.freeHead)].generation == TWO_32 - 1
    ensures ctx.numBorrows == old(ctx.numBorrows) + if dropped then 0 else 1
  {
    hide TableOk, LiveMap, LendsMatch, BorrowCount, StoreOk, ParamSem, DropSem;
    var idx, h := inst.LowerBorrow(rep, ctx);
    OtherGenerationIsDead(inst.table.entries, h, Handle(0, idx));
    assert Handle(0, idx) in inst.table.Live() <==> h.generation == 0;
    assert h in inst.table.Live() && inst.table.Live()[h] == HandleEntry(0, U32Rep(rep), false, 0);
    var r := inst.ResourceDrop(idx, 0);
    dropped := r == None;
  }

  /** In a table of one slot with nothing live, the slot is free and the next handle is its next generation. */
  lemma NextOfOne(entries: seq<TableEntry>, freeHead: int, hist: History)
    requires TableOk(entries, freeHead, hist) && |entries| == 1 && LiveMap(entries) == map[]
    ensures freeHead == 0 && |hist.uses| == 1 && NextHandle(entries, freeHead) == Handle(hist.uses[0] % TWO_32, 0)
  {
    assert !LiveIn(entries, Handle(entries[0].generation, 0));
    assert 0 in hist.freeList;
  }

  /** A table of at most one slot, used `times` times and empty. */
  ghost predicate Spent(table: ResourceTable, times: nat)
    reads table, table.scopes
  {
    && table.Valid() && table.Balanced() && table.Live() == map[]
    && if times == 0 then table.entries == [] && table.freeHead == -1 && table.hist.uses == []
       else |table.entries| == 1 && table.hist.uses == [times]
  }

  lemma NextOfSpent(table: ResourceTable, times: nat)
    requires Spent(table, times)
    ensures table.freeHead < |table.entries| && NextHandle(table.entries, table.freeHead) == Handle(times % TWO_32, 0)
    ensures Bump(table.hist.uses, 0) == [times + 1]
    ensures if times == 0 then table.entries == [] && table.freeHead < 0 else |table.entries| == 1 && table.freeHead >= 0
  {
    hide TableOk, LendsMatch, LiveMap;
    if times > 0 {
      NextOfOne(table.entries, table.freeHead, table.hist);
    }
  }

  /** Creates and removes a handle. */
  method UseOnce(table: ResourceTable, ghost times: nat)
    requires Spent(table, times)
    modifies table
    ensures Spent(table, times + 1) && table.scopes == old(table.scopes)
  {
    hide TableOk, LendsMatch, LiveMap;
    NextOfSpent(table, times);
    var used := table.New(U32Rep(7), true);
    var r := table.Remove(used);
    assert table.Live() == map[];
  }

  /**
    A handle created and removed any number of times over: the slot's next handle is live and owned, and
    a lift fails to find it exactly when its generation is 1000 or more.
   */
  method OutOfReach(times: nat) returns (inst: Instance, r: Result<Rep, CallError>, ghost h: Handle, ghost live: map<Handle, HandleEntry>)
    ensures h == Handle(times % TWO_32, 0) && live == map[h := HandleEntry(0, U32Rep(7), true, 0)]
    ensures r == Err(BadIndex) <==> times % TWO_32 >= 1000
    ensures |inst.table.entries| <= TWO_31 && (r == Err(BadIndex) ==> inst.table.Live() == live)
  {
    hide TableOk, LendsMatch, LiveMap, NextHandle, Bump;
    inst := new Instance();
    var table := inst.table;
    FreeHead(table.entries, table.freeHead, table.hist);
    for i := 0 to times
      invariant fresh(inst) && fresh(table) && inst.table == table && Spent(table, i)
    {
      hide Spent;
      UseOnce(table, i);
    }
    NextOfSpent(table, times);
    h := table.New(U32Rep(7), true);
    live := table.Live();
    r := inst.LiftOwn(0);
  }

  /** A call that drops handle 0 in its body. */
  const DROPPING_CALL := CallPlan(false, [], None, Guest([DropResource(0, 0)], true), None, OtherResult(true, []))

  /** A call that is lent one handle and makes that call. */
  const LENT_CALL := CallPlan(false, [BorrowParam(7)], None, Guest([NestedCall(DROPPING_CALL)], true), None, OtherResult(true, []))

  /**
    The borrow is dropped by the nested call and charged to its context: no borrowed entry remains, yet
    the outer context still counts one and the call does not return its result.
   */
  method NestedDropMiscounts() returns (inst: Instance, r: Result<seq<Val>, CallError>, ghost ctx: CallContext)
    ensures |inst.table.entries| <= TWO_31 && inst.table.Live() == map[] && BorrowCount(inst.table.Live()) == 0
    ensures r == Err(OutstandingBorrows) && ctx.numBorrows == 1
  {
    hide TableOk, LendsMatch, LiveMap, BorrowCount, Total, Honest, CallSem, StoreOk, LendsSame, NoNestedCalls;
    inst := new Instance();
    LentCallIs(inst.destructors);
    assert inst.WorldOf() == World(Store(map[], History([], [], {})), [], 0, []);
    ghost var task, nested;
    r, ctx, task, nested := inst.Call(LENT_CALL);
    NoBorrows();
  }

  lemma LentCallIs(dtors: set<uint32>)
    ensures var w := World(Store(map[], History([], [], {})), [], 0, []);
      && StoreOk(w.store)
      && CallSem(LENT_CALL, false, dtors, w).1 == Err(OutstandingBorrows)
      && CallSem(LENT_CALL, false, dtors, w).0.borrows == 1
      && CallSem(LENT_CALL, false, dtors, w).0.store.live == map[]
  {
    var w := World(Store(map[], History([], [], {})), [], 0, []);
    var h, e := Handle(0, 0), HandleEntry(0, U32Rep(7), false, 0);
    var lent := w.(store := Added(w.store, e), borrows := 1);
    assert lent.store.live == map[h := e];
    assert LENT_CALL.params[..0] == [] && LENT_CALL.body.steps[..0] == [] && DROPPING_CALL.body.steps[..0] == [];
    assert ParamsSem(LENT_CALL.params, dtors, w) == (lent, true) by {
      assert ParamsSem([], dtors, w) == (w, true);
      assert ParamSem(BorrowParam(7), dtors, w) == (lent, true);
    }
    assert PrepareSem(LENT_CALL, dtors, w) == (lent, true) by {
      assert OptionalSem(None, dtors, lent) == (lent, true);
    }
    var inner := lent.(borrows := 0);
    var dropped := DropSem(0, 0, dtors, inner);
    assert dropped.store.live == map[] && dropped.borrows == -1;
    assert CallSem(DROPPING_CALL, true, dtors, inner).0 == dropped by {
      DroppingCallIs(dtors, inner);
    }
    var body := StepSem(NestedCall(DROPPING_CALL), dtors, lent);
    assert body.borrows == 1 && body.store.live == map[];
    assert GuestSem(LENT_CALL.body, dtors, lent) == body by {
      assert StepsSem([], dtors, lent) == lent;
      assert StepsSem(LENT_CALL.body.steps, dtors, lent) == body;
    }
    assert ExecuteSem(LENT_CALL, dtors, lent) == (body, None) by {
      assert OptionalSem(None, dtors, body) == (body, true);
    }
    assert InvokeSem(LENT_CALL, dtors, w) == (body, None);
  }

  lemma DroppingCallIs(dtors: set<uint32>, w: World)
    requires StoreOk(w.store)
    ensures CallSem(DROPPING_CALL, true, dtors, w).0 == DropSem(0, 0, dtors, w)
  {
    hide StoreOk, DropSem;
    var after := DropSem(0, 0, dtors, w);
    assert DROPPING_CALL.body.steps[..0] == [];
    assert PrepareSem(DROPPING_CALL, dtors, w) == (w, true) by {
      assert ParamsSem([], dtors, w) == (w, true) && OptionalSem(None, dtors, w) == (w, true);
    }
    assert GuestSem(DROPPING_CALL.body, dtors, w) == after by {
      assert StepsSem([], dtors, w) == w;
      assert StepSem(DropResource(0, 0), dtors, w) == after;
      assert StepsSem(DROPPING_CALL.body.steps, dtors, w) == after;
    }
    assert ExecuteSem(DROPPING_CALL, dtors, w) == (after, None) by {
      assert OptionalSem(None, dtors, after) == (after, true);
    }
    assert InvokeSem(DROPPING_CALL, dtors, w) == (after, None);
  }
}
