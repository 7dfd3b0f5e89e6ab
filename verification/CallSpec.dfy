// What a call of an exported function does, as a function of what runs in it and of the handles it finds.

module CallSpecs {
  import opened Words
  import opened Wrappers
  import opened Values
  import opened ResourceTables

  // ----- what a call runs -----

  /** Guest code seen from the host: the built-ins it invokes in order, and whether it returned without a trap. */
  datatype Guest = Guest(steps: seq<GuestStep>, ok: bool)

  datatype GuestStep =
    | NewResource(rep: Rep)
    | DropResource(idx: uint32, rt: uint32)
    | NestedCall(plan: CallPlan)

  /** How one parameter lowers; PlainParam may run the guest's realloc and fails when that traps. */
  datatype Param = OwnParam(rep: uint32) | BorrowParam(rep: uint32) | PlainParam(alloc: Guest)

  datatype ResultPlan = OwnResult(idx: uint32) | BorrowResult(idx: uint32) | OtherResult(liftable: bool, vals: seq<Val>)

  /** Everything outside the runtime's control in one ExportedFunc.Call. */
  datatype CallPlan = CallPlan(
    callerIsSelf: bool,
    params: seq<Param>,
    retptr: Option<Guest>,
    body: Guest,
    postReturn: Option<Guest>,
    result: ResultPlan)

  /** Exhausted is a lend the 32-bit counter of its handle has no number for. */
  datatype CallError = TableError(error: Error) | NotOwned | BadIndex | Recursive | LowerFailed | CoreFailed
                     | PostReturnFailed | LiftFailed | OutstandingBorrows | FinishFailed | Exhausted

  // ----- borrowed entries -----

  /** Number of live entries that do not own their resource. */
  ghost function BorrowCount(live: map<Handle, HandleEntry>): nat {
    |Borrowed(live)|
  }

  ghost function Borrowed(live: map<Handle, HandleEntry>): set<Handle> {
    set h | h in live && !live[h].own
  }

  lemma BorrowCountInsert(live: map<Handle, HandleEntry>, h: Handle, e: HandleEntry)
    requires h !in live
    ensures BorrowCount(live[h := e]) == BorrowCount(live) + if e.own then 0 else 1
  {
    assert Borrowed(live[h := e]) == Borrowed(live) + if e.own then {} else {h};
  }

  lemma BorrowCountRemove(live: map<Handle, HandleEntry>, h: Handle)
    requires h in live
    ensures BorrowCount(live - {h}) == BorrowCount(live) - if live[h].own then 0 else 1
  {
    assert Borrowed(live) == Borrowed(live - {h}) + if live[h].own then {} else {h};
  }

  lemma BorrowCountSame(live: map<Handle, HandleEntry>, live': map<Handle, HandleEntry>)
    requires live.Keys == live'.Keys && forall h :: h in live ==> live[h].own == live'[h].own
    ensures BorrowCount(live) == BorrowCount(live')
  {
    assert Borrowed(live) == Borrowed(live');
  }

  lemma NoBorrows()
    ensures BorrowCount(map[]) == 0
  {
    assert Borrowed(map[]) == {};
  }

  // ----- ended calls -----

  /** How a call ended: what its context counted, and whether it returned a result. */
  datatype CallRecord = CallRecord(borrows: int, returned: bool)

  ghost function Total(records: seq<CallRecord>): int {
    if records == [] then 0 else Total(records[..|records| - 1]) + records[|records| - 1].borrows
  }

  /** A call returned a result only if its context counted no outstanding borrow. */
  ghost predicate Honest(records: seq<CallRecord>) {
    forall i :: 0 <= i < |records| && records[i].returned ==> records[i].borrows <= 0
  }

  lemma {:induction false} TotalAppend(a: seq<CallRecord>, b: seq<CallRecord>)
    ensures Total(a + b) == Total(a) + Total(b)
    decreases |b|
  {
    if b == [] {
      assert a + b == a;
    } else {
      TotalAppend(a, b[..|b| - 1]);
      assert (a + b)[..|a + b| - 1] == a + b[..|b| - 1];
    }
  }

  /** Calls that all returned results left nothing outstanding between them. */
  lemma {:induction false} ReturnedNotPositive(records: seq<CallRecord>)
    requires Honest(records) && forall i :: 0 <= i < |records| ==> records[i].returned
    ensures Total(records) <= 0
  {
    if records != [] {
      ReturnedNotPositive(records[..|records| - 1]);
    }
  }

  /** The records a call adds: those of the calls nested in it, then its own. */
  lemma TotalOfCall(before: seq<CallRecord>, after: seq<CallRecord>, own: CallRecord)
    requires before <= after
    ensures var nested := after[|before|..];
      && before + nested == after
      && Total(after) == Total(before) + Total(nested)
      && Total(after + [own]) == Total(after) + own.borrows
      && (Honest(after) && (own.returned ==> own.borrows <= 0) ==> Honest(after + [own]))
      && (Honest(after) && (forall i :: 0 <= i < |nested| ==> nested[i].returned) ==> Total(nested) <= 0)
  {
    var nested := after[|before|..];
    assert before + nested == after;
    TotalAppend(before, nested);
    assert (after + [own])[..|after|] == after;
    if Honest(after) && forall i :: 0 <= i < |nested| ==> nested[i].returned {
      ReturnedNotPositive(nested);
    }
  }

  // ----- the handles a call finds -----

  /** The live handles, and the history that says which handle comes next. */
  datatype Store = Store(live: map<Handle, HandleEntry>, hist: History)

  ghost predicate StoreOk(st: Store) {
    && |st.hist.uses| <= TWO_31 && Distinct(st.hist.freeList)
    && (forall i :: i in st.hist.freeList ==> i < |st.hist.uses|)
    && (forall h :: h in st.live ==> h.index < |st.hist.uses| && h.index !in st.hist.freeList)
    && (forall h, h' :: h in st.live && h' in st.live && h.index == h'.index ==> h == h')
  }

  ghost predicate HasRoom(st: Store) {
    st.hist.freeList != [] || |st.hist.uses| < TWO_31
  }

  ghost function Added(st: Store, e: HandleEntry): (st': Store)
    requires StoreOk(st) && HasRoom(st)
    ensures StoreOk(st') && HistOk(st.hist) && NextOf(st.hist) !in st.live && st'.live == st.live[NextOf(st.hist) := e]
  {
    NextIsFree(st, e);
    var h := NextOf(st.hist);
    Store(st.live[h := e], Allocated(st.hist))
  }

  lemma NextIsFree(st: Store, e: HandleEntry)
    requires StoreOk(st) && HasRoom(st)
    ensures HistOk(st.hist) && NextOf(st.hist) !in st.live
    ensures StoreOk(Store(st.live[NextOf(st.hist) := e], Allocated(st.hist)))
  {
    var free := st.hist.freeList;
    if free != [] {
      assert free[0] in free && free == [free[0]] + free[1..];
      assert free[0] !in free[1..];
    }
    var h, hist := NextOf(st.hist), Allocated(st.hist);
    assert Distinct(hist.freeList) && h.index !in hist.freeList;
    assert forall i :: i in hist.freeList ==> i in free;
    assert h.index < |hist.uses| && |st.hist.uses| <= |hist.uses| <= TWO_31;
    assert forall h' :: h' in st.live ==> h'.index != h.index;
  }

  ghost function Removed(st: Store, h: Handle): (st': Store)
    requires StoreOk(st) && h in st.live
    ensures StoreOk(st') && st'.live == st.live - {h}
  {
    Store(st.live - {h}, Freed(st.hist, h))
  }

  /** The live handle that lifting an index finds. */
  ghost predicate Reaches(live: map<Handle, HandleEntry>, idx: uint32, h: Handle) {
    h in live && h.index == idx && h.generation < 1000
  }

  ghost predicate CanReach(live: map<Handle, HandleEntry>, idx: uint32) {
    exists h :: Reaches(live, idx, h)
  }

  ghost function Reached(live: map<Handle, HandleEntry>, idx: uint32): (h: Handle)
    requires CanReach(live, idx)
    ensures Reaches(live, idx, h)
  {
    var h :| Reaches(live, idx, h);
    h
  }

  // ----- the steps of a call -----

  /** What a call works on: handles, destructor calls made, borrows its context counts, calls that have ended. */
  datatype World = World(store: Store, destroyed: seq<(uint32, Rep)>, borrows: int, ended: seq<CallRecord>)

  /** A handle is created if there is a slot for it. */
  ghost function NewSem(rep: Rep, w: World): (w': World)
    requires StoreOk(w.store)
    ensures StoreOk(w'.store)
  {
    if HasRoom(w.store) then w.(store := Added(w.store, HandleEntry(0, rep, true, 0))) else w
  }

  /** resource.drop: the handle of generation 0 at the index, if it is live and not lent. */
  ghost function DropSem(idx: uint32, rt: uint32, dtors: set<uint32>, w: World): (w': World)
    requires StoreOk(w.store)
    ensures StoreOk(w'.store)
  {
    var h := Handle(0, idx);
    if h !in w.store.live || w.store.live[h].numLends > 0 then w
    else
      var e := w.store.live[h];
      w.(store := Removed(w.store, h),
         destroyed := if e.own && rt in dtors then w.destroyed + [(rt, e.rep)] else w.destroyed,
         borrows := if e.own then w.borrows else w.borrows - 1)
  }

  ghost function StepSem(s: GuestStep, dtors: set<uint32>, w: World): (w': World)
    requires StoreOk(w.store)
    ensures StoreOk(w'.store)
    decreases s, 1
  {
    match s
    case NewResource(rep) => NewSem(rep, w)
    case DropResource(idx, rt) => DropSem(idx, rt, dtors, w)
    case NestedCall(plan) => Ended(w, CallSem(plan, true, dtors, w.(borrows := 0)))
  }

  /** Back in the caller after a call that started from w with a context of its own. */
  ghost function Ended(w: World, call: (World, Result<seq<Val>, CallError>)): World {
    call.0.(borrows := w.borrows, ended := call.0.ended + [CallRecord(call.0.borrows, call.1.Ok?)])
  }

  ghost function StepsSem(steps: seq<GuestStep>, dtors: set<uint32>, w: World): (w': World)
    requires StoreOk(w.store)
    ensures StoreOk(w'.store)
    decreases steps, 0
  {
    if steps == [] then w else StepSem(steps[|steps| - 1], dtors, StepsSem(steps[..|steps| - 1], dtors, w))
  }

  ghost function GuestSem(g: Guest, dtors: set<uint32>, w: World): (w': World)
    requires StoreOk(w.store)
    ensures StoreOk(w'.store)
    decreases g, 0
  {
    StepsSem(g.steps, dtors, w)
  }

  /** A borrow counts on the context; a handle without a slot, or a failed allocation, ends the lowering. */
  ghost function ParamSem(p: Param, dtors: set<uint32>, w: World): (r: (World, bool))
    requires StoreOk(w.store)
    ensures StoreOk(r.0.store)
    decreases p, 0
  {
    match p
    case OwnParam(rep) =>
      if HasRoom(w.store) then (w.(store := Added(w.store, HandleEntry(0, U32Rep(rep), true, 0))), true) else (w, false)
    case BorrowParam(rep) =>
      if HasRoom(w.store)
      then (w.(store := Added(w.store, HandleEntry(0, U32Rep(rep), false, 0)), borrows := w.borrows + 1), true)
      else (w, false)
    case PlainParam(alloc) => (GuestSem(alloc, dtors, w), alloc.ok)
  }

  ghost function ParamsSem(ps: seq<Param>, dtors: set<uint32>, w: World): (r: (World, bool))
    requires StoreOk(w.store)
    ensures StoreOk(r.0.store)
    decreases ps, 0
  {
    if ps == [] then (w, true)
    else
      var before := ParamsSem(ps[..|ps| - 1], dtors, w);
      if before.1 then ParamSem(ps[|ps| - 1], dtors, before.0) else before
  }

  ghost function OptionalSem(g: Option<Guest>, dtors: set<uint32>, w: World): (r: (World, bool))
    requires StoreOk(w.store)
    ensures StoreOk(r.0.store)
    decreases g, 0
  {
    if g.Some? then (GuestSem(g.value, dtors, w), g.value.ok) else (w, true)
  }

  /** Parameters, then the return area. */
  ghost function PrepareSem(plan: CallPlan, dtors: set<uint32>, w: World): (r: (World, bool))
    requires StoreOk(w.store)
    ensures StoreOk(r.0.store)
    decreases plan, 0
  {
    var lowered := ParamsSem(plan.params, dtors, w);
    if lowered.1 then OptionalSem(plan.retptr, dtors, lowered.0) else lowered
  }

  /** The core function, then post-return. */
  ghost function ExecuteSem(plan: CallPlan, dtors: set<uint32>, w: World): (r: (World, Option<CallError>))
    requires StoreOk(w.store)
    ensures StoreOk(r.0.store)
    decreases plan, 0
  {
    var ran := GuestSem(plan.body, dtors, w);
    if !plan.body.ok then (ran, Some(CoreFailed))
    else
      var after := OptionalSem(plan.postReturn, dtors, ran);
      (after.0, if after.1 then None else Some(PostReturnFailed))
  }

  ghost function InvokeSem(plan: CallPlan, dtors: set<uint32>, w: World): (r: (World, Option<CallError>))
    requires StoreOk(w.store)
    ensures StoreOk(r.0.store)
    decreases plan, 1
  {
    var prepared := PrepareSem(plan, dtors, w);
    if prepared.1 then ExecuteSem(plan, dtors, prepared.0) else (prepared.0, Some(LowerFailed))
  }

  /** The uint32 a handle stands for; any other representation is passed as 0. */
  ghost function HandleValue(rep: Rep): uint32 {
    match rep
    case U32Rep(u) => u
    case _ => 0
  }

  /** What the result lifts to, from the handles the guest left. */
  ghost function LiftAnswer(result: ResultPlan, live: map<Handle, HandleEntry>): Result<seq<Val>, CallError> {
    match result
    case OtherResult(liftable, vals) => if liftable then Ok(vals) else Err(LiftFailed)
    case OwnResult(idx) =>
      if !CanReach(live, idx) then Err(BadIndex)
      else
        var e := live[Reached(live, idx)];
        if !e.own then Err(NotOwned)
        else if e.numLends > 0 then Err(TableError(ResourceInUse))
        else Ok([Own(HandleValue(e.rep))])
    case BorrowResult(idx) =>
      if !CanReach(live, idx) then Err(BadIndex)
      else
        var e := live[Reached(live, idx)];
        if e.numLends == TWO_32 - 1 then Err(Exhausted) else Ok([Borrow(HandleValue(e.rep))])
  }

  /** An own result that lifts leaves the table; a borrowed one is lent only until the call has ended. */
  ghost function AfterLift(result: ResultPlan, st: Store): (st': Store)
    requires StoreOk(st)
    ensures StoreOk(st')
  {
    if result.OwnResult? && LiftAnswer(result, st.live).Ok? then Removed(st, Reached(st.live, result.idx)) else st
  }

  /** The result is lifted first, then the borrows are checked. */
  ghost function ConcludeAnswer(result: ResultPlan, w: World): Result<seq<Val>, CallError> {
    var lifted := LiftAnswer(result, w.store.live);
    if lifted.Err? then lifted else if w.borrows > 0 then Err(OutstandingBorrows) else lifted
  }

  /** A call that starts with a context of its own: what it leaves, and what it answers. */
  ghost function CallSem(plan: CallPlan, active: bool, dtors: set<uint32>, w: World): (r: (World, Result<seq<Val>, CallError>))
    requires StoreOk(w.store)
    ensures StoreOk(r.0.store)
    decreases plan, 2
  {
    if plan.callerIsSelf && active then (w, Err(Recursive))
    else
      var invoked := InvokeSem(plan, dtors, w);
      if invoked.1.Some? then (invoked.0, Err(invoked.1.value))
      else (invoked.0.(store := AfterLift(plan.result, invoked.0.store)), ConcludeAnswer(plan.result, invoked.0))
  }

  // ----- what every step keeps -----

  ghost predicate LendsSame(live: map<Handle, HandleEntry>, live': map<Handle, HandleEntry>) {
    forall h :: LendsIn(live, h) == LendsIn(live', h)
  }

  /** Borrowed entries neither the current context nor the contexts of ended calls account for. */
  ghost function Owing(w: World): int {
    BorrowCount(w.store.live) - w.borrows - Total(w.ended)
  }

  /** Every lend is as before, every borrowed entry is accounted for, and the records of ended calls only grow. */
  ghost predicate Fair(w: World, w': World) {
    && Owing(w') == Owing(w) && LendsSame(w.store.live, w'.store.live)
    && w.ended <= w'.ended && (Honest(w.ended) ==> Honest(w'.ended))
    && |w.store.hist.uses| <= |w'.store.hist.uses|
  }

  lemma FairRefl(w: World)
    ensures Fair(w, w)
  {
  }

  lemma FairTrans(a: World, b: World, c: World)
    requires Fair(a, b) && Fair(b, c)
    ensures Fair(a, c)
  {
    forall h ensures LendsIn(a.store.live, h) == LendsIn(c.store.live, h) {
      assert LendsIn(a.store.live, h) == LendsIn(b.store.live, h);
    }
  }

  lemma AddFair(w: World, e: HandleEntry)
    requires StoreOk(w.store) && HasRoom(w.store) && e.numLends == 0
    ensures Fair(w, w.(store := Added(w.store, e), borrows := if e.own then w.borrows else w.borrows + 1))
  {
    hide BorrowCount, StoreOk;
    NextIsFree(w.store, e);
    BorrowCountInsert(w.store.live, NextOf(w.store.hist), e);
  }

  lemma DropFair(idx: uint32, rt: uint32, dtors: set<uint32>, w: World)
    requires StoreOk(w.store)
    ensures Fair(w, DropSem(idx, rt, dtors, w))
  {
    hide StoreOk, BorrowCount;
    var h := Handle(0, idx);
    if h in w.store.live && w.store.live[h].numLends == 0 {
      BorrowCountRemove(w.store.live, h);
    }
  }

  lemma {:induction false} StepFair(s: GuestStep, dtors: set<uint32>, w: World)
    requires StoreOk(w.store)
    ensures Fair(w, StepSem(s, dtors, w))
    decreases s, 1
  {
    hide StoreOk, Fair, DropSem;
    match s
    case NewResource(rep) =>
      FairRefl(w);
      if HasRoom(w.store) {
        AddFair(w, HandleEntry(0, rep, true, 0));
      }
    case DropResource(idx, rt) => DropFair(idx, rt, dtors, w);
    case NestedCall(plan) =>
      CallFair(plan, true, dtors, w.(borrows := 0));
      EndedFair(w, CallSem(plan, true, dtors, w.(borrows := 0)));
  }

  lemma EndedFair(w: World, call: (World, Result<seq<Val>, CallError>))
    requires Fair(w.(borrows := 0), call.0) && (call.1.Ok? ==> call.0.borrows <= 0)
    ensures Fair(w, Ended(w, call))
  {
    hide BorrowCount, LendsSame, Total, Honest;
    TotalOfCall(w.ended, call.0.ended, CallRecord(call.0.borrows, call.1.Ok?));
  }

  lemma {:induction false} StepsFair(steps: seq<GuestStep>, dtors: set<uint32>, w: World)
    requires StoreOk(w.store)
    ensures Fair(w, StepsSem(steps, dtors, w))
    decreases steps, 0
  {
    hide StoreOk, Fair, StepSem;
    if steps == [] {
      FairRefl(w);
    } else {
      var mid := StepsSem(steps[..|steps| - 1], dtors, w);
      StepsFair(steps[..|steps| - 1], dtors, w);
      StepFair(steps[|steps| - 1], dtors, mid);
      FairTrans(w, mid, StepsSem(steps, dtors, w));
    }
  }

  lemma {:induction false} GuestFair(g: Guest, dtors: set<uint32>, w: World)
    requires StoreOk(w.store)
    ensures Fair(w, GuestSem(g, dtors, w))
    decreases g, 0
  {
    hide StoreOk, Fair, StepsSem;
    StepsFair(g.steps, dtors, w);
  }

  lemma {:induction false} ParamFair(p: Param, dtors: set<uint32>, w: World)
    requires StoreOk(w.store)
    ensures Fair(w, ParamSem(p, dtors, w).0)
    decreases p, 0
  {
    hide StoreOk, Fair, GuestSem;
    FairRefl(w);
    match p
    case OwnParam(rep) =>
      if HasRoom(w.store) {
        AddFair(w, HandleEntry(0, U32Rep(rep), true, 0));
      }
    case BorrowParam(rep) =>
      if HasRoom(w.store) {
        AddFair(w, HandleEntry(0, U32Rep(rep), false, 0));
      }
    case PlainParam(alloc) => GuestFair(alloc, dtors, w);
  }

  lemma {:induction false} ParamsFair(ps: seq<Param>, dtors: set<uint32>, w: World)
    requires StoreOk(w.store)
    ensures Fair(w, ParamsSem(ps, dtors, w).0)
    decreases ps, 0
  {
    hide StoreOk, Fair, ParamSem;
    if ps == [] {
      FairRefl(w);
    } else {
      var before := ParamsSem(ps[..|ps| - 1], dtors, w);
      ParamsFair(ps[..|ps| - 1], dtors, w);
      if before.1 {
        ParamFair(ps[|ps| - 1], dtors, before.0);
        FairTrans(w, before.0, ParamsSem(ps, dtors, w).0);
      }
    }
  }

  lemma {:induction false} OptionalFair(g: Option<Guest>, dtors: set<uint32>, w: World)
    requires StoreOk(w.store)
    ensures Fair(w, OptionalSem(g, dtors, w).0)
    decreases g, 0
  {
    hide StoreOk, Fair, GuestSem;
    FairRefl(w);
    if g.Some? {
      GuestFair(g.value, dtors, w);
    }
  }

  lemma {:induction false} InvokeFair(plan: CallPlan, dtors: set<uint32>, w: World)
    requires StoreOk(w.store)
    ensures Fair(w, InvokeSem(plan, dtors, w).0)
    decreases plan, 1
  {
    hide StoreOk, Fair, GuestSem, ParamsSem, OptionalSem;
    var lowered := ParamsSem(plan.params, dtors, w);
    ParamsFair(plan.params, dtors, w);
    if lowered.1 {
      var prepared := OptionalSem(plan.retptr, dtors, lowered.0);
      OptionalFair(plan.retptr, dtors, lowered.0);
      FairTrans(w, lowered.0, prepared.0);
      if prepared.1 {
        var ran := GuestSem(plan.body, dtors, prepared.0);
        GuestFair(plan.body, dtors, prepared.0);
        FairTrans(w, prepared.0, ran);
        if plan.body.ok {
          OptionalFair(plan.postReturn, dtors, ran);
          FairTrans(w, ran, OptionalSem(plan.postReturn, dtors, ran).0);
        }
      }
    }
  }

  lemma LiftFair(result: ResultPlan, w: World)
    requires StoreOk(w.store)
    ensures Fair(w, w.(store := AfterLift(result, w.store)))
  {
    hide StoreOk, BorrowCount, Reached, CanReach;
    if result.OwnResult? && LiftAnswer(result, w.store.live).Ok? {
      BorrowCountRemove(w.store.live, Reached(w.store.live, result.idx));
    }
  }

  /**
    Every call, with all that runs in it: lends are as before, the borrowed entries change by what its
    context and those of the calls nested in it counted, and it returns a result only if its own count is not positive.
   */
  lemma {:induction false} CallFair(plan: CallPlan, active: bool, dtors: set<uint32>, w: World)
    requires StoreOk(w.store)
    ensures Fair(w, CallSem(plan, active, dtors, w).0)
    ensures CallSem(plan, active, dtors, w).1.Ok? ==> CallSem(plan, active, dtors, w).0.borrows <= 0
    decreases plan, 2
  {
    hide StoreOk, Fair, InvokeSem, LiftAnswer, AfterLift;
    FairRefl(w);
    if !(plan.callerIsSelf && active) {
      var invoked := InvokeSem(plan, dtors, w).0;
      InvokeFair(plan, dtors, w);
      LiftFair(plan.result, invoked);
      FairTrans(w, invoked, invoked.(store := AfterLift(plan.result, invoked.store)));
    }
  }

  // ----- calls without nested calls -----

  /** No call back into the instance is made. */
  ghost predicate NoNestedCalls(plan: CallPlan) {
    && (forall i :: 0 <= i < |plan.params| && plan.params[i].PlainParam? ==> Flat(plan.params[i].alloc))
    && (plan.retptr.Some? ==> Flat(plan.retptr.value))
    && Flat(plan.body)
    && (plan.postReturn.Some? ==> Flat(plan.postReturn.value))
  }

  ghost predicate Flat(g: Guest) {
    forall i :: 0 <= i < |g.steps| ==> !g.steps[i].NestedCall?
  }

  lemma {:induction false} FlatEndsNothing(steps: seq<GuestStep>, dtors: set<uint32>, w: World)
    requires StoreOk(w.store) && forall i :: 0 <= i < |steps| ==> !steps[i].NestedCall?
    ensures StepsSem(steps, dtors, w).ended == w.ended
    decreases |steps|
  {
    hide StoreOk;
    if steps != [] {
      FlatEndsNothing(steps[..|steps| - 1], dtors, w);
    }
  }

  lemma {:induction false} ParamsEndNothing(ps: seq<Param>, dtors: set<uint32>, w: World)
    requires StoreOk(w.store) && forall i :: 0 <= i < |ps| && ps[i].PlainParam? ==> Flat(ps[i].alloc)
    ensures ParamsSem(ps, dtors, w).0.ended == w.ended
    decreases |ps|
  {
    hide StoreOk, StepsSem;
    if ps != [] {
      var before, p := ParamsSem(ps[..|ps| - 1], dtors, w), ps[|ps| - 1];
      ParamsEndNothing(ps[..|ps| - 1], dtors, w);
      if p.PlainParam? {
        FlatEndsNothing(p.alloc.steps, dtors, before.0);
        assert ParamSem(p, dtors, before.0).0 == GuestSem(p.alloc, dtors, before.0);
      }
    }
  }

  lemma NoNestedEndsNothing(plan: CallPlan, active: bool, dtors: set<uint32>, w: World)
    requires StoreOk(w.store) && NoNestedCalls(plan)
    ensures CallSem(plan, active, dtors, w).0.ended == w.ended
  {
    hide StoreOk, StepsSem, ParamsSem;
    ParamsEndNothing(plan.params, dtors, w);
    var lowered := ParamsSem(plan.params, dtors, w).0;
    OptionalEndsNothing(plan.retptr, dtors, lowered);
    var prepared := OptionalSem(plan.retptr, dtors, lowered).0;
    FlatEndsNothing(plan.body.steps, dtors, prepared);
    OptionalEndsNothing(plan.postReturn, dtors, StepsSem(plan.body.steps, dtors, prepared));
    assert GuestSem(plan.body, dtors, prepared).ended == w.ended;
    assert ExecuteSem(plan, dtors, prepared).0.ended == w.ended && PrepareSem(plan, dtors, w).0.ended == w.ended;
    assert InvokeSem(plan, dtors, w).0.ended == w.ended;
  }

  lemma OptionalEndsNothing(g: Option<Guest>, dtors: set<uint32>, w: World)
    requires StoreOk(w.store) && (g.Some? ==> Flat(g.value))
    ensures OptionalSem(g, dtors, w).0.ended == w.ended
  {
    hide StoreOk, StepsSem;
    if g.Some? {
      FlatEndsNothing(g.value.steps, dtors, w);
    }
  }

  // ----- what a call answers -----

  /** The parameters and the return area lower as far as the guest is concerned. */
  ghost predicate LowersOk(plan: CallPlan) {
    && (forall i :: 0 <= i < |plan.params| && plan.params[i].PlainParam? ==> plan.params[i].alloc.ok)
    && (plan.retptr.Some? ==> plan.retptr.value.ok)
  }

  /** A lowering fails exactly where the guest's allocator does, unless the table has 2^31 slots by then. */
  lemma {:induction false} ParamsLower(ps: seq<Param>, dtors: set<uint32>, w: World)
    requires StoreOk(w.store)
    ensures ParamsSem(ps, dtors, w).1 ==> forall i :: 0 <= i < |ps| && ps[i].PlainParam? ==> ps[i].alloc.ok
    ensures !ParamsSem(ps, dtors, w).1 && |ParamsSem(ps, dtors, w).0.store.hist.uses| < TWO_31 ==>
      exists i :: 0 <= i < |ps| && ps[i].PlainParam? && !ps[i].alloc.ok
    decreases |ps|
  {
    hide StoreOk, GuestSem;
    if ps != [] {
      var n := |ps| - 1;
      var before := ParamsSem(ps[..n], dtors, w);
      ParamsLower(ps[..n], dtors, w);
      assert forall i :: 0 <= i < n ==> ps[..n][i] == ps[i];
      assert before.1 && ps[n].PlainParam? ==> ParamsSem(ps, dtors, w).1 == ps[n].alloc.ok by {
        assert before.1 ==> ParamsSem(ps, dtors, w) == ParamSem(ps[n], dtors, before.0);
      }
      assert before.1 && !ps[n].PlainParam? ==> (ParamsSem(ps, dtors, w).1 <==> HasRoom(before.0.store)) by {
        assert before.1 ==> ParamsSem(ps, dtors, w) == ParamSem(ps[n], dtors, before.0);
      }
      assert before.1 && !ps[n].PlainParam? && !HasRoom(before.0.store) ==> ParamsSem(ps, dtors, w).0 == before.0 by {
        assert before.1 ==> ParamsSem(ps, dtors, w) == ParamSem(ps[n], dtors, before.0);
      }
      if !before.1 && |before.0.store.hist.uses| < TWO_31 {
        var i :| 0 <= i < n && ps[..n][i].PlainParam? && !ps[..n][i].alloc.ok;
        assert ps[i].PlainParam? && !ps[i].alloc.ok;
      }
    }
  }

  /**
    The answer of a call, in the order of the checks: recursion, lowering, the core function, post-return,
    lifting, outstanding borrows. `end` is where the guest left off.
   */
  lemma CallAnswers(plan: CallPlan, active: bool, dtors: set<uint32>, w: World)
    requires StoreOk(w.store)
    ensures var (w', r) := CallSem(plan, active, dtors, w);
      var end := InvokeSem(plan, dtors, w).0;
      if plan.callerIsSelf && active then r == Err(Recursive) && w' == w
      else if !LowersOk(plan) then r == Err(LowerFailed)
      else
        || (r == Err(LowerFailed) && |w'.store.hist.uses| == TWO_31)
        || if !plan.body.ok then r == Err(CoreFailed)
           else if plan.postReturn.Some? && !plan.postReturn.value.ok then r == Err(PostReturnFailed)
           else
             var lifted := LiftAnswer(plan.result, end.store.live);
             && w' == end.(store := AfterLift(plan.result, end.store))
             && r == if lifted.Err? then lifted else if end.borrows > 0 then Err(OutstandingBorrows) else lifted
  {
    hide GuestSem, ParamsSem, LiftAnswer, AfterLift;
    ParamsLower(plan.params, dtors, w);
    var lowered := ParamsSem(plan.params, dtors, w);
    if lowered.1 {
      var prepared := OptionalSem(plan.retptr, dtors, lowered.0);
      assert prepared.1 <==> plan.retptr.Some? ==> plan.retptr.value.ok;
      assert PrepareSem(plan, dtors, w) == prepared;
      if prepared.1 {
        var ran := GuestSem(plan.body, dtors, prepared.0);
        assert OptionalSem(plan.postReturn, dtors, ran).1 <==> plan.postReturn.Some? ==> plan.postReturn.value.ok;
        assert InvokeSem(plan, dtors, w) == ExecuteSem(plan, dtors, prepared.0);
      }
    } else {
      assert PrepareSem(plan, dtors, w) == lowered;
      AtMostFull(lowered.0.store);
    }
  }

  lemma AtMostFull(st: Store)
    requires StoreOk(st)
    ensures |st.hist.uses| <= TWO_31
  {
  }
}
