// Dropping handles: destructor registry, reentrance tracking and the routes of resource.drop.

module Drops {
  import opened Words
  import opened Wrappers
  import opened ResourceTables
  import opened Instances

  // ----- destructor registry -----

  /** Resource types with a registered destructor; the value is false for a nil function. */
  class DestructorRegistry {
    var destructors: map<uint32, bool>

    constructor ()
      ensures destructors == map[]
    {
      destructors := map[];
    }

    method Register(rt: uint32, callable: bool)
      modifies this
      ensures destructors == old(destructors)[rt := callable]
    {
      destructors := destructors[rt := callable];
    }

    method Unregister(rt: uint32)
      modifies this
      ensures destructors == old(destructors) - {rt}
    {
      destructors := destructors - {rt};
    }
  }

  // ----- reentrance -----

  class ReentranceTracker {
    var activeCalls: map<uint32, int>

    /** Only instances on the stack are stored. */
    ghost predicate Valid()
      reads this
    {
      forall id :: id in activeCalls ==> activeCalls[id] > 0
    }

    constructor ()
      ensures Valid() && activeCalls == map[]
    {
      activeCalls := map[];
    }

    method EnterInstance(id: uint32)
      requires Valid()
      modifies this
      ensures Valid() && activeCalls == old(activeCalls)[id := Depth(old(activeCalls), id) + 1]
    {
      activeCalls := activeCalls[id := Depth(activeCalls, id) + 1];
    }

    method LeaveInstance(id: uint32)
      requires Valid()
      modifies this
      ensures Valid()
      ensures activeCalls == Left(old(activeCalls), id)
    {
      var count := Depth(activeCalls, id);
      if count > 0 {
        activeCalls := activeCalls[id := count - 1];
        if activeCalls[id] == 0 {
          activeCalls := activeCalls - {id};
        }
      }
    }
  }

  function Depth(active: map<uint32, int>, id: uint32): int {
    if id in active then active[id] else 0
  }

  /** One call fewer on the stack for id; an instance that is not on it stays off it. */
  ghost function Left(active: map<uint32, int>, id: uint32): map<uint32, int> {
    if Depth(active, id) > 1 then active[id := active[id] - 1] else active - {id}
  }

  predicate CallMightBeRecursive(active: map<uint32, int>, id: uint32) {
    Depth(active, id) > 0
  }

  /** A call is recursive exactly if its instance is on the stack; entering puts it there. */
  lemma RecursiveIfActive(active: map<uint32, int>, id: uint32)
    requires forall i :: i in active ==> active[i] > 0
    ensures CallMightBeRecursive(active, id) <==> id in active
    ensures CallMightBeRecursive(active[id := Depth(active, id) + 1], id)
  {
  }

  /** Leaving undoes entering: the tracker is a stack of counts. */
  lemma EnterThenLeave(active: map<uint32, int>, id: uint32)
    requires forall i :: i in active ==> active[i] > 0
    ensures Left(active[id := Depth(active, id) + 1], id) == active
  {
    assert Left(active[id := Depth(active, id) + 1], id).Keys == active.Keys;
  }

  // ----- destructor calls -----

  datatype DtorCall = Local(rt: uint32, rep: uint32) | Cross(rep: uint32, instance: uint32)

  /** Stands for the destructor callbacks: it records each call. */
  class DtorLog {
    var calls: seq<DtorCall>

    constructor ()
      ensures calls == []
    {
      calls := [];
    }

    method Record(c: DtorCall)
      modifies this
      ensures calls == old(calls) + [c]
    {
      calls := calls + [c];
    }
  }

  /** Where a drop happens: the dropping and the defining instance, and whether a cross-instance callback exists. */
  datatype Site = Site(current: uint32, defining: uint32, crossCallback: bool)

  function RepAsU32(rep: Rep): Option<uint32> {
    match rep
    case U32Rep(u) => Some(u)
    case IntRep(i) => Some(WrapU32(i))
    case OtherRep(_) => None
  }

  /** Why a drop is refused, in the order the checks are made; 0 is the invalid type and skips the type check. */
  ghost function DropError(live: map<Handle, HandleEntry>, h: Handle, rt: uint32): Option<Error> {
    if h !in live then Some(InvalidHandle)
    else if rt != 0 && live[h].rt != rt then Some(ResourceTypeMismatch)
    else if live[h].numLends > 0 then Some(ResourceInUse)
    else None
  }

  /** The registered destructors; None when there is no registry. */
  ghost function DtorsOf(reg: DestructorRegistry?): Option<map<uint32, bool>>
    reads reg
  {
    if reg == null then None else Some(reg.destructors)
  }

  /** The active calls; None when nothing is tracked. */
  ghost function ActiveOf(tracker: ReentranceTracker?): Option<map<uint32, int>>
    reads tracker
  {
    if tracker == null then None else Some(tracker.activeCalls)
  }

  /** The borrow count of a context; None when there is no context. */
  ghost function BorrowsOf(ctx: CallContext?): Option<int>
    reads ctx
  {
    if ctx == null then None else Some(ctx.numBorrows)
  }

  /** Panicked is the nil registry of a drop inside the defining instance; the handle is gone by then. */
  datatype DropResult = Dropped | Refused(error: Error) | Panicked

  /** The entry owns a uint32 rep, so its drop looks for a destructor. */
  ghost predicate SeeksDtor(e: HandleEntry) {
    e.own && RepAsU32(e.rep).Some?
  }

  /** A destructor call is due: the entry owns a uint32 rep and the route has something to call. */
  ghost predicate DtorDue(e: HandleEntry, rt: uint32, dtors: Option<map<uint32, bool>>, site: Site) {
    && SeeksDtor(e)
    && if site.current == site.defining then dtors.Some? && rt in dtors.value && dtors.value[rt] else site.crossCallback
  }

  ghost function DtorCalls(e: HandleEntry, rt: uint32, dtors: Option<map<uint32, bool>>, site: Site): seq<DtorCall> {
    if !DtorDue(e, rt, dtors, site) then []
    else if site.current == site.defining then [Local(rt, RepAsU32(e.rep).value)]
    else [Cross(RepAsU32(e.rep).value, site.defining)]
  }

  ghost function Outcome(live: map<Handle, HandleEntry>, h: Handle, rt: uint32, dtors: Option<map<uint32, bool>>, site: Site): DropResult {
    var error := DropError(live, h, rt);
    if error.Some? then Refused(error.value)
    else if SeeksDtor(live[h]) && site.current == site.defining && dtors.None? then Panicked
    else Dropped
  }

  method ValidateType(t: ResourceTable, h: Handle, rt: uint32) returns (r: Option<Error>)
    requires t.Valid()
    ensures r == if h !in t.Live() then Some(InvalidHandle)
                 else if t.Live()[h].rt != rt then Some(ResourceTypeMismatch)
                 else None
  {
    var e := t.Get(h);
    if e.Err? {
      return Some(e.error);
    }
    if e.value.rt != rt {
      return Some(ResourceTypeMismatch);
    }
    r := None;
  }

  method DropOwned(t: ResourceTable, h: Handle, rt: uint32, reg: DestructorRegistry?, site: Site, log: DtorLog)
    returns (r: DropResult)
    requires t.Valid()
    modifies t, log
    ensures t.Valid() && t.scopes == old(t.scopes) && (old(t.Balanced()) ==> t.Balanced())
    ensures t.hist.issued == old(t.hist.issued) && t.hist.uses == old(t.hist.uses) && |t.entries| == old(|t.entries|)
    ensures r == Outcome(old(t.Live()), h, rt, DtorsOf(reg), site)
    ensures if r.Refused?
      then t.Live() == old(t.Live()) && log.calls == old(log.calls)
      else t.Live() == old(t.Live()) - {h} && log.calls == old(log.calls) + DtorCalls(old(t.Live())[h], rt, DtorsOf(reg), site)
  {
    hide TableOk, LiveMap, LendsMatch;
    if rt != 0 {
      var wrong := ValidateType(t, h, rt);
      if wrong.Some? {
        return Refused(wrong.value);
      }
    }
    var e := t.Remove(h);
    if e.Err? {
      return Refused(e.error);
    }
    r := Dropped;
    if !e.value.own {
      return;
    }
    var rep := RepAsU32(e.value.rep);
    if rep == None {
      return;
    }
    if site.current == site.defining {
      if reg == null {
        return Panicked;
      }
      if rt in reg.destructors && reg.destructors[rt] {
        log.Record(Local(rt, rep.value));
      }
    } else {
      if site.crossCallback {
        log.Record(Cross(rep.value, site.defining));
      }
    }
  }

  /** A cross-instance drop of a type without destructor is refused while its defining instance is on the stack. */
  ghost predicate ReentranceRefused(rt: uint32, dtors: Option<map<uint32, bool>>, site: Site, active: Option<map<uint32, int>>) {
    && site.current != site.defining
    && !(dtors.Some? && rt in dtors.value)
    && active.Some? && CallMightBeRecursive(active.value, site.defining)
  }

  ghost function CheckedOutcome(live: map<Handle, HandleEntry>, h: Handle, rt: uint32, dtors: Option<map<uint32, bool>>,
                                site: Site, active: Option<map<uint32, int>>): DropResult
  {
    if rt != 0 && (h !in live || live[h].rt != rt) then Outcome(live, h, rt, dtors, site)
    else if ReentranceRefused(rt, dtors, site, active) then Refused(Reentrance)
    else Outcome(live, h, rt, dtors, site)
  }

  method DropOwnedWithReentranceCheck(t: ResourceTable, h: Handle, rt: uint32, reg: DestructorRegistry?, site: Site,
                                      tracker: ReentranceTracker?, log: DtorLog) returns (r: DropResult)
    requires t.Valid()
    modifies t, log
    ensures t.Valid() && t.scopes == old(t.scopes) && (old(t.Balanced()) ==> t.Balanced())
    ensures t.hist.issued == old(t.hist.issued) && t.hist.uses == old(t.hist.uses) && |t.entries| == old(|t.entries|)
    ensures r == CheckedOutcome(old(t.Live()), h, rt, DtorsOf(reg), site, ActiveOf(tracker))
    ensures if r.Refused?
      then t.Live() == old(t.Live()) && log.calls == old(log.calls)
      else t.Live() == old(t.Live()) - {h} && log.calls == old(log.calls) + DtorCalls(old(t.Live())[h], rt, DtorsOf(reg), site)
  {
    hide TableOk, LiveMap, LendsMatch;
    if rt != 0 {
      var wrong := ValidateType(t, h, rt);
      if wrong.Some? {
        return Refused(wrong.value);
      }
    }
    if site.current != site.defining {
      var hasDestructor := reg != null && rt in reg.destructors;
      if !hasDestructor && tracker != null && CallMightBeRecursive(tracker.activeCalls, site.defining) {
        return Refused(Reentrance);
      }
    }
    r := DropOwned(t, h, rt, reg, site, log);
  }

  /** The resource.drop built-in: owned handles run their destructor, borrowed ones are counted off the context. */
  method DropWithContext(t: ResourceTable, idx: uint32, typeIdx: uint32, reg: DestructorRegistry?, site: Site,
                         ctx: CallContext?, log: DtorLog) returns (r: DropResult)
    requires t.Valid()
    modifies t, log, ctx
    ensures t.Valid() && t.scopes == old(t.scopes) && (old(t.Balanced()) ==> t.Balanced())
    ensures t.hist.issued == old(t.hist.issued) && t.hist.uses == old(t.hist.uses) && |t.entries| == old(|t.entries|)
    ensures var h, rt, live := Handle(0, idx), WrapU32(typeIdx + 1), old(t.Live());
      && r == Outcome(live, h, rt, DtorsOf(reg), site)
      && (r.Refused? ==> t.Live() == live && log.calls == old(log.calls) && BorrowsOf(ctx) == old(BorrowsOf(ctx)))
      && (!r.Refused? ==>
            && t.Live() == live - {h}
            && log.calls == old(log.calls) + DtorCalls(live[h], rt, DtorsOf(reg), site)
            && BorrowsOf(ctx) == CountedOff(old(BorrowsOf(ctx)), live[h]))
  {
    hide TableOk, LiveMap, LendsMatch;
    var h, rt := Handle(0, idx), WrapU32(typeIdx + 1);
    var e := t.Get(h);
    if e.Err? {
      return Refused(e.error);
    }
    if rt != 0 && e.value.rt != rt {
      return Refused(ResourceTypeMismatch);
    }
    if e.value.own {
      r := DropOwned(t, h, rt, reg, site, log);
    } else {
      var removed := t.Remove(h);
      if removed.Err? {
        return Refused(removed.error);
      }
      if ctx != null {
        ctx.DecrementBorrows();
      }
      r := Dropped;
    }
  }

  /** A context counts the drop of a borrowed entry, and only that. */
  ghost function CountedOff(borrows: Option<int>, e: HandleEntry): Option<int> {
    if borrows.Some? && !e.own then Some(borrows.value - 1) else borrows
  }
}

// Whole runs of drops: which handles are destroyed, and how often.
module DropRuns {
  import opened Words
  import opened Wrappers
  import opened ResourceTables
  import opened Instances
  import opened Drops
  import HandleRuns

  /** Table operations, lends included, may be interleaved with the three kinds of drops. */
  datatype Op =
    | Table(op: HandleRuns.Op)
    | Drop(h: Handle, rt: uint32, site: Site)
    | DropChecked(h: Handle, rt: uint32, site: Site)
    | DropIndex(idx: uint32, typeIdx: uint32, site: Site)
    | Register(rt: uint32, callable: bool)
    | Unregister(rt: uint32)
    | Enter(id: uint32)
    | Leave(id: uint32)

  datatype Answer = TableAnswer(out: HandleRuns.Outcome) | DropAnswer(result: DropResult) | Silent

  datatype DropState = DropState(
    table: HandleRuns.TableState,
    dtors: Option<map<uint32, bool>>,
    active: Option<map<uint32, int>>,
    borrows: Option<int>,
    log: seq<DtorCall>)

  predicate IsDrop(op: Op) {
    op.Drop? || op.DropChecked? || op.DropIndex?
  }

  /** The handle a drop names; an index is a handle of generation 0. */
  function HandleOf(op: Op): Handle
    requires IsDrop(op)
  {
    if op.DropIndex? then Handle(0, op.idx) else op.h
  }

  function TypeOf(op: Op): uint32
    requires IsDrop(op)
  {
    if op.DropIndex? then WrapU32(op.typeIdx + 1) else op.rt
  }

  ghost function ResultOf(s: DropState, op: Op): DropResult
    requires IsDrop(op)
  {
    if op.DropChecked? then CheckedOutcome(s.table.live, op.h, op.rt, s.dtors, op.site, s.active)
    else Outcome(s.table.live, HandleOf(op), TypeOf(op), s.dtors, op.site)
  }

  /** The destructor calls a drop makes. */
  ghost function CallsOf(s: DropState, op: Op): seq<DtorCall>
    requires IsDrop(op) && HandleOf(op) in s.table.live
  {
    DtorCalls(s.table.live[HandleOf(op)], TypeOf(op), s.dtors, op.site)
  }

  ghost predicate DropStep(s: DropState, op: Op, a: Answer, s': DropState)
    requires IsDrop(op)
  {
    && a == DropAnswer(ResultOf(s, op))
    && if ResultOf(s, op).Refused? then s' == s
       else
         var h := HandleOf(op);
         && h in s.table.live && s.table.live[h].numLends == 0
         && s' == s.(table := s.table.(live := s.table.live - {h}),
                     borrows := if op.DropIndex? then CountedOff(s.borrows, s.table.live[h]) else s.borrows,
                     log := s.log + CallsOf(s, op))
  }

  ghost predicate Step(s: DropState, op: Op, a: Answer, s': DropState) {
    if IsDrop(op) then DropStep(s, op, a, s')
    else
      match op
      case Table(o) => a.TableAnswer? && HandleRuns.Step(s.table, o, a.out, s'.table) && s' == s.(table := s'.table)
      case Register(rt, callable) =>
        a == Silent && s' == if s.dtors.Some? then s.(dtors := Some(s.dtors.value[rt := callable])) else s
      case Unregister(rt) => a == Silent && s' == if s.dtors.Some? then s.(dtors := Some(s.dtors.value - {rt})) else s
      case Enter(id) =>
        a == Silent && s' == if s.active.Some? then s.(active := Some(s.active.value[id := Depth(s.active.value, id) + 1])) else s
      case Leave(id) => a == Silent && s' == if s.active.Some? then s.(active := Some(Left(s.active.value, id))) else s
      case _ => true
  }

  ghost predicate IsRun(states: seq<DropState>, ops: seq<Op>, answers: seq<Answer>) {
    && |states| == |ops| + 1 && |answers| == |ops|
    && forall i :: 0 <= i < |ops| ==> Step(states[i], ops[i], answers[i], states[i + 1])
  }

  // ----- the real objects follow the transition system -----

  ghost function StateOf(t: ResourceTable, reg: DestructorRegistry?, tracker: ReentranceTracker?, ctx: CallContext?, log: DtorLog): DropState
    requires |t.entries| <= TWO_31
    reads t, reg, tracker, ctx, log
  {
    DropState(HandleRuns.StateOf(t), DtorsOf(reg), ActiveOf(tracker), BorrowsOf(ctx), log.calls)
  }

  predicate Stuck(t: ResourceTable, op: Op)
    reads t
  {
    op.Table? && HandleRuns.Stuck(t, op.op)
  }

  method PerformDrop(t: ResourceTable, reg: DestructorRegistry?, tracker: ReentranceTracker?, ctx: CallContext?, log: DtorLog, op: Op)
    returns (a: Answer)
    requires t.Valid() && IsDrop(op)
    modifies t, ctx, log
    ensures t.Valid() && DropStep(old(StateOf(t, reg, tracker, ctx, log)), op, a, StateOf(t, reg, tracker, ctx, log))
  {
    hide TableOk, LiveMap, LendsMatch;
    var r;
    if op.Drop? {
      r := DropOwned(t, op.h, op.rt, reg, op.site, log);
    } else if op.DropChecked? {
      r := DropOwnedWithReentranceCheck(t, op.h, op.rt, reg, op.site, tracker, log);
    } else {
      r := DropWithContext(t, op.idx, op.typeIdx, reg, op.site, ctx, log);
    }
    a := DropAnswer(r);
  }

  method Perform(t: ResourceTable, reg: DestructorRegistry?, tracker: ReentranceTracker?, ctx: CallContext?, log: DtorLog, op: Op)
    returns (a: Answer)
    requires t.Valid() && (tracker != null ==> tracker.Valid()) && !Stuck(t, op)
    modifies t, reg, tracker, ctx, log
    ensures t.Valid() && (tracker != null ==> tracker.Valid())
    ensures Step(old(StateOf(t, reg, tracker, ctx, log)), op, a, StateOf(t, reg, tracker, ctx, log))
  {
    hide TableOk, LiveMap, LendsMatch, HandleRuns.Step, DropStep;
    a := Silent;
    if IsDrop(op) {
      a := PerformDrop(t, reg, tracker, ctx, log, op);
    } else if op.Table? {
      var out := HandleRuns.Perform(t, op.op);
      a := TableAnswer(out);
    } else if op.Register? && reg != null {
      reg.Register(op.rt, op.callable);
    } else if op.Unregister? && reg != null {
      reg.Unregister(op.rt);
    } else if op.Enter? && tracker != null {
      tracker.EnterInstance(op.id);
    } else if op.Leave? && tracker != null {
      tracker.LeaveInstance(op.id);
    }
  }

  /**
    Operations on real objects, however many, are a run, and its last log is the real one; only a full
    table ends it early. Registry, tracker and context may each be absent.
   */
  method PerformAll(t: ResourceTable, reg: DestructorRegistry?, tracker: ReentranceTracker?, ctx: CallContext?, log: DtorLog, ops: seq<Op>)
    returns (n: nat, answers: seq<Answer>, ghost states: seq<DropState>)
    requires t.Valid() && (tracker != null ==> tracker.Valid())
    modifies t, reg, tracker, ctx, log
    ensures t.Valid() && n <= |ops| && IsRun(states, ops[..n], answers)
    ensures states[0] == old(StateOf(t, reg, tracker, ctx, log)) && states[n] == StateOf(t, reg, tracker, ctx, log)
    ensures n < |ops| ==> Stuck(t, ops[n])
  {
    hide TableOk, LiveMap, LendsMatch, Step;
    n, answers, states := 0, [], [StateOf(t, reg, tracker, ctx, log)];
    while n < |ops| && !Stuck(t, ops[n])
      invariant t.Valid() && (tracker != null ==> tracker.Valid()) && n <= |ops| && IsRun(states, ops[..n], answers)
      invariant states[0] == old(StateOf(t, reg, tracker, ctx, log)) && states[n] == StateOf(t, reg, tracker, ctx, log)
    {
      var a := Perform(t, reg, tracker, ctx, log, ops[n]);
      n, answers, states := n + 1, answers + [a], states + [StateOf(t, reg, tracker, ctx, log)];
    }
  }

  // ----- every run -----

  /** The operation drops a live handle that owes a destructor call. */
  ghost predicate Destroys(s: DropState, op: Op) {
    && IsDrop(op) && !ResultOf(s, op).Refused? && HandleOf(op) in s.table.live
    && DtorDue(s.table.live[HandleOf(op)], TypeOf(op), s.dtors, op.site)
  }

  /** The one call it owes: on the local route or on the cross-instance route. */
  ghost function CallOf(s: DropState, op: Op): DtorCall
    requires Destroys(s, op)
  {
    var rep := RepAsU32(s.table.live[HandleOf(op)].rep).value;
    if op.site.current == op.site.defining then Local(TypeOf(op), rep) else Cross(rep, op.site.defining)
  }

  /** The destructor is called with the representation of the handle: a uint32 as it is, an int in 32 bits, and nothing else. */
  ghost predicate CalledWith(call: DtorCall, e: HandleEntry) {
    match e.rep
    case U32Rep(u) => call.rep == u
    case IntRep(i) => call.rep == i % TWO_32
    case OtherRep(_) => false
  }

  /** On the local route by its type, on the other in the instance that defines it. */
  ghost predicate CalledAt(call: DtorCall, rt: uint32, site: Site) {
    if site.current == site.defining then call.Local? && call.rt == rt else call.Cross? && call.instance == site.defining
  }

  /** A step adds the one call of a destroying drop to the log, and nothing otherwise; a refused drop changes nothing at all. */
  lemma StepLog(s: DropState, op: Op, a: Answer, s': DropState)
    requires Step(s, op, a, s')
    ensures s'.log == s.log + if Destroys(s, op) then [CallOf(s, op)] else []
    ensures Destroys(s, op) ==>
      var e, call := s.table.live[HandleOf(op)], s'.log[|s.log|];
      e.own && CalledWith(call, e) && CalledAt(call, TypeOf(op), op.site)
    ensures a.DropAnswer? && a.result.Refused? ==> s' == s
    ensures a == Silent ==> s'.table == s.table
  {
    hide HandleRuns.Step, Outcome, CheckedOutcome;
  }

  /** The destroying steps among the first n, in order. */
  ghost function DestroyingSteps(states: seq<DropState>, ops: seq<Op>, n: nat): seq<nat>
    requires n <= |ops| <= |states|
  {
    if n == 0 then []
    else DestroyingSteps(states, ops, n - 1) + if Destroys(states[n - 1], ops[n - 1]) then [n - 1] else []
  }

  /**
    Over any run the log gains exactly one entry per destroying drop, in the order of the drops, and that
    entry is the call of that drop, with the representation of the handle it dropped.
   */
  lemma {:induction false} DestroyedExactlyOnce(states: seq<DropState>, ops: seq<Op>, answers: seq<Answer>, n: nat)
    requires IsRun(states, ops, answers) && states[0].log == [] && n <= |ops|
    ensures var steps := DestroyingSteps(states, ops, n);
      && |states[n].log| == |steps|
      && (forall k :: 0 <= k < |steps| ==>
            steps[k] < n && Destroys(states[steps[k]], ops[steps[k]]) && states[n].log[k] == CallOf(states[steps[k]], ops[steps[k]])
            && CalledWith(states[n].log[k], states[steps[k]].table.live[HandleOf(ops[steps[k]])])
            && CalledAt(states[n].log[k], TypeOf(ops[steps[k]]), ops[steps[k]].site))
      && (forall j, k :: 0 <= j < k < |steps| ==> steps[j] < steps[k])
      && (forall i :: 0 <= i < n ==> (i in steps <==> Destroys(states[i], ops[i])))
  {
    hide Step, Destroys;
    if n > 0 {
      DestroyedExactlyOnce(states, ops, answers, n - 1);
      StepLog(states[n - 1], ops[n - 1], answers[n - 1], states[n]);
    }
  }

  // ----- no handle is destroyed twice -----

  /** What a step does to the table, as an operation of the table. */
  ghost function TableOp(op: Op, a: Answer): HandleRuns.Op {
    if op.Table? then op.op
    else if IsDrop(op) && a.DropAnswer? && !a.result.Refused? then HandleRuns.Remove(HandleOf(op))
    else HandleRuns.Get(Handle(0, 0))
  }

  ghost function TableOut(s: DropState, op: Op, a: Answer): HandleRuns.Outcome {
    if op.Table? && a.TableAnswer? then a.out
    else if IsDrop(op) && a.DropAnswer? && !a.result.Refused? && HandleOf(op) in s.table.live
    then HandleRuns.Found(s.table.live[HandleOf(op)])
    else if Handle(0, 0) in s.table.live then HandleRuns.Found(s.table.live[Handle(0, 0)])
    else HandleRuns.Refused(InvalidHandle)
  }

  lemma StepOnTable(s: DropState, op: Op, a: Answer, s': DropState)
    requires Step(s, op, a, s')
    ensures HandleRuns.Step(s.table, TableOp(op, a), TableOut(s, op, a), s'.table)
  {
    hide Outcome, CheckedOutcome;
  }

  ghost function Tables(states: seq<DropState>): seq<HandleRuns.TableState> {
    seq(|states|, i requires 0 <= i < |states| => states[i].table)
  }

  ghost function TableOps(ops: seq<Op>, answers: seq<Answer>): seq<HandleRuns.Op>
    requires |ops| == |answers|
  {
    seq(|ops|, i requires 0 <= i < |ops| => TableOp(ops[i], answers[i]))
  }

  ghost function TableOuts(states: seq<DropState>, ops: seq<Op>, answers: seq<Answer>): seq<HandleRuns.Outcome>
    requires |ops| == |answers| <= |states|
  {
    seq(|ops|, i requires 0 <= i < |ops| => TableOut(states[i], ops[i], answers[i]))
  }

  /** Seen from the table, a run of drops is a run of the table. */
  lemma RunOnTable(states: seq<DropState>, ops: seq<Op>, answers: seq<Answer>)
    requires IsRun(states, ops, answers)
    ensures HandleRuns.IsRun(Tables(states), TableOps(ops, answers), TableOuts(states, ops, answers))
  {
    hide Step, HandleRuns.Step, TableOp, TableOut;
    forall i | 0 <= i < |ops|
      ensures HandleRuns.Step(Tables(states)[i], TableOps(ops, answers)[i], TableOuts(states, ops, answers)[i], Tables(states)[i + 1])
    {
      StepOnTable(states[i], ops[i], answers[i], states[i + 1]);
    }
  }

  /** As long as no slot is allocated more than 2^32 times, two drops that succeed drop different handles. */
  lemma NeverDroppedTwice(states: seq<DropState>, ops: seq<Op>, answers: seq<Answer>, i: nat, j: nat)
    requires IsRun(states, ops, answers) && states[0].table.live.Keys <= states[0].table.issued
    requires HandleRuns.NotRecycled(states[|ops|].table)
    requires i < j < |ops| && IsDrop(ops[i]) && IsDrop(ops[j])
    requires !ResultOf(states[i], ops[i]).Refused? && !ResultOf(states[j], ops[j]).Refused?
    ensures HandleOf(ops[i]) != HandleOf(ops[j])
  {
    hide Outcome, CheckedOutcome, HandleRuns.Step;
    RunOnTable(states, ops, answers);
    assert Step(states[i], ops[i], answers[i], states[i + 1]) && Step(states[j], ops[j], answers[j], states[j + 1]);
    var h := HandleOf(ops[i]);
    if HandleOf(ops[j]) == h {
      HandleRuns.RemovedForever(Tables(states), TableOps(ops, answers), TableOuts(states, ops, answers), i, j, h);
    }
  }

  /**
    A drop right after a lend of the handle is refused for the lend and changes nothing, exactly as long
    as the 32-bit count of lends does not wrap to zero, unless the check for reentrance refuses it first.
   */
  lemma LentIsRefused(s: DropState, lend: Answer, s': DropState, op: Op, a: Answer, s'': DropState)
    requires IsDrop(op) && HandleOf(op) in s.table.live && (TypeOf(op) == 0 || TypeOf(op) == s.table.live[HandleOf(op)].rt)
    requires Step(s, Table(HandleRuns.IncrementLends(HandleOf(op))), lend, s') && Step(s', op, a, s'')
    requires op.DropChecked? ==> !ReentranceRefused(op.rt, s.dtors, op.site, s.active)
    ensures a == DropAnswer(DropResult.Refused(ResourceInUse)) <==> s.table.live[HandleOf(op)].numLends != TWO_32 - 1
    ensures a == DropAnswer(DropResult.Refused(ResourceInUse)) ==> s'' == s' && s'.log == s.log
  {
    assert s'.table.live[HandleOf(op)].numLends == 0 <==> s.table.live[HandleOf(op)].numLends == TWO_32 - 1;
  }
}
