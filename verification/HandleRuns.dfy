// Whole runs of a handle table: what any sequence of operations can and cannot do to a handle.

module HandleRuns {
  import opened Words
  import opened Wrappers
  import opened ResourceTables

  datatype Op =
    | New(rep: Rep, own: bool, rt: uint32)
    | Get(h: Handle)
    | Remove(h: Handle)
    | IncrementLends(h: Handle)
    | DecrementLends(h: Handle)

  datatype Outcome = Issued(issued: Handle) | Found(entry: HandleEntry) | Done | Refused(error: Error)

  datatype TableState = TableState(live: map<Handle, HandleEntry>, uses: seq<nat>, issued: set<Handle>)

  ghost function StateOf(t: ResourceTable): TableState
    requires |t.entries| <= TWO_31
    reads t
  {
    TableState(t.Live(), t.hist.uses, t.hist.issued)
  }

  /** A handle argument that is not live is refused and changes nothing. */
  ghost predicate RefusesDead(s: TableState, h: Handle, out: Outcome, s': TableState) {
    h !in s.live ==> out == Refused(InvalidHandle) && s' == s
  }

  ghost predicate Step(s: TableState, op: Op, out: Outcome, s': TableState) {
    match op
    case New(rep, own, rt) =>
      && out.Issued? && out.issued.index <= |s.uses| && out.issued !in s.live
      && s' == TableState(s.live[out.issued := HandleEntry(rt, rep, own, 0)],
                          Bump(s.uses, out.issued.index), s.issued + {out.issued})
      && (out.issued in s.issued <==> out.issued.index < |s.uses| && s.uses[out.issued.index] >= TWO_32)
    case Get(h) =>
      && RefusesDead(s, h, out, s') && s' == s
      && (h in s.live ==> out == Found(s.live[h]))
    case Remove(h) =>
      && RefusesDead(s, h, out, s')
      && (h in s.live && s.live[h].numLends > 0 ==> out == Refused(ResourceInUse) && s' == s)
      && (h in s.live && s.live[h].numLends == 0 ==> out == Found(s.live[h]) && s' == s.(live := s.live - {h}))
    case IncrementLends(h) =>
      && RefusesDead(s, h, out, s')
      && (h in s.live ==> out == Done && s' == s.(live := s.live[h := Lent(s.live[h])]))
    case DecrementLends(h) =>
      && RefusesDead(s, h, out, s')
      && (h in s.live && s.live[h].numLends == 0 ==> out == Refused(NoBorrowsToDecrement) && s' == s)
      && (h in s.live && s.live[h].numLends > 0 ==>
            out == Done && s' == s.(live := s.live[h := s.live[h].(numLends := s.live[h].numLends - 1)]))
  }

  ghost predicate IsRun(states: seq<TableState>, ops: seq<Op>, outs: seq<Outcome>) {
    && |states| == |ops| + 1 && |outs| == |ops|
    && forall i :: 0 <= i < |ops| ==> Step(states[i], ops[i], outs[i], states[i + 1])
  }

  /** The one operation outside the table's index range: a New that would need slot 2^31. */
  predicate Stuck(t: ResourceTable, op: Op)
    reads t
  {
    op.New? && t.freeHead < 0 && |t.entries| >= TWO_31
  }

  /** The table performs every operation as the transition system prescribes. */
  method Perform(t: ResourceTable, op: Op) returns (out: Outcome)
    requires t.Valid() && !Stuck(t, op)
    modifies t
    ensures t.Valid() && Step(old(StateOf(t)), op, out, StateOf(t))
  {
    hide TableOk, LiveMap, LendsMatch;
    match op
    case New(rep, own, rt) =>
      var h := t.NewWithType(rep, own, rt);
      out := Issued(h);
    case Get(h) =>
      var r := t.Get(h);
      out := if r.Ok? then Found(r.value) else Refused(r.error);
    case Remove(h) =>
      var r := t.Remove(h);
      out := if r.Ok? then Found(r.value) else Refused(r.error);
    case IncrementLends(h) =>
      var r := t.IncrementLends(h);
      out := if r == None then Done else Refused(r.value);
    case DecrementLends(h) =>
      var r := t.DecrementLends(h);
      out := if r == None then Done else Refused(r.value);
  }

  /** Operations on a real table, however many, are a run of the transition system; only a full table ends it early. */
  method PerformAll(t: ResourceTable, ops: seq<Op>) returns (n: nat, outs: seq<Outcome>, ghost states: seq<TableState>)
    requires t.Valid()
    modifies t
    ensures t.Valid() && n <= |ops| && IsRun(states, ops[..n], outs)
    ensures states[0] == old(StateOf(t)) && states[n] == StateOf(t)
    ensures n < |ops| ==> Stuck(t, ops[n])
  {
    hide TableOk, LiveMap, LendsMatch, Step;
    n, outs, states := 0, [], [StateOf(t)];
    while n < |ops| && !Stuck(t, ops[n])
      invariant t.Valid() && n <= |ops| && IsRun(states, ops[..n], outs)
      invariant states[0] == old(StateOf(t)) && states[n] == StateOf(t)
    {
      var out := Perform(t, ops[n]);
      n, outs, states := n + 1, outs + [out], states + [StateOf(t)];
    }
  }

  // ----- every run -----

  ghost predicate Retired(s: TableState, h: Handle) {
    h in s.issued && h !in s.live
  }

  /** No slot has been allocated more than 2^32 times, so no generation has come round again. */
  ghost predicate NotRecycled(s: TableState) {
    forall i :: 0 <= i < |s.uses| ==> s.uses[i] <= TWO_32
  }

  lemma StepGrows(s: TableState, op: Op, out: Outcome, s': TableState)
    requires Step(s, op, out, s')
    ensures |s.uses| <= |s'.uses| && s.issued <= s'.issued
    ensures forall i :: 0 <= i < |s.uses| ==> s.uses[i] <= s'.uses[i]
  {
  }

  lemma {:induction false} EarlierNotRecycled(states: seq<TableState>, ops: seq<Op>, outs: seq<Outcome>, i: nat)
    requires IsRun(states, ops, outs) && i <= |ops| && NotRecycled(states[|ops|])
    ensures NotRecycled(states[i])
    decreases |ops| - i
  {
    if i < |ops| {
      EarlierNotRecycled(states, ops, outs, i + 1);
      StepGrows(states[i], ops[i], outs[i], states[i + 1]);
    }
  }

  lemma StepKeepsRetired(s: TableState, op: Op, out: Outcome, s': TableState, h: Handle)
    requires Step(s, op, out, s') && NotRecycled(s') && Retired(s, h)
    ensures Retired(s', h) && out != Issued(h)
  {
    if op.New? {
      var i := out.issued.index;
      assert s'.uses[i] <= TWO_32 && (i < |s.uses| ==> s'.uses[i] == s.uses[i] + 1);
    }
  }

  lemma {:induction false} StaysRetired(states: seq<TableState>, ops: seq<Op>, outs: seq<Outcome>, i: nat, j: nat, h: Handle)
    requires IsRun(states, ops, outs) && NotRecycled(states[|ops|])
    requires i <= j <= |ops| && Retired(states[i], h)
    ensures Retired(states[j], h)
    ensures j < |ops| ==> outs[j] != Issued(h)
  {
    if j < |ops| {
      EarlierNotRecycled(states, ops, outs, j + 1);
    }
    if i == j {
      if j < |ops| {
        StepKeepsRetired(states[j], ops[j], outs[j], states[j + 1], h);
      }
    } else {
      StaysRetired(states, ops, outs, i, j - 1, h);
      EarlierNotRecycled(states, ops, outs, j);
      StepKeepsRetired(states[j - 1], ops[j - 1], outs[j - 1], states[j], h);
      if j < |ops| {
        StepKeepsRetired(states[j], ops[j], outs[j], states[j + 1], h);
      }
    }
  }

  lemma {:induction false} IssuedGrows(states: seq<TableState>, ops: seq<Op>, outs: seq<Outcome>, i: nat, j: nat)
    requires IsRun(states, ops, outs) && i <= j <= |ops|
    ensures states[i].issued <= states[j].issued
    decreases j - i
  {
    if i < j {
      IssuedGrows(states, ops, outs, i, j - 1);
      StepGrows(states[j - 1], ops[j - 1], outs[j - 1], states[j]);
    }
  }

  lemma {:induction false} LiveWasIssued(states: seq<TableState>, ops: seq<Op>, outs: seq<Outcome>, i: nat)
    requires IsRun(states, ops, outs) && states[0].live.Keys <= states[0].issued && i <= |ops|
    ensures states[i].live.Keys <= states[i].issued
  {
    if i > 0 {
      LiveWasIssued(states, ops, outs, i - 1);
      assert Step(states[i - 1], ops[i - 1], outs[i - 1], states[i]);
    }
  }

  lemma {:induction false} IssuedHasCause(states: seq<TableState>, ops: seq<Op>, outs: seq<Outcome>, i: nat, h: Handle)
    requires IsRun(states, ops, outs) && states[0].issued == {} && i <= |ops| && h in states[i].issued
    ensures exists k :: 0 <= k < i && outs[k] == Issued(h)
  {
    assert Step(states[i - 1], ops[i - 1], outs[i - 1], states[i]);
    if outs[i - 1] != Issued(h) {
      IssuedHasCause(states, ops, outs, i - 1, h);
    }
  }

  lemma NoSecondIssue(states: seq<TableState>, ops: seq<Op>, outs: seq<Outcome>, i: nat, j: nat)
    requires IsRun(states, ops, outs) && NotRecycled(states[|ops|])
    requires i < j < |ops| && outs[i].Issued?
    ensures outs[j] != outs[i]
  {
    var h := outs[i].issued;
    assert Step(states[i], ops[i], outs[i], states[i + 1]);
    IssuedGrows(states, ops, outs, i + 1, j);
    assert Step(states[j], ops[j], outs[j], states[j + 1]);
    if h !in states[j].live {
      StaysRetired(states, ops, outs, j, j, h);
    }
  }

  lemma {:induction false} RecycledStep(states: seq<TableState>, ops: seq<Op>, outs: seq<Outcome>, n: nat) returns (j: nat)
    requires IsRun(states, ops, outs) && n <= |ops|
    requires NotRecycled(states[0]) && !NotRecycled(states[n])
    ensures j < n && NotRecycled(states[j]) && !NotRecycled(states[j + 1])
  {
    if NotRecycled(states[n - 1]) {
      j := n - 1;
    } else {
      j := RecycledStep(states, ops, outs, n - 1);
    }
  }

  /** From an empty table a handle is issued twice in a run exactly when some slot was allocated over 2^32 times. */
  lemma IssuedTwiceIffRecycled(states: seq<TableState>, ops: seq<Op>, outs: seq<Outcome>)
    requires IsRun(states, ops, outs) && states[0] == TableState(map[], [], {})
    ensures (exists i, j :: 0 <= i < j < |ops| && outs[i].Issued? && outs[j] == outs[i])
            <==> !NotRecycled(states[|ops|])
  {
    if NotRecycled(states[|ops|]) {
      forall i, j | 0 <= i < j < |ops| && outs[i].Issued? ensures outs[j] != outs[i] {
        NoSecondIssue(states, ops, outs, i, j);
      }
    } else {
      var j := RecycledStep(states, ops, outs, |ops|);
      assert Step(states[j], ops[j], outs[j], states[j + 1]);
      var h := outs[j].issued;
      assert h in states[j].issued;
      IssuedHasCause(states, ops, outs, j, h);
    }
  }

  /** Once removed, a handle is refused by every later operation, whatever was allocated in its slot. */
  lemma RemovedForever(states: seq<TableState>, ops: seq<Op>, outs: seq<Outcome>, i: nat, j: nat, h: Handle)
    requires IsRun(states, ops, outs) && NotRecycled(states[|ops|])
    requires states[0].live.Keys <= states[0].issued
    requires i < j < |ops| && ops[i] == Remove(h) && outs[i].Found?
    requires !ops[j].New? && ops[j].h == h
    ensures outs[j] == Refused(InvalidHandle) && states[j + 1] == states[j]
  {
    assert Step(states[i], ops[i], outs[i], states[i + 1]);
    LiveWasIssued(states, ops, outs, i);
    StaysRetired(states, ops, outs, i + 1, j, h);
    assert Step(states[j], ops[j], outs[j], states[j + 1]);
  }
}
