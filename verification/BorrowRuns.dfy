// Any interleaving of table operations and borrow scopes over one table.

module BorrowRuns {
  import opened Words
  import opened Wrappers
  import opened ResourceTables

  datatype Op =
    | New(rep: Rep, own: bool, rt: uint32)
    | Remove(h: Handle)
    | Open
    | Lend(scope: nat, h: Handle)
    | Release(scope: nat)

  datatype LendState = LendState(live: map<Handle, HandleEntry>, lists: seq<seq<Handle>>)

  ghost function StateOf(t: ResourceTable): LendState
    requires |t.entries| <= TWO_31
    reads t, t.scopes
  {
    LendState(t.Live(), LenderLists(t.scopes))
  }

  /** What one operation does, in terms of the lender lists alone; a scope number out of range does nothing. */
  ghost predicate Step(s: LendState, op: Op, r: Option<Error>, s': LendState) {
    match op
    case New(rep, own, rt) =>
      r == None && s'.lists == s.lists
      && exists h :: h !in s.live && s'.live == s.live[h := HandleEntry(rt, rep, own, 0)]
    case Remove(h) =>
      && (h !in s.live ==> r == Some(InvalidHandle) && s' == s)
      && (LendSum(s.lists, h) > 0 ==> r == Some(ResourceInUse) && s' == s)
      && (h in s.live && LendSum(s.lists, h) == 0 ==> r == None && s' == s.(live := s.live - {h}))
    case Open =>
      r == None && s' == s.(lists := s.lists + [[]])
    case Lend(k, h) =>
      if k < |s.lists| && h in s.live then
        r == None && s' == LendState(s.live[h := Lent(s.live[h])], s.lists[k := s.lists[k] + [h]])
      else
        (r == if k < |s.lists| then Some(InvalidHandle) else None) && s' == s
    case Release(k) =>
      && r == None
      && s'.lists == (if k < |s.lists| then s.lists[k := []] else s.lists)
      && Returned(s.live, s'.live, if k < |s.lists| then multiset(s.lists[k]) else multiset{})
  }

  /** What the counters and the index range cannot take: a New that needs slot 2^31, or lend number 2^32 of a handle. */
  ghost predicate Stuck(t: ResourceTable, scopes: nat, op: Op)
    requires |t.entries| <= TWO_31
    reads t
  {
    || (op.New? && t.freeHead < 0 && |t.entries| == TWO_31)
    || (op.Lend? && op.scope < scopes && op.h in t.Live() && t.Live()[op.h].numLends == TWO_32 - 1)
  }

  method IsStuck(t: ResourceTable, scopes: nat, op: Op) returns (stuck: bool)
    requires t.Valid()
    ensures stuck <==> Stuck(t, scopes, op)
  {
    hide TableOk, LiveMap;
    stuck := op.New? && t.freeHead < 0 && |t.entries| == TWO_31;
    if op.Lend? && op.scope < scopes {
      var e := t.Get(op.h);
      stuck := e.Ok? && e.value.numLends == TWO_32 - 1;
    }
  }

  method LendTo(t: ResourceTable, scope: BorrowScope, ghost k: nat, h: Handle) returns (r: Option<Error>)
    requires t.Valid() && t.Balanced() && k < |t.scopes| && t.scopes[k] == scope
    requires h in t.Live() ==> t.Live()[h].numLends + 1 < TWO_32
    modifies t, scope
    ensures t.Valid() && t.Balanced() && t.Shape() == old(t.Shape())
    ensures Step(old(StateOf(t)), Lend(k, h), r, StateOf(t))
  {
    hide TableOk, LiveMap, LendsMatch;
    ghost var s := StateOf(t);
    r := scope.AddLender(h);
    assert r == None ==> LenderLists(t.scopes) == s.lists[k := s.lists[k] + [h]];
    assert r != None ==> LenderLists(t.scopes) == s.lists;
  }

  method ReleaseOf(t: ResourceTable, scope: BorrowScope, ghost k: nat) returns (r: Option<Error>)
    requires t.Valid() && t.Balanced() && k < |t.scopes| && t.scopes[k] == scope
    modifies t, scope
    ensures t.Valid() && t.Balanced() && t.Shape() == old(t.Shape())
    ensures Step(old(StateOf(t)), Release(k), r, StateOf(t))
  {
    hide TableOk, LiveMap, LendsMatch, Returned;
    ghost var s := StateOf(t);
    r := scope.Release();
    assert LenderLists(t.scopes) == s.lists[k := []];
  }

  method Perform(t: ResourceTable, scopes: seq<BorrowScope>, op: Op) returns (r: Option<Error>, scopes': seq<BorrowScope>)
    requires t.Valid() && t.Balanced() && scopes == t.scopes && !Stuck(t, |scopes|, op)
    modifies t, scopes
    ensures t.Valid() && t.Balanced() && scopes' == t.scopes
    ensures forall k :: 0 <= k < |scopes'| ==> scopes'[k] in scopes || fresh(scopes'[k])
    ensures Step(old(StateOf(t)), op, r, StateOf(t))
  {
    hide TableOk, LiveMap, LendsMatch, Returned;
    ghost var s := StateOf(t);
    r, scopes' := None, scopes;
    match op
    case New(rep, own, rt) =>
      var h := t.NewWithType(rep, own, rt);
      assert h !in s.live;
    case Remove(h) =>
      MatchAt(s.live, s.lists, h);
      var e := t.Remove(h);
      r := if e.Ok? then None else Some(e.error);
    case Open =>
      var scope := new BorrowScope(t);
      scopes' := scopes + [scope];
      assert LenderLists(t.scopes) == s.lists + [[]];
    case Lend(k, h) =>
      if k < |scopes| {
        r := LendTo(t, scopes[k], k, h);
      }
    case Release(k) =>
      NothingReturned(s.live);
      if k < |scopes| {
        r := ReleaseOf(t, scopes[k], k);
      }
  }

  /** A run of the operations from an empty table: every step is one of the table's, and the lends match the lists in every state. */
  ghost predicate Recorded(ops: seq<Op>, rs: seq<Option<Error>>, states: seq<LendState>) {
    && |rs| == |ops| && |states| == |ops| + 1 && states[0] == LendState(map[], [])
    && (forall i :: 0 <= i < |states| ==> LendsMatch(states[i].live, states[i].lists))
    && forall i :: 0 <= i < |ops| ==> Step(states[i], ops[i], rs[i], states[i + 1])
  }

  lemma RecordedNone(s: LendState)
    requires s == LendState(map[], []) && LendsMatch(s.live, s.lists)
    ensures Recorded([], [], [s])
  {
  }

  lemma RecordedNext(ops: seq<Op>, i: nat, rs: seq<Option<Error>>, states: seq<LendState>, r: Option<Error>, s: LendState)
    requires i < |ops| && |states| == i + 1 && Recorded(ops[..i], rs, states) && Step(states[i], ops[i], r, s) && LendsMatch(s.live, s.lists)
    ensures Recorded(ops[..i + 1], rs + [r], states + [s])
  {
    hide Step, LendsMatch;
  }

  /**
    Every interleaving of the operations by any number of scopes, however long: the counters match the
    lender lists in every state, no Release fails and no lent handle is removed. Only a full table or
    the 2^32nd lend of one handle ends the run early.
   */
  method PerformAll(ops: seq<Op>) returns (n: nat, rs: seq<Option<Error>>, t: ResourceTable, ghost states: seq<LendState>)
    ensures n <= |ops| && Recorded(ops[..n], rs, states)
    ensures t.Valid() && states[n] == StateOf(t) && (n < |ops| ==> Stuck(t, |t.scopes|, ops[n]))
  {
    hide TableOk, LiveMap, LendsMatch, Step, Stuck, Recorded;
    t := new ResourceTable();
    var scopes := [];
    n, rs, states := 0, [], [StateOf(t)];
    RecordedNone(StateOf(t));
    assert ops[..0] == [];
    while n < |ops|
      invariant t.Valid() && t.Balanced() && scopes == t.scopes && n <= |ops|
      invariant fresh(t) && forall k :: 0 <= k < |scopes| ==> fresh(scopes[k])
      invariant |states| == n + 1 && states[n] == StateOf(t) && Recorded(ops[..n], rs, states)
    {
      var stuck := IsStuck(t, |scopes|, ops[n]);
      if stuck {
        return;
      }
      var r;
      r, scopes := Perform(t, scopes, ops[n]);
      RecordedNext(ops, n, rs, states, r, StateOf(t));
      n, rs, states := n + 1, rs + [r], states + [StateOf(t)];
    }
  }
}
