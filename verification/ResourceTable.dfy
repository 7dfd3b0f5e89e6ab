// The handle table: slots with a generation counter each and an intrusive free list.

module ResourceTables {
  import opened Words
  import opened Wrappers

  const MAX_TABLE_LENGTH: nat := 0xFFF_FFFF

  datatype Error =
    | InvalidHandle
    | ResourceInUse
    | NoBorrowsToDecrement
    | ResourceTypeMismatch
    | Reentrance
    | TableFull

  // ----- handles -----

  datatype Handle = Handle(generation: uint32, index: uint32)

  /** The 64-bit encoding: generation in the upper half, index in the lower. */
  function HandleBits(h: Handle): uint64 {
    h.generation * TWO_32 + h.index
  }

  function HandleOfBits(bits: uint64): Handle {
    Handle(bits / TWO_32, bits % TWO_32)
  }

  lemma HandleBitsBijective(h: Handle, bits: uint64)
    ensures HandleOfBits(HandleBits(h)) == h
    ensures HandleBits(HandleOfBits(bits)) == bits
    ensures bits < TWO_32 ==> HandleOfBits(bits) == Handle(0, bits)
  {
  }

  // ----- entries -----

  /** What the source keeps in an `any`: only the two integer cases are ever inspected. */
  datatype Rep = U32Rep(u: uint32) | IntRep(i: int) | OtherRep(tag: nat)

  datatype HandleEntry = HandleEntry(rt: uint32, rep: Rep, own: bool, numLends: uint32)

  const NO_ENTRY := HandleEntry(0, OtherRep(0), false, 0)

  datatype TableEntry = TableEntry(occupied: bool, generation: uint32, entry: HandleEntry, nextFree: int)

  ghost predicate Distinct<T>(s: seq<T>) {
    forall i, j :: 0 <= i < j < |s| ==> s[i] != s[j]
  }

  // ----- the slot array as a value -----

  /** Following nextFree from freeHead visits the slots of freeList in order and ends at -1. */
  ghost predicate Linked(entries: seq<TableEntry>, freeHead: int, freeList: seq<nat>) {
    && freeHead == NextFree(freeList, 0)
    && forall k :: 0 <= k < |freeList| ==>
         freeList[k] < |entries| && entries[freeList[k]].nextFree == NextFree(freeList, k + 1)
  }

  ghost function NextFree(freeList: seq<nat>, k: nat): int {
    if k < |freeList| then freeList[k] else -1
  }

  /** The list holds exactly the free slots, once each. */
  ghost predicate Covers(entries: seq<TableEntry>, freeList: seq<nat>) {
    && Distinct(freeList)
    && (forall i :: 0 <= i < |entries| ==> (entries[i].occupied <==> i !in freeList))
    && (forall i :: i in freeList ==> i < |entries|)
  }

  /** Slot i has been allocated uses[i] times and carries the generation of its last allocation. */
  ghost predicate GenerationsOk(entries: seq<TableEntry>, uses: seq<nat>, issued: set<Handle>) {
    && |uses| == |entries|
    && (forall i :: 0 <= i < |entries| ==> uses[i] >= 1 && entries[i].generation == (uses[i] - 1) % TWO_32)
    && (forall h :: h in issued <==> h.index < |uses| && h.generation < uses[h.index])
  }

  predicate LiveIn(entries: seq<TableEntry>, h: Handle) {
    && h.index < |entries|
    && entries[h.index].generation == h.generation
    && entries[h.index].occupied
  }

  /** The map a slot array refines: live handles and their entries. */
  ghost function LiveMap(entries: seq<TableEntry>): (m: map<Handle, HandleEntry>)
    requires |entries| <= TWO_31
    ensures forall h :: h in m <==> LiveIn(entries, h)
    ensures forall h :: h in m ==> LiveIn(entries, h) && m[h] == entries[h.index].entry
  {
    map h | h in (set i | 0 <= i < |entries| && entries[i].occupied :: Handle(entries[i].generation, i))
      :: entries[h.index].entry
  }

  lemma LiveMapAllocate(entries: seq<TableEntry>, i: nat, slot: TableEntry)
    requires i < |entries| <= TWO_31 && !entries[i].occupied && slot.occupied
    ensures Handle(slot.generation, i) !in LiveMap(entries)
    ensures LiveMap(entries[i := slot]) == LiveMap(entries)[Handle(slot.generation, i) := slot.entry]
  {
    assert forall h :: LiveIn(entries[i := slot], h) <==> LiveIn(entries, h) || h == Handle(slot.generation, i);
  }

  lemma LiveMapRelease(entries: seq<TableEntry>, i: nat, slot: TableEntry)
    requires i < |entries| <= TWO_31 && !slot.occupied
    ensures LiveMap(entries[i := slot]) == LiveMap(entries) - {Handle(entries[i].generation, i)}
  {
    assert forall h :: LiveIn(entries[i := slot], h) <==> LiveIn(entries, h) && h != Handle(entries[i].generation, i);
  }

  lemma LiveMapUpdate(entries: seq<TableEntry>, i: nat, e: HandleEntry)
    requires i < |entries| <= TWO_31 && entries[i].occupied
    ensures LiveMap(entries[i := entries[i].(entry := e)]) == LiveMap(entries)[Handle(entries[i].generation, i) := e]
  {
    assert forall h :: LiveIn(entries[i := entries[i].(entry := e)], h) <==> LiveIn(entries, h);
  }

  lemma LiveMapGrow(entries: seq<TableEntry>, slot: TableEntry)
    requires |entries| < TWO_31 && slot.occupied
    ensures LiveMap(entries + [slot]) == LiveMap(entries)[Handle(slot.generation, |entries|) := slot.entry]
    ensures Handle(slot.generation, |entries|) !in LiveMap(entries)
  {
    assert forall h :: LiveIn(entries + [slot], h) <==> LiveIn(entries, h) || h == Handle(slot.generation, |entries|);
  }

  lemma GenerationAfterGrow(entries: seq<TableEntry>, uses: seq<nat>, issued: set<Handle>, slot: TableEntry)
    requires GenerationsOk(entries, uses, issued) && |entries| < TWO_31 && slot.generation == 0
    ensures GenerationsOk(entries + [slot], uses + [1], issued + {Handle(0, |entries|)})
    ensures Handle(0, |entries|) !in issued
  {
  }

  lemma PopFreeSlot(entries: seq<TableEntry>, freeList: seq<nat>, slot: TableEntry)
    requires freeList != [] && Linked(entries, freeList[0], freeList) && Covers(entries, freeList) && slot.occupied
    ensures Linked(entries[freeList[0] := slot], entries[freeList[0]].nextFree, freeList[1..])
    ensures Covers(entries[freeList[0] := slot], freeList[1..])
  {
    var rest := freeList[1..];
    assert forall i :: i in freeList <==> i == freeList[0] || i in rest by {
      assert freeList == [freeList[0]] + rest;
    }
    assert freeList[0] !in rest;
    assert forall k :: 0 <= k <= |rest| ==> NextFree(rest, k) == NextFree(freeList, k + 1);
  }

  lemma PushFreeSlot(entries: seq<TableEntry>, freeHead: int, freeList: seq<nat>, i: nat, slot: TableEntry)
    requires Linked(entries, freeHead, freeList) && Covers(entries, freeList)
    requires i < |entries| && entries[i].occupied && !slot.occupied && slot.nextFree == freeHead
    ensures Linked(entries[i := slot], i, [i] + freeList)
    ensures Covers(entries[i := slot], [i] + freeList)
  {
    var fl := [i] + freeList;
    assert forall k :: 0 <= k <= |freeList| ==> NextFree(fl, k + 1) == NextFree(freeList, k);
  }

  lemma AppendSlot(entries: seq<TableEntry>, slot: TableEntry)
    requires Linked(entries, -1, []) && Covers(entries, []) && slot.occupied
    ensures Linked(entries + [slot], -1, []) && Covers(entries + [slot], [])
  {
  }

  lemma GenerationAfterReuse(entries: seq<TableEntry>, uses: seq<nat>, issued: set<Handle>, i: nat, slot: TableEntry)
    requires GenerationsOk(entries, uses, issued)
    requires i < |entries| < TWO_32 && slot.generation == WrapU32(entries[i].generation + 1)
    ensures var h := Handle(slot.generation, i);
      && GenerationsOk(entries[i := slot], uses[i := uses[i] + 1], issued + {h})
      && (h in issued <==> uses[i] >= TWO_32)
  {
    var n := uses[i];
    assert slot.generation == n % TWO_32;
    assert n < TWO_32 ==> slot.generation == n;
  }

  // ----- the table as a value: what one allocation and one removal do -----

  /** Ghost history: allocations per slot, the slots of the free list in order, every handle returned by New. */
  datatype History = History(uses: seq<nat>, freeList: seq<nat>, issued: set<Handle>)

  ghost predicate TableOk(entries: seq<TableEntry>, freeHead: int, hist: History) {
    && |entries| <= TWO_31
    && Linked(entries, freeHead, hist.freeList)
    && Covers(entries, hist.freeList)
    && GenerationsOk(entries, hist.uses, hist.issued)
  }

  lemma FreeHead(entries: seq<TableEntry>, freeHead: int, hist: History)
    requires TableOk(entries, freeHead, hist)
    ensures |entries| == |hist.uses| && |entries| <= TWO_31 && freeHead < |entries|
    ensures freeHead < 0 ==> freeHead == -1 && hist.freeList == []
    ensures freeHead >= 0 ==>
      && hist.freeList != [] && freeHead == hist.freeList[0]
      && freeHead < |entries| && !entries[freeHead].occupied
  {
    assert freeHead >= 0 ==> hist.freeList[0] in hist.freeList;
  }

  /** The handle an allocation returns: the head of the free list one generation on, or a new slot. */
  function NextHandle(entries: seq<TableEntry>, freeHead: int): Handle
    requires |entries| <= TWO_31 && freeHead < |entries|
  {
    if freeHead >= 0 then Handle(WrapU32(entries[freeHead].generation + 1), freeHead) else Handle(0, |entries|)
  }

  /** Allocation counts after one more allocation from slot i. */
  ghost function Bump(uses: seq<nat>, i: nat): seq<nat>
    requires i <= |uses|
  {
    if i < |uses| then uses[i := uses[i] + 1] else uses + [1]
  }

  ghost predicate HistOk(hist: History) {
    |hist.uses| < TWO_32 && (hist.freeList != [] ==> hist.freeList[0] < |hist.uses|)
  }

  /** The handle that comes next, from the history alone: the head of the free list, or a new slot. */
  ghost function NextOf(hist: History): (h: Handle)
    requires HistOk(hist)
    ensures h.index <= |hist.uses|
  {
    if hist.freeList != [] then Handle(hist.uses[hist.freeList[0]] % TWO_32, hist.freeList[0]) else Handle(0, |hist.uses|)
  }

  ghost function Allocated(hist: History): History
    requires HistOk(hist)
  {
    var h := NextOf(hist);
    History(Bump(hist.uses, h.index), if hist.freeList != [] then hist.freeList[1..] else [], hist.issued + {h})
  }

  ghost function Freed(hist: History, h: Handle): History {
    hist.(freeList := [h.index] + hist.freeList)
  }

  lemma NextHandleIs(entries: seq<TableEntry>, freeHead: int, hist: History)
    requires TableOk(entries, freeHead, hist)
    ensures HistOk(hist)
    ensures freeHead < |entries| && NextHandle(entries, freeHead) == NextOf(hist)
    ensures freeHead < 0 <==> hist.freeList == []
  {
    FreeHead(entries, freeHead, hist);
    if freeHead >= 0 {
      hide Linked, Covers;
      NextGeneration(hist.uses[freeHead]);
    }
  }

  lemma NextGeneration(n: nat)
    requires n >= 1
    ensures WrapU32((n - 1) % TWO_32 + 1) == n % TWO_32
  {
  }

  ghost function Reused(hist: History, i: nat, h: Handle): History
    requires i < |hist.uses| && hist.freeList != []
  {
    History(Bump(hist.uses, i), hist.freeList[1..], hist.issued + {h})
  }

  lemma ReuseSlot(entries: seq<TableEntry>, i: nat, hist: History, slot: TableEntry)
    requires TableOk(entries, i, hist)
    requires i < |entries| && slot.occupied && slot.generation == WrapU32(entries[i].generation + 1)
    ensures |entries| == |hist.uses| && hist.freeList != []
    ensures var h := Handle(slot.generation, i);
      && TableOk(entries[i := slot], entries[i].nextFree, Reused(hist, i, h))
      && (h in hist.issued <==> hist.uses[i] >= TWO_32)
      && h !in LiveMap(entries)
      && LiveMap(entries[i := slot]) == LiveMap(entries)[h := slot.entry]
  {
    hide Linked, Covers, GenerationsOk, LiveMap;
    FreeHead(entries, i, hist);
    PopFreeSlot(entries, hist.freeList, slot);
    GenerationAfterReuse(entries, hist.uses, hist.issued, i, slot);
    LiveMapAllocate(entries, i, slot);
  }

  lemma AddSlot(entries: seq<TableEntry>, hist: History, slot: TableEntry)
    requires TableOk(entries, -1, hist)
    requires |entries| < TWO_31 && slot.occupied && slot.generation == 0
    ensures var h := Handle(0, |entries|);
      && |hist.uses| == |entries|
      && TableOk(entries + [slot], -1, hist.(uses := Bump(hist.uses, |entries|), issued := hist.issued + {h}))
      && h !in hist.issued
      && h !in LiveMap(entries)
      && LiveMap(entries + [slot]) == LiveMap(entries)[h := slot.entry]
  {
    hide Linked, Covers, GenerationsOk, LiveMap;
    FreeHead(entries, -1, hist);
    AppendSlot(entries, slot);
    GenerationAfterGrow(entries, hist.uses, hist.issued, slot);
    LiveMapGrow(entries, slot);
  }

  lemma FreeSlot(entries: seq<TableEntry>, freeHead: int, hist: History, i: nat, slot: TableEntry)
    requires TableOk(entries, freeHead, hist)
    requires i < |entries| && entries[i].occupied
    requires !slot.occupied && slot.generation == entries[i].generation && slot.nextFree == freeHead
    ensures TableOk(entries[i := slot], i, hist.(freeList := [i] + hist.freeList))
    ensures LiveMap(entries[i := slot]) == LiveMap(entries) - {Handle(entries[i].generation, i)}
  {
    PushFreeSlot(entries, freeHead, hist.freeList, i, slot);
    LiveMapRelease(entries, i, slot);
  }

  lemma UpdateSlot(entries: seq<TableEntry>, freeHead: int, hist: History, i: nat, e: HandleEntry)
    requires TableOk(entries, freeHead, hist)
    requires i < |entries| && entries[i].occupied
    ensures TableOk(entries[i := entries[i].(entry := e)], freeHead, hist)
    ensures LiveMap(entries[i := entries[i].(entry := e)]) == LiveMap(entries)[Handle(entries[i].generation, i) := e]
  {
    LiveMapUpdate(entries, i, e);
  }

  /** Counting: live handles are the slots the free list does not hold. */
  lemma LiveCount(entries: seq<TableEntry>, freeHead: int, hist: History)
    requires TableOk(entries, freeHead, hist)
    ensures |LiveMap(entries)| == |entries| - |hist.freeList|
  {
    hide Linked, GenerationsOk;
    var busy := Below(|entries|) - Elements(hist.freeList);
    DistinctSize(hist.freeList);
    assert Below(|entries|) == busy + Elements(hist.freeList);
    SameSize(busy, LiveMap(entries).Keys, entries);
  }

  ghost function Below(n: nat): (s: set<nat>)
    ensures forall i :: i in s <==> 0 <= i < n
    ensures |s| == n
  {
    if n == 0 then {} else Below(n - 1) + {n - 1}
  }

  ghost function Elements(s: seq<nat>): (e: set<nat>)
    ensures forall i :: i in e <==> i in s
  {
    if s == [] then {} else assert s == [s[0]] + s[1..]; {s[0]} + Elements(s[1..])
  }

  lemma DistinctSize(s: seq<nat>)
    requires Distinct(s)
    ensures |Elements(s)| == |s|
  {
    if s != [] {
      assert s[0] !in s[1..];
      DistinctSize(s[1..]);
    }
  }

  lemma SameSize(busy: set<nat>, live: set<Handle>, entries: seq<TableEntry>)
    requires |entries| <= TWO_31
    requires forall i :: i in busy ==> i < |entries|
    requires forall h :: h in live <==> h.index in busy && h.generation == entries[h.index].generation
    ensures |busy| == |live|
  {
    if busy == {} {
      assert live == {};
    } else {
      var i :| i in busy;
      var h := Handle(entries[i].generation, i);
      assert h in live;
      SameSize(busy - {i}, live - {h}, entries);
    }
  }

  /** Occurrences of h over all lender lists. */
  ghost function LendSum(lists: seq<seq<Handle>>, h: Handle): nat {
    if lists == [] then 0 else multiset(lists[0])[h] + LendSum(lists[1..], h)
  }

  lemma {:induction false} LendSumAppend(lists: seq<seq<Handle>>, l: seq<Handle>, h: Handle)
    ensures LendSum(lists + [l], h) == LendSum(lists, h) + multiset(l)[h]
  {
    if lists == [] {
      assert [l][1..] == [];
    } else {
      assert (lists + [l])[1..] == lists[1..] + [l];
      LendSumAppend(lists[1..], l, h);
    }
  }

  /** When one lender list changes, the sum moves by what that list gained or lost. */
  lemma {:induction false} LendSumUpdate(lists: seq<seq<Handle>>, k: nat, l: seq<Handle>, h: Handle)
    requires k < |lists|
    ensures LendSum(lists[k := l], h) + multiset(lists[k])[h] == LendSum(lists, h) + multiset(l)[h]
    ensures multiset(lists[k])[h] <= LendSum(lists, h)
  {
    if k == 0 {
      assert lists[k := l][1..] == lists[1..];
    } else {
      assert lists[k := l][1..] == lists[1..][k - 1 := l];
      LendSumUpdate(lists[1..], k - 1, l, h);
    }
  }

  ghost function LendsIn(live: map<Handle, HandleEntry>, h: Handle): nat {
    if h in live then live[h].numLends else 0
  }

  /** The counters of a table agree with the lender lists of all scopes. */
  ghost predicate LendsMatch(live: map<Handle, HandleEntry>, lists: seq<seq<Handle>>) {
    forall h :: LendSum(lists, h) == LendsIn(live, h)
  }

  lemma MatchAt(live: map<Handle, HandleEntry>, lists: seq<seq<Handle>>, h: Handle)
    requires LendsMatch(live, lists)
    ensures LendSum(lists, h) == LendsIn(live, h)
  {
  }

  lemma MatchAfterNew(live: map<Handle, HandleEntry>, lists: seq<seq<Handle>>, h: Handle, e: HandleEntry)
    requires LendsMatch(live, lists) && h !in live && e.numLends == 0
    ensures LendsMatch(live[h := e], lists)
  {
    forall h' ensures LendSum(lists, h') == LendsIn(live[h := e], h') {
      assert LendSum(lists, h') == LendsIn(live, h');
    }
  }

  lemma MatchAfterRemove(live: map<Handle, HandleEntry>, lists: seq<seq<Handle>>, h: Handle)
    requires LendsMatch(live, lists) && LendsIn(live, h) == 0
    ensures LendsMatch(live - {h}, lists)
  {
    forall h' ensures LendSum(lists, h') == LendsIn(live - {h}, h') {
      assert LendSum(lists, h') == LendsIn(live, h');
    }
  }

  lemma MatchAfterOpen(live: map<Handle, HandleEntry>, lists: seq<seq<Handle>>)
    requires LendsMatch(live, lists)
    ensures LendsMatch(live, lists + [[]])
  {
    forall h ensures LendSum(lists + [[]], h) == LendsIn(live, h) {
      LendSumAppend(lists, [], h);
    }
  }

  function Lent(e: HandleEntry): HandleEntry {
    e.(numLends := WrapU32(e.numLends + 1))
  }

  /** Recording one more lend keeps the match exactly when the 32-bit counter does not wrap. */
  lemma MatchAfterLend(live: map<Handle, HandleEntry>, lists: seq<seq<Handle>>, k: nat, h: Handle)
    requires LendsMatch(live, lists) && k < |lists| && h in live
    ensures LendsMatch(live[h := Lent(live[h])], lists[k := lists[k] + [h]]) <==> live[h].numLends + 1 < TWO_32
  {
    var live', lists' := live[h := Lent(live[h])], lists[k := lists[k] + [h]];
    forall h' ensures LendSum(lists', h') == LendsIn(live, h') + (if h' == h then 1 else 0) {
      LendSumUpdate(lists, k, lists[k] + [h], h');
      assert LendSum(lists, h') == LendsIn(live, h');
    }
    assert LendSum(lists', h) == LendsIn(live', h) <==> live[h].numLends + 1 < TWO_32;
  }

  /** live' is live after the lends counted by `returned` have been given back. */
  ghost predicate Returned(live: map<Handle, HandleEntry>, live': map<Handle, HandleEntry>, returned: multiset<Handle>) {
    && live'.Keys == live.Keys
    && forall h :: h in live ==>
         returned[h] <= live[h].numLends && live'[h] == live[h].(numLends := live[h].numLends - returned[h])
  }

  lemma MatchAfterRelease(live: map<Handle, HandleEntry>, live': map<Handle, HandleEntry>, lists: seq<seq<Handle>>, k: nat)
    requires LendsMatch(live, lists) && k < |lists| && Returned(live, live', multiset(lists[k]))
    ensures LendsMatch(live', lists[k := []])
  {
    forall h ensures LendSum(lists[k := []], h) == LendsIn(live', h) {
      LendSumUpdate(lists, k, [], h);
      assert LendSum(lists, h) == LendsIn(live, h);
    }
  }

  lemma LendersAreLive(live: map<Handle, HandleEntry>, lists: seq<seq<Handle>>, k: nat, h: Handle)
    requires LendsMatch(live, lists) && k < |lists|
    ensures multiset(lists[k])[h] <= LendsIn(live, h)
  {
    LendSumUpdate(lists, k, [], h);
    assert LendSum(lists, h) == LendsIn(live, h);
  }

  lemma NothingReturned(live: map<Handle, HandleEntry>)
    ensures Returned(live, live, multiset{})
  {
  }

  lemma OneMoreReturned(live: map<Handle, HandleEntry>, mid: map<Handle, HandleEntry>, l: seq<Handle>, i: nat)
    requires i < |l| && multiset(l)[l[i]] <= LendsIn(live, l[i])
    requires Returned(live, mid, multiset(l[..i]))
    ensures l[i] in mid && mid[l[i]].numLends > 0
    ensures Returned(live, mid[l[i] := mid[l[i]].(numLends := mid[l[i]].numLends - 1)], multiset(l[..i + 1]))
  {
    assert l[..i + 1] == l[..i] + [l[i]];
    assert l == l[..i + 1] + l[i + 1..];
    assert multiset(l)[l[i]] >= multiset(l[..i + 1])[l[i]] == multiset(l[..i])[l[i]] + 1;
  }

  ghost function LenderLists(scopes: seq<BorrowScope>): (ls: seq<seq<Handle>>)
    reads scopes
    ensures |ls| == |scopes| && forall i :: 0 <= i < |ls| ==> ls[i] == scopes[i].lenders
  {
    seq(|scopes|, i requires 0 <= i < |scopes| reads scopes => scopes[i].lenders)
  }

  ghost function TotalLends(scopes: seq<BorrowScope>, h: Handle): nat
    reads scopes
  {
    LendSum(LenderLists(scopes), h)
  }

  class ResourceTable {
    var entries: seq<TableEntry>
    var freeHead: int
    ghost var hist: History
    ghost var scopes: seq<BorrowScope>     // every borrow scope created over this table

    ghost predicate Valid()
      reads this
    {
      && |entries| <= TWO_31 && freeHead < |entries|
      && TableOk(entries, freeHead, hist)
    }

    ghost function Live(): (m: map<Handle, HandleEntry>)
      requires |entries| <= TWO_31
      reads this
    {
      LiveMap(entries)
    }

    /** What counting lends never touches. */
    ghost function Shape(): (History, seq<BorrowScope>, int, int)
      reads this
    {
      (hist, scopes, |entries|, freeHead)
    }

    /** Each live handle's counter is its number of occurrences in all lender lists; dead handles have none. */
    ghost predicate Balanced()
      requires |entries| <= TWO_31
      reads this, scopes
    {
      && Distinct(scopes)
      && (forall s :: s in scopes ==> s.table == this)
      && LendsMatch(Live(), LenderLists(scopes))
    }

    constructor ()
      ensures entries == [] && freeHead == -1
      ensures Valid() && Live() == map[] && hist == History([], [], {})
      ensures scopes == [] && Balanced()
    {
      entries, freeHead := [], -1;
      hist := History([], [], {});
      scopes := [];
    }

    method NewWithType(rep: Rep, own: bool, rt: uint32) returns (h: Handle)
      requires Valid()
      requires freeHead < 0 ==> |entries| < TWO_31
      modifies this
      ensures Valid()
      ensures h !in old(Live()) && Live() == old(Live())[h := HandleEntry(rt, rep, own, 0)]
      ensures HistOk(old(hist)) && h == NextOf(old(hist)) && hist == Allocated(old(hist))
      ensures hist.issued == old(hist.issued) + {h}
      ensures h.index <= |old(hist.uses)| && hist.uses == Bump(old(hist.uses), h.index)
      ensures old(freeHead) < old(|entries|) && h == NextHandle(old(entries), old(freeHead))
      ensures h in old(hist.issued) <==> h.index < |old(hist.uses)| && old(hist.uses)[h.index] >= TWO_32
      ensures |entries| == |old(entries)| + (if old(freeHead) < 0 then 1 else 0)
      ensures scopes == old(scopes) && (old(Balanced()) ==> Balanced())
    {
      hide TableOk, LiveMap, LendsMatch;
      FreeHead(entries, freeHead, hist);
      NextHandleIs(entries, freeHead, hist);
      var e := HandleEntry(rt, rep, own, 0);
      ghost var live, lists := Live(), LenderLists(scopes);
      if freeHead >= 0 {
        var idx := freeHead;
        var gen := WrapU32(entries[idx].generation + 1);
        var slot := TableEntry(true, gen, e, -1);
        h := Handle(gen, idx);
        ReuseSlot(entries, idx, hist, slot);
        freeHead, entries, hist := entries[idx].nextFree, entries[idx := slot], Reused(hist, idx, h);
      } else {
        var slot := TableEntry(true, 0, e, -1);
        h := Handle(0, |entries|);
        AddSlot(entries, hist, slot);
        entries, hist := entries + [slot], hist.(uses := Bump(hist.uses, |entries|), issued := hist.issued + {h});
      }
      FreeHead(entries, freeHead, hist);
      if LendsMatch(live, lists) {
        MatchAfterNew(live, lists, h, e);
      }
    }

    method New(rep: Rep, own: bool) returns (h: Handle)
      requires Valid()
      requires freeHead < 0 ==> |entries| < TWO_31
      modifies this
      ensures Valid()
      ensures h !in old(Live()) && Live() == old(Live())[h := HandleEntry(0, rep, own, 0)]
      ensures HistOk(old(hist)) && h == NextOf(old(hist)) && hist == Allocated(old(hist))
      ensures hist.issued == old(hist.issued) + {h}
      ensures h.index <= |old(hist.uses)| && hist.uses == Bump(old(hist.uses), h.index)
      ensures old(freeHead) < old(|entries|) && h == NextHandle(old(entries), old(freeHead))
      ensures h in old(hist.issued) <==> h.index < |old(hist.uses)| && old(hist.uses)[h.index] >= TWO_32
      ensures |entries| == |old(entries)| + (if old(freeHead) < 0 then 1 else 0)
      ensures scopes == old(scopes) && (old(Balanced()) ==> Balanced())
    {
      h := NewWithType(rep, own, 0);
    }

    method NewWithLimit(rep: Rep, own: bool, rt: uint32) returns (r: Result<Handle, Error>)
      requires Valid()
      modifies this
      ensures Valid()
      ensures r.Err? ==> r.error == TableFull && Live() == old(Live()) && hist == old(hist) && |entries| == |old(entries)|
      ensures r.Ok? ==> r.value !in old(Live()) && Live() == old(Live())[r.value := HandleEntry(rt, rep, own, 0)]
      ensures old(|entries|) <= MAX_TABLE_LENGTH ==>
        |entries| <= MAX_TABLE_LENGTH && (r.Err? <==> |old(Live())| == MAX_TABLE_LENGTH)
      ensures scopes == old(scopes) && (old(Balanced()) ==> Balanced())
    {
      LiveCount(entries, freeHead, hist);
      hide TableOk, LiveMap;
      if |entries| >= MAX_TABLE_LENGTH && freeHead < 0 {
        return Err(TableFull);
      }
      var h := NewWithType(rep, own, rt);
      r := Ok(h);
    }

    method Get(h: Handle) returns (r: Result<HandleEntry, Error>)
      requires Valid()
      ensures r == if h in Live() then Ok(Live()[h]) else Err(InvalidHandle)
    {
      hide TableOk, LiveMap, LendsMatch;
      if h.index >= |entries| {
        return Err(InvalidHandle);
      }
      var slot := entries[h.index];
      if slot.generation != h.generation {
        return Err(InvalidHandle);
      }
      if !slot.occupied {
        return Err(InvalidHandle);
      }
      r := Ok(slot.entry);
    }

    method Remove(h: Handle) returns (r: Result<HandleEntry, Error>)
      requires Valid()
      modifies this
      ensures Valid()
      ensures r == if h !in old(Live()) then Err(InvalidHandle)
                   else if old(Live())[h].numLends > 0 then Err(ResourceInUse)
                   else Ok(old(Live())[h])
      ensures Live() == if r.Ok? then old(Live()) - {h} else old(Live())
      ensures hist == if r.Ok? then Freed(old(hist), h) else old(hist)
      ensures hist.issued == old(hist.issued) && hist.uses == old(hist.uses) && |entries| == old(|entries|)
      ensures scopes == old(scopes)
      ensures old(Balanced()) ==> Balanced() && (old(TotalLends(scopes, h)) > 0 ==> r == Err(ResourceInUse))
    {
      hide TableOk, LiveMap, LendsMatch;
      ghost var live, lists := Live(), LenderLists(scopes);
      if LendsMatch(live, lists) {
        MatchAt(live, lists, h);
      }
      if h.index >= |entries| {
        return Err(InvalidHandle);
      }
      var slot := entries[h.index];
      if slot.generation != h.generation {
        return Err(InvalidHandle);
      }
      if !slot.occupied {
        return Err(InvalidHandle);
      }
      if slot.entry.numLends > 0 {
        return Err(ResourceInUse);
      }
      r := Ok(slot.entry);
      var freed := TableEntry(false, slot.generation, NO_ENTRY, freeHead);
      FreeSlot(entries, freeHead, hist, h.index, freed);
      assert freed.nextFree == freeHead && ToInt32(h.index) == h.index;
      entries, freeHead := entries[h.index := freed], ToInt32(h.index);
      hist := hist.(freeList := [h.index] + hist.freeList);
      if LendsMatch(live, lists) {
        MatchAfterRemove(live, lists, h);
      }
    }

    method IncrementLends(h: Handle) returns (r: Option<Error>)
      requires Valid()
      modifies this
      ensures Valid()
      ensures r == if h in old(Live()) then None else Some(InvalidHandle)
      ensures Live() == if r == None
                        then old(Live())[h := Lent(old(Live())[h])]
                        else old(Live())
      ensures Shape() == old(Shape())
    {
      hide TableOk, LiveMap, LendsMatch;
      if h.index >= |entries| {
        return Some(InvalidHandle);
      }
      var slot := entries[h.index];
      if slot.generation != h.generation {
        return Some(InvalidHandle);
      }
      if !slot.occupied {
        return Some(InvalidHandle);
      }
      var e := Lent(slot.entry);
      UpdateSlot(entries, freeHead, hist, h.index, e);
      entries := entries[h.index := slot.(entry := e)];
      r := None;
    }

    method DecrementLends(h: Handle) returns (r: Option<Error>)
      requires Valid()
      modifies this
      ensures Valid()
      ensures r == if h !in old(Live()) then Some(InvalidHandle)
                   else if old(Live())[h].numLends == 0 then Some(NoBorrowsToDecrement)
                   else None
      ensures Live() == if r == None
                        then old(Live())[h := old(Live())[h].(numLends := old(Live())[h].numLends - 1)]
                        else old(Live())
      ensures Shape() == old(Shape())
    {
      hide TableOk, LiveMap, LendsMatch;
      if h.index >= |entries| {
        return Some(InvalidHandle);
      }
      var slot := entries[h.index];
      if slot.generation != h.generation {
        return Some(InvalidHandle);
      }
      if !slot.occupied {
        return Some(InvalidHandle);
      }
      if slot.entry.numLends == 0 {
        return Some(NoBorrowsToDecrement);
      }
      var e := slot.entry.(numLends := slot.entry.numLends - 1);
      UpdateSlot(entries, freeHead, hist, h.index, e);
      entries := entries[h.index := slot.(entry := e)];
      r := None;
    }
  }

  class BorrowScope {
    const table: ResourceTable
    var lenders: seq<Handle>

    constructor (table: ResourceTable)
      requires table.Valid() && table.Balanced()
      modifies table
      ensures this.table == table && lenders == []
      ensures table.scopes == old(table.scopes) + [this]
      ensures table.entries == old(table.entries) && table.freeHead == old(table.freeHead) && table.hist == old(table.hist)
      ensures table.Valid() && table.Balanced()
    {
      hide TableOk, LiveMap, LendsMatch;
      this.table := table;
      lenders := [];
      new;
      MatchAfterOpen(table.Live(), LenderLists(table.scopes));
      table.scopes := table.scopes + [this];
      assert LenderLists(table.scopes) == old(LenderLists(table.scopes)) + [[]];
    }

    method AddLender(h: Handle) returns (r: Option<Error>)
      requires table.Valid() && table.Balanced() && this in table.scopes
      modifies this, table
      ensures table.Valid() && table.Shape() == old(table.Shape())
      ensures r == if h in old(table.Live()) then None else Some(InvalidHandle)
      ensures lenders == if r == None then old(lenders) + [h] else old(lenders)
      ensures table.Live() == if r == None then old(table.Live())[h := Lent(old(table.Live())[h])] else old(table.Live())
      ensures table.Balanced() <==> r != None || old(table.Live())[h].numLends + 1 < TWO_32
    {
      hide TableOk, LiveMap, LendsMatch;
      r := table.IncrementLends(h);
      if r != None {
        return;
      }
      ghost var k :| 0 <= k < |table.scopes| && table.scopes[k] == this;
      ghost var lists := LenderLists(table.scopes);
      lenders := lenders + [h];
      MatchAfterLend(old(table.Live()), lists, k, h);
      assert LenderLists(table.scopes) == lists[k := lists[k] + [h]];
    }

    /** The loop of Release: one decrement per lender; on a balanced table none of them can fail. */
    method DecrementAll() returns (r: Option<Error>)
      requires table.Valid() && table.Balanced() && this in table.scopes
      modifies table
      ensures r == None
      ensures table.Valid() && table.Shape() == old(table.Shape())
      ensures Returned(old(table.Live()), table.Live(), multiset(lenders))
    {
      hide TableOk, LiveMap, LendsMatch, Returned;
      ghost var live := table.Live();
      NothingReturned(live);
      forall h ensures multiset(lenders)[h] <= LendsIn(live, h) {
        ghost var k :| 0 <= k < |table.scopes| && table.scopes[k] == this;
        LendersAreLive(live, LenderLists(table.scopes), k, h);
      }
      for i := 0 to |lenders|
        invariant table.Valid() && table.Shape() == old(table.Shape())
        invariant Returned(live, table.Live(), multiset(lenders[..i]))
      {
        OneMoreReturned(live, table.Live(), lenders, i);
        r := table.DecrementLends(lenders[i]);
        if r != None {
          return;
        }
      }
      assert lenders[..|lenders|] == lenders;
      r := None;
    }

    /** Gives back every lend of this scope. */
    method Release() returns (r: Option<Error>)
      requires table.Valid() && table.Balanced() && this in table.scopes
      modifies this, table
      ensures r == None && lenders == []
      ensures table.Valid() && table.Balanced() && table.Shape() == old(table.Shape())
      ensures Returned(old(table.Live()), table.Live(), multiset(old(lenders)))
    {
      hide TableOk, LiveMap, LendsMatch, Returned;
      ghost var live, lists := table.Live(), LenderLists(table.scopes);
      ghost var k :| 0 <= k < |table.scopes| && table.scopes[k] == this;
      r := DecrementAll();
      if r != None {
        return;
      }
      lenders := [];
      MatchAfterRelease(live, table.Live(), lists, k);
      assert LenderLists(table.scopes) == lists[k := []];
    }
  }
}
