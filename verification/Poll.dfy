// poll_oneoff: one pass over the subscriptions that packs events into the guest's output area.

module PollEvents {
  import opened Words
  import opened Wrappers
  import opened Values
  import opened LittleEndian
  import opened Buffers

  const SUBSCRIPTION_SIZE := 48
  const EVENT_SIZE := 32
  const ERRNO_BADF: byte := 8
  const ERRNO_NOTSUP: byte := 58
  const MAX_DURATION: int64 := 0x7fff_ffff_ffff_ffff

  datatype Errno = EINVAL | EFAULT | EBADF | ENOTSUP | PollErrno(code: nat)

  datatype FdState = Missing | Nonblock | Blocking

  /** What polling stdin for a number of milliseconds gives. */
  datatype PollAnswer = NotPollable | PollFails(code: nat) | Polled(ready: bool)

  datatype Env = Env(lookup: int32 -> FdState, pollStdin: int32 -> PollAnswer)

  /** What a subscription leads to; Crash is an index past its bytes. */
  datatype Verdict = Ack(errno: byte) | Delay | Abort(error: Errno) | Crash

  /** userdata 0..8, tag 8, contents from 16: a clock's timeout at 24 and flags at 40, or a file descriptor. */
  function Judge(sub: Bytes, env: Env): Verdict {
    Pow256Values();
    if |sub| < 16 then Crash
    else if sub[8] == 0 then
      if |sub| < SUBSCRIPTION_SIZE then Crash
      else if GetLe(sub, 40, 2) == 0 then Ack(0)
      else if GetLe(sub, 40, 2) == 1 then Abort(ENOTSUP)
      else Abort(EINVAL)
    else if sub[8] == 1 || sub[8] == 2 then
      if |sub| < 20 then Crash
      else
        var fd := ToInt32(GetLe(sub, 16, 4));
        if fd < 0 then Abort(EBADF)
        else if sub[8] == 1 then
          if env.lookup(fd) == Missing then Ack(ERRNO_BADF)
          else if fd != 0 && env.lookup(fd) == Nonblock then Ack(0)
          else Delay
        else Ack(if env.lookup(fd) == Missing then ERRNO_BADF else ERRNO_NOTSUP)
    else Abort(EINVAL)
  }

  predicate IsClock(sub: Bytes, env: Env) {
    Judge(sub, env).Ack? && sub[8] == 0
  }

  /** The relative timeout of a clock subscription, as a signed duration. */
  function ClockTimeout(sub: Bytes): int64
    requires |sub| == SUBSCRIPTION_SIZE
  {
    Pow256Values();
    ToInt64(GetLe(sub, 24, 8))
  }

  // ----- what a list of subscriptions leads to -----

  /** Positions acknowledged during the pass, in order. */
  function Acked(subs: seq<Bytes>, env: Env): seq<nat> {
    if subs == [] then []
    else
      var n := |subs| - 1;
      Acked(subs[..n], env) + if Judge(subs[n], env).Ack? then [n] else []
  }

  /** Positions put off until stdin has been polled, in order. */
  function Delayed(subs: seq<Bytes>, env: Env): seq<nat> {
    if subs == [] then []
    else
      var n := |subs| - 1;
      Delayed(subs[..n], env) + if Judge(subs[n], env).Delay? then [n] else []
  }

  /** The least timeout of the clock subscriptions; the longest duration when there are none. */
  function LeastTimeout(subs: seq<Bytes>, env: Env): int64
    requires forall i :: 0 <= i < |subs| ==> |subs[i]| == SUBSCRIPTION_SIZE
  {
    if subs == [] then MAX_DURATION
    else
      var n := |subs| - 1;
      var rest := LeastTimeout(subs[..n], env);
      if IsClock(subs[n], env) && ClockTimeout(subs[n]) < rest then ClockTimeout(subs[n]) else rest
  }

  predicate Settled(v: Verdict) {
    v.Ack? || v.Delay?
  }

  ghost predicate AllSettled(subs: seq<Bytes>, env: Env) {
    forall i :: 0 <= i < |subs| ==> Settled(Judge(subs[i], env))
  }

  ghost predicate Increasing(s: seq<nat>, bound: nat) {
    && (forall i :: 0 <= i < |s| ==> s[i] < bound)
    && forall i, j :: 0 <= i < j < |s| ==> s[i] < s[j]
  }

  lemma {:induction false} AckedPositions(subs: seq<Bytes>, env: Env)
    ensures Increasing(Acked(subs, env), |subs|)
    ensures forall i :: 0 <= i < |subs| ==> (i in Acked(subs, env) <==> Judge(subs[i], env).Ack?)
  {
    hide Judge;
    if subs != [] {
      var n := |subs| - 1;
      AckedPositions(subs[..n], env);
      assert forall i :: 0 <= i < n ==> subs[..n][i] == subs[i];
    }
  }

  lemma {:induction false} DelayedPositions(subs: seq<Bytes>, env: Env)
    ensures Increasing(Delayed(subs, env), |subs|)
    ensures forall i :: 0 <= i < |subs| ==> (i in Delayed(subs, env) <==> Judge(subs[i], env).Delay?)
  {
    hide Judge;
    if subs != [] {
      var n := |subs| - 1;
      DelayedPositions(subs[..n], env);
      assert forall i :: 0 <= i < n ==> subs[..n][i] == subs[i];
    }
  }

  /** Every subscription is acknowledged or delayed: the two counts add up. */
  lemma {:induction false} AckedOrDelayed(subs: seq<Bytes>, env: Env)
    requires AllSettled(subs, env)
    ensures |Acked(subs, env)| + |Delayed(subs, env)| == |subs|
  {
    hide Judge;
    if subs != [] {
      AckedOrDelayed(subs[..|subs| - 1], env);
    }
  }

  /** The timeout is a lower bound of every clock's, and one of them unless it is the longest duration. */
  lemma {:induction false} LeastTimeoutIs(subs: seq<Bytes>, env: Env)
    requires forall i :: 0 <= i < |subs| ==> |subs[i]| == SUBSCRIPTION_SIZE
    ensures forall i :: 0 <= i < |subs| && IsClock(subs[i], env) ==> LeastTimeout(subs, env) <= ClockTimeout(subs[i])
    ensures LeastTimeout(subs, env) != MAX_DURATION ==>
      exists i :: 0 <= i < |subs| && IsClock(subs[i], env) && LeastTimeout(subs, env) == ClockTimeout(subs[i])
  {
    hide IsClock, ClockTimeout;
    if subs != [] {
      var n := |subs| - 1;
      LeastTimeoutIs(subs[..n], env);
      forall i | 0 <= i < n ensures subs[..n][i] == subs[i] {
      }
      if LeastTimeout(subs, env) != MAX_DURATION && LeastTimeout(subs, env) == LeastTimeout(subs[..n], env) {
        var i :| 0 <= i < n && IsClock(subs[..n][i], env) && LeastTimeout(subs[..n], env) == ClockTimeout(subs[..n][i]);
        assert IsClock(subs[i], env);
      }
    }
  }

  // ----- events -----

  /** userdata, errno and tag: what is written of an event. */
  function Head(userdata: Bytes, tag: byte, errno: byte): (bs: Bytes)
    requires |userdata| == 8
    ensures |bs| == 14
  {
    Pow256Values();
    userdata + [errno, 0] + LeBytes(tag, 4)
  }

  function EventHead(sub: Bytes, errno: byte): (bs: Bytes)
    requires |sub| >= 16
    ensures |bs| == 14
  {
    Head(sub[..8], sub[8], errno)
  }

  function Zeros(n: nat): (bs: Bytes)
    ensures |bs| == n
  {
    seq(n, _ => 0)
  }

  /** A whole event record. A delayed subscription is acknowledged without error. */
  function EventOf(sub: Bytes, env: Env): (bs: Bytes)
    requires |sub| >= 16
    ensures |bs| == EVENT_SIZE
  {
    EventHead(sub, ErrnoOf(sub, env)) + Zeros(18)
  }

  function ErrnoOf(sub: Bytes, env: Env): byte {
    if Judge(sub, env).Ack? then Judge(sub, env).errno else 0
  }

  /** An event as the guest reads it. */
  datatype Event = Event(userdata: uint64, errno: uint16, kind: byte)

  function DecodeEvent(bs: Bytes): Event
    requires |bs| == EVENT_SIZE
  {
    Pow256Values();
    Event(GetLe(bs, 0, 8), GetLe(bs, 8, 2), bs[10])
  }

  function Userdata(sub: Bytes): uint64
    requires |sub| >= 8
  {
    Pow256Values();
    GetLe(sub, 0, 8)
  }

  /** The guest reads the subscription's userdata and type, and the error it was acknowledged with. */
  lemma EventReads(sub: Bytes, env: Env)
    requires |sub| >= 16
    ensures DecodeEvent(EventOf(sub, env)) == Event(Userdata(sub), ErrnoOf(sub, env), sub[8])
  {
    hide Judge, LeValue, ErrnoOf;
    Pow256Values();
    var errno, tag := ErrnoOf(sub, env), sub[8];
    var bs := EventOf(sub, env);
    assert bs == sub[..8] + [errno, 0] + LeBytes(tag, 4) + Zeros(18);
    assert bs[0..8] == sub[0..8] && bs[8..10] == [errno, 0] && bs[10] == LeBytes(tag, 4)[0];
    TwoBytes(errno);
    LeBytesAt(tag, 4, 0);
  }

  lemma TwoBytes(b: byte)
    ensures LeValue([b, 0]) == b
  {
    assert [b, 0][1..] == [0] && [0][1..] == [];
  }

  /** The events of the given subscriptions, back to back. */
  function Events(subs: seq<Bytes>, env: Env, order: seq<nat>): (bs: Bytes)
    requires forall i :: 0 <= i < |subs| ==> |subs[i]| == SUBSCRIPTION_SIZE
    requires forall k :: 0 <= k < |order| ==> order[k] < |subs|
    ensures |bs| == EVENT_SIZE * |order|
  {
    if order == [] then []
    else
      var n := |order| - 1;
      Events(subs, env, order[..n]) + EventOf(subs[order[n]], env)
  }

  /** The output area: the events, then zeros. */
  function OutArea(subs: seq<Bytes>, env: Env, order: seq<nat>): (bs: Bytes)
    requires forall i :: 0 <= i < |subs| ==> |subs[i]| == SUBSCRIPTION_SIZE
    requires forall k :: 0 <= k < |order| ==> order[k] < |subs|
    requires |order| <= |subs|
    ensures |bs| == EVENT_SIZE * |subs|
  {
    Events(subs, env, order) + Zeros(EVENT_SIZE * (|subs| - |order|))
  }

  /** Event k of the packed events is the event of the k-th subscription of the order. */
  lemma {:induction false} EventsPacked(subs: seq<Bytes>, env: Env, order: seq<nat>, k: nat)
    requires forall i :: 0 <= i < |subs| ==> |subs[i]| == SUBSCRIPTION_SIZE
    requires forall i :: 0 <= i < |order| ==> order[i] < |subs|
    requires k < |order|
    ensures Events(subs, env, order)[EVENT_SIZE * k..EVENT_SIZE * (k + 1)] == EventOf(subs[order[k]], env)
    decreases |order|
  {
    hide EventOf;
    var n := |order| - 1;
    var before := Events(subs, env, order[..n]);
    if k < n {
      EventsPacked(subs, env, order[..n], k);
      assert Events(subs, env, order)[EVENT_SIZE * k..EVENT_SIZE * (k + 1)] == before[EVENT_SIZE * k..EVENT_SIZE * (k + 1)];
    }
  }

  /** Writing the head of one more event where the last one ends adds its record to the area. */
  lemma EventAdded(base: Bytes, out: nat, subs: seq<Bytes>, env: Env, order: seq<nat>, j: nat)
    requires forall i :: 0 <= i < |subs| ==> |subs[i]| == SUBSCRIPTION_SIZE
    requires forall k :: 0 <= k < |order| ==> order[k] < |subs|
    requires |order| < |subs| && j < |subs| && out + EVENT_SIZE * |subs| <= |base|
    ensures Splice(Splice(base, out, OutArea(subs, env, order)), out + EVENT_SIZE * |order|, EventHead(subs[j], ErrnoOf(subs[j], env)))
            == Splice(base, out, OutArea(subs, env, order + [j]))
  {
    hide Splice, Events, EventHead, ErrnoOf, Zeros;
    var head := EventHead(subs[j], ErrnoOf(subs[j], env));
    var events := Events(subs, env, order);
    var left := EVENT_SIZE * (|subs| - |order|);
    ZerosSplit(left);
    EventsSnoc(subs, env, order, j);
    assert OutArea(subs, env, order) == events + Zeros(14) + Zeros(left - 14);
    assert OutArea(subs, env, order + [j]) == events + head + Zeros(left - 14);
    SpliceInside(base, out, events, Zeros(14), Zeros(left - 14), head);
  }

  lemma EventsSnoc(subs: seq<Bytes>, env: Env, order: seq<nat>, j: nat)
    requires forall i :: 0 <= i < |subs| ==> |subs[i]| == SUBSCRIPTION_SIZE
    requires forall k :: 0 <= k < |order| ==> order[k] < |subs|
    requires j < |subs|
    ensures Events(subs, env, order + [j]) == Events(subs, env, order) + EventOf(subs[j], env)
  {
    assert (order + [j])[..|order|] == order;
  }

  lemma ZerosSplit(n: nat)
    ensures n >= 14 ==> Zeros(n) == Zeros(14) + Zeros(n - 14)
    ensures n >= 32 ==> Zeros(n - 14) == Zeros(18) + Zeros(n - 32)
  {
  }

  lemma SpliceInside(base: Bytes, at: nat, a: Bytes, b: Bytes, c: Bytes, b': Bytes)
    requires |b| == |b'| && at + |a| + |b| + |c| <= |base|
    ensures Splice(Splice(base, at, a + b + c), at + |a|, b') == Splice(base, at, a + b' + c)
  {
  }
}

module Poll {
  import opened Words
  import opened Wrappers
  import opened Values
  import opened LittleEndian
  import opened Buffers
  import opened PollEvents

  datatype Outcome = Done | Failed(error: Errno) | Panicked

  datatype Wait = NoWait | Sleep(nanos: int64) | PollStdin(millis: int32)

  /** The subscriptions in memory at base. */
  function Subs(mem: Bytes, base: nat, n: nat): (subs: seq<Bytes>)
    requires base + SUBSCRIPTION_SIZE * n <= |mem|
    ensures |subs| == n && forall i :: 0 <= i < n ==> |subs[i]| == SUBSCRIPTION_SIZE
  {
    seq(n, i requires 0 <= i < n => mem[base + SUBSCRIPTION_SIZE * i..base + SUBSCRIPTION_SIZE * (i + 1)])
  }

  predicate Disjoint(a: nat, aLen: nat, b: nat, bLen: nat) {
    a + aLen <= b || b + bLen <= a
  }

  /** The three areas lie in memory, apart from each other, and their sizes do not wrap. */
  predicate Tidy(memLen: nat, inp: uint32, out: uint32, nsub: uint32, result: uint32) {
    && SUBSCRIPTION_SIZE * nsub < TWO_32
    && inp + SUBSCRIPTION_SIZE * nsub <= memLen && out + EVENT_SIZE * nsub <= memLen && result + 4 <= memLen
    && Disjoint(inp, SUBSCRIPTION_SIZE * nsub, out, EVENT_SIZE * nsub)
    && Disjoint(inp, SUBSCRIPTION_SIZE * nsub, result, 4)
    && Disjoint(out, EVENT_SIZE * nsub, result, 4)
  }

  /** Go's Duration.Milliseconds, which truncates, then int32. */
  function Millis(timeout: int64): int32 {
    var t: int := timeout;
    ToInt32(WrapU32(if t >= 0 then t / 1_000_000 else -(-t / 1_000_000)))
  }

  /** The subscriptions acknowledged by a call whose subscriptions are all settled, in the order of their events. */
  function Order(subs: seq<Bytes>, env: Env): Result<seq<nat>, Errno>
    requires forall i :: 0 <= i < |subs| ==> |subs[i]| == SUBSCRIPTION_SIZE
  {
    if Delayed(subs, env) == [] then Ok(Acked(subs, env))
    else if env.lookup(0) == Missing then Err(EBADF)
    else
      match env.pollStdin(Millis(LeastTimeout(subs, env)))
      case NotPollable => Ok(Acked(subs, env))
      case PollFails(code) => Err(PollErrno(code))
      case Polled(ready) => Ok(Acked(subs, env) + if ready then Delayed(subs, env) else [])
  }

  // ----- the pass -----

  /** Memory during the pass: the areas as they were found, with the events of order in the output area. */
  ghost predicate Packed(mem: Bytes, base: Bytes, out: nat, subs: seq<Bytes>, env: Env, order: seq<nat>) {
    && (forall i :: 0 <= i < |subs| ==> |subs[i]| == SUBSCRIPTION_SIZE)
    && (forall k :: 0 <= k < |order| ==> order[k] < |subs|)
    && |order| <= |subs|
    && out + EVENT_SIZE * |subs| <= |base|
    && mem == Splice(base, out, OutArea(subs, env, order))
  }

  /** The state of the pass after i subscriptions. */
  ghost predicate Scanned(mem: Bytes, base: Bytes, out: nat, subs: seq<Bytes>, env: Env, i: nat,
                          nevents: nat, blocking: seq<nat>, timeout: int64) {
    && i <= |subs|
    && AllSettled(subs[..i], env)
    && Packed(mem, base, out, subs, env, Acked(subs[..i], env))
    && nevents == |Acked(subs[..i], env)|
    && blocking == Delayed(subs[..i], env)
    && timeout == LeastTimeout(subs[..i], env)
  }

  lemma ScannedStep(mem: Bytes, mem': Bytes, base: Bytes, out: nat, subs: seq<Bytes>, env: Env, i: nat,
                    nevents: nat, blocking: seq<nat>, timeout: int64)
    requires i < |subs| && Scanned(mem, base, out, subs, env, i, nevents, blocking, timeout)
    requires Settled(Judge(subs[i], env)) && nevents <= i
    requires Judge(subs[i], env).Delay? ==> mem' == mem
    requires Judge(subs[i], env).Ack? ==>
      out + EVENT_SIZE * nevents + 14 <= |mem| && mem' == Splice(mem, out + EVENT_SIZE * nevents, EventHead(subs[i], ErrnoOf(subs[i], env)))
    ensures Scanned(mem', base, out, subs, env, i + 1,
                    nevents + if Judge(subs[i], env).Ack? then 1 else 0,
                    blocking + if Judge(subs[i], env).Delay? then [i] else [],
                    if IsClock(subs[i], env) && ClockTimeout(subs[i]) < timeout then ClockTimeout(subs[i]) else timeout)
  {
    hide Judge, Splice, OutArea, EventHead, ErrnoOf, ClockTimeout;
    var next := subs[..i + 1];
    assert next[..i] == subs[..i] && next[i] == subs[i];
    assert AllSettled(next, env) by {
      forall k | 0 <= k < |next| ensures Settled(Judge(next[k], env)) {
        if k < i {
          assert next[k] == subs[..i][k];
        }
      }
    }
    if Judge(subs[i], env).Ack? {
      assert Acked(next, env) == Acked(subs[..i], env) + [i] && Delayed(next, env) == Delayed(subs[..i], env);
      EventAdded(base, out, subs, env, Acked(subs[..i], env), i);
    } else {
      assert Acked(next, env) == Acked(subs[..i], env) && Delayed(next, env) == Delayed(subs[..i], env) + [i];
    }
    assert Packed(mem', base, out, subs, env, Acked(next, env));
  }

  method WriteEvent(mem: array<byte>, out: nat, outLen: nat, outOffset: nat, userdata: Bytes, tag: byte, errno: byte) returns (ok: bool)
    requires out + outLen <= mem.Length && |userdata| == 8
    modifies mem
    ensures ok <==> outOffset + 14 <= outLen
    ensures ok ==> mem[..] == Splice(old(mem[..]), out + outOffset, Head(userdata, tag, errno))
  {
    if outOffset + 14 > outLen {
      return false;
    }
    CopyTo(mem, out + outOffset, Head(userdata, tag, errno));
    ok := true;
  }

  lemma WrapMultiple(n: nat)
    ensures WrapU32(16 * n) % 16 == 0 && WrapU32(16 * n) <= 16 * n
    ensures 16 * n < TWO_32 ==> WrapU32(16 * n) == 16 * n
    ensures 16 * n >= TWO_32 ==> WrapU32(16 * n) <= 16 * n - TWO_32
  {
    assert WrapU32(16 * n) == 16 * n - 16 * n / TWO_32 * TWO_32;
  }

  /** The subscriptions are still as they were found. */
  lemma SubUnchanged(mem: Bytes, base: Bytes, inp: nat, out: nat, subs: seq<Bytes>, env: Env, order: seq<nat>, i: nat)
    requires Packed(mem, base, out, subs, env, order) && i < |subs|
    requires inp + SUBSCRIPTION_SIZE * |subs| <= |base| && subs == Subs(base, inp, |subs|)
    requires Disjoint(inp, SUBSCRIPTION_SIZE * |subs|, out, EVENT_SIZE * |subs|)
    ensures mem[inp + SUBSCRIPTION_SIZE * i..inp + SUBSCRIPTION_SIZE * (i + 1)] == subs[i]
  {
    hide Splice, OutArea;
  }

  /** What the pass is given: the areas, and for tidy ones the subscriptions found in them. */
  ghost predicate Given(mem: Bytes, base: Bytes, inp: nat, inLen: nat, out: nat, outLen: nat, nsub: uint32, subs: seq<Bytes>, env: Env, tidy: bool) {
    && inp + inLen <= |mem| && out + outLen <= |mem|
    && inLen == WrapU32(nsub * SUBSCRIPTION_SIZE) && outLen == WrapU32(nsub * EVENT_SIZE)
    && (tidy ==>
          && |subs| == nsub && SUBSCRIPTION_SIZE * nsub < TWO_32
          && Packed(mem, base, out, subs, env, [])
          && inp + SUBSCRIPTION_SIZE * |subs| <= |base| && subs == Subs(base, inp, |subs|)
          && Disjoint(inp, SUBSCRIPTION_SIZE * |subs|, out, EVENT_SIZE * |subs|))
  }

  lemma ScannedNone(mem: Bytes, base: Bytes, out: nat, subs: seq<Bytes>, env: Env)
    requires Packed(mem, base, out, subs, env, [])
    ensures Scanned(mem, base, out, subs, env, 0, 0, [], MAX_DURATION)
  {
  }

  /** Subscription i and its event lie whole inside the two areas. */
  predicate Whole(i: nat, inLen: nat, nevents: nat, outLen: nat) {
    SUBSCRIPTION_SIZE * (i + 1) <= inLen && EVENT_SIZE * (nevents + 1) <= outLen
  }

  /** Judges subscription i and acknowledges it if that is due; tick is the timeout of a clock. */
  method Process(mem: array<byte>, env: Env, inp: uint32, inLen: uint32, out: uint32, outLen: uint32, i: nat, nevents: nat)
    returns (v: Verdict, tick: int64)
    requires inp + inLen <= mem.Length && out + outLen <= mem.Length
    requires SUBSCRIPTION_SIZE * i < TWO_32 && nevents <= i
    modifies mem
    ensures Whole(i, inLen, nevents, outLen) ==>
      var sub := old(mem[..])[inp + SUBSCRIPTION_SIZE * i..inp + SUBSCRIPTION_SIZE * (i + 1)];
      && v == Judge(sub, env) && !v.Crash?
      && (v.Ack? ==> mem[..] == Splice(old(mem[..]), out + EVENT_SIZE * nevents, EventHead(sub, v.errno)))
      && tick == if IsClock(sub, env) then ClockTimeout(sub) else MAX_DURATION
    ensures !v.Ack? && !v.Crash? ==> mem[..] == old(mem[..])
    ensures !v.Crash? ==> SUBSCRIPTION_SIZE * i + 16 <= inLen
    ensures v.Abort? ==> v.error != EFAULT
  {
    hide Splice, Judge, Head, ClockTimeout;
    tick := MAX_DURATION;
    var inOffset, outOffset := WrapU32(i * SUBSCRIPTION_SIZE), WrapU32(nevents * EVENT_SIZE);
    if inOffset + 16 > inLen {
      return Crash, tick;
    }
    var end := if inOffset + SUBSCRIPTION_SIZE <= inLen then inOffset + SUBSCRIPTION_SIZE else inLen;
    var sub := mem[inp + inOffset..inp + end];
    v := Judge(sub, env);
    JudgeCrash(sub, env);
    if v.Ack? {
      if sub[8] == 0 {
        tick := ClockTimeout(sub);
      }
      var ok := WriteEvent(mem, out, outLen, outOffset, sub[..8], sub[8], v.errno);
      if !ok {
        v := Crash;
      }
    }
  }

  method Scan(mem: array<byte>, env: Env, inp: uint32, inLen: uint32, out: uint32, outLen: uint32, nsub: uint32,
              ghost subs: seq<Bytes>, ghost base: Bytes, ghost tidy: bool)
    returns (stop: Option<Outcome>, nevents: nat, blocking: seq<nat>, timeout: int64)
    requires Given(mem[..], base, inp, inLen, out, outLen, nsub, subs, env, tidy)
    modifies mem
    ensures stop.None? ==> SUBSCRIPTION_SIZE * nsub < TWO_32 && nevents + |blocking| == nsub
    ensures stop.None? ==> forall k :: 0 <= k < |blocking| ==> blocking[k] < nsub
    ensures stop == Some(Panicked) ==> SUBSCRIPTION_SIZE * nsub >= TWO_32
    ensures stop.Some? ==> stop.value.Panicked? || (stop.value.Failed? && stop.value.error != EFAULT)
    ensures tidy && stop.None? ==> Scanned(mem[..], base, out, subs, env, nsub, nevents, blocking, timeout)
    ensures tidy && stop.Some? && stop.value.Failed? ==>
      exists i :: 0 <= i < |subs| && AllSettled(subs[..i], env) && Judge(subs[i], env) == Abort(stop.value.error)
  {
    hide Scanned, Packed, Splice, Judge, IsClock, ClockTimeout, Subs, WrapU32, EventHead;
    stop, nevents, blocking, timeout := None, 0, [], MAX_DURATION;
    AreaSizes(nsub);
    if tidy {
      ScannedNone(mem[..], base, out, subs, env);
    }
    for i := 0 to nsub
      invariant i > 0 ==> SUBSCRIPTION_SIZE * (i - 1) + 16 <= inLen
      invariant nevents + |blocking| == i
      invariant forall k :: 0 <= k < |blocking| ==> blocking[k] < i
      invariant tidy ==> Scanned(mem[..], base, out, subs, env, i, nevents, blocking, timeout)
    {
      ghost var before := mem[..];
      ghost var timeout0, blocking0, nevents0 := timeout, blocking, nevents;
      NoWrapYet(i, inLen);
      if tidy {
        SubFound(before, base, inp, out, subs, env, i, nevents, blocking, timeout);
      }
      var v, tick := Process(mem, env, inp, inLen, out, outLen, i, nevents);
      if v.Crash? {
        return Some(Panicked), nevents, blocking, timeout;
      }
      if v.Abort? {
        return Some(Failed(v.error)), nevents, blocking, timeout;
      }
      if tick < timeout {
        timeout := tick;
      }
      if v.Ack? {
        nevents := nevents + 1;
      } else {
        blocking := blocking + [i];
      }
      if tidy {
        ScannedStep(before, mem[..], base, out, subs, env, i, nevents0, blocking0, timeout0);
        assert blocking0 + [] == blocking0;
      }
    }
  }

  lemma AreaSizes(nsub: uint32)
    ensures WrapU32(nsub * SUBSCRIPTION_SIZE) % 16 == 0
    ensures SUBSCRIPTION_SIZE * nsub < TWO_32 ==>
      WrapU32(nsub * SUBSCRIPTION_SIZE) == SUBSCRIPTION_SIZE * nsub && WrapU32(nsub * EVENT_SIZE) == EVENT_SIZE * nsub
    ensures SUBSCRIPTION_SIZE * nsub >= TWO_32 ==> WrapU32(nsub * SUBSCRIPTION_SIZE) <= SUBSCRIPTION_SIZE * nsub - TWO_32
  {
    WrapMultiple(3 * nsub);
    WrapMultiple(2 * nsub);
  }

  /** As long as every subscription so far lay in the area, offsets have not wrapped. */
  lemma NoWrapYet(i: nat, inLen: uint32)
    requires i > 0 ==> SUBSCRIPTION_SIZE * (i - 1) + 16 <= inLen
    requires inLen % 16 == 0
    ensures SUBSCRIPTION_SIZE * i < TWO_32
  {
  }

  lemma SubFound(mem: Bytes, base: Bytes, inp: nat, out: nat, subs: seq<Bytes>, env: Env, i: nat,
                 nevents: nat, blocking: seq<nat>, timeout: int64)
    requires Scanned(mem, base, out, subs, env, i, nevents, blocking, timeout) && i < |subs|
    requires inp + SUBSCRIPTION_SIZE * |subs| <= |base| && subs == Subs(base, inp, |subs|)
    requires Disjoint(inp, SUBSCRIPTION_SIZE * |subs|, out, EVENT_SIZE * |subs|)
    ensures |mem| == |base| && mem[inp + SUBSCRIPTION_SIZE * i..inp + SUBSCRIPTION_SIZE * (i + 1)] == subs[i]
    ensures AllSettled(subs[..i], env)
  {
    hide Judge, Splice;
    SubUnchanged(mem, base, inp, out, subs, env, Acked(subs[..i], env), i);
  }

  /** A subscription with all its bytes does not crash, and no subscription fails with EFAULT. */
  lemma JudgeCrash(sub: Bytes, env: Env)
    ensures |sub| >= SUBSCRIPTION_SIZE ==> !Judge(sub, env).Crash?
    ensures Judge(sub, env).Abort? ==> Judge(sub, env).error != EFAULT
    ensures Judge(sub, env).Ack? && sub[8] == 0 ==> |sub| >= SUBSCRIPTION_SIZE
    ensures Judge(sub, env).Delay? ==> |sub| >= 16 && sub[8] == 1
    ensures Judge(sub, env).Ack? ==> |sub| >= 16
  {
  }

  // ----- the delayed events -----

  lemma DeliveredStep(mem: Bytes, base: Bytes, inp: nat, out: nat, subs: seq<Bytes>, env: Env, order: seq<nat>, j: nat)
    requires Packed(mem, base, out, subs, env, order) && |order| < |subs| && j < |subs| && Judge(subs[j], env).Delay?
    requires inp + SUBSCRIPTION_SIZE * |subs| <= |base| && subs == Subs(base, inp, |subs|)
    requires Disjoint(inp, SUBSCRIPTION_SIZE * |subs|, out, EVENT_SIZE * |subs|)
    ensures |mem| == |base| && out + EVENT_SIZE * |order| + 14 <= |mem|
    ensures Packed(Splice(mem, out + EVENT_SIZE * |order|, Head(mem[inp + SUBSCRIPTION_SIZE * j..inp + SUBSCRIPTION_SIZE * j + 8], 1, 0)),
                   base, out, subs, env, order + [j])
  {
    hide Judge, Splice, OutArea, Head, Subs;
    SubUnchanged(mem, base, inp, out, subs, env, order, j);
    JudgeCrash(subs[j], env);
    var at := inp + SUBSCRIPTION_SIZE * j;
    assert mem[at..at + SUBSCRIPTION_SIZE][..8] == mem[at..at + 8];
    EventAdded(base, out, subs, env, order, j);
  }

  /** Acknowledges every delayed subscription. */
  method Deliver(mem: array<byte>, env: Env, inp: uint32, out: uint32, outLen: uint32, nsub: uint32, blocking: seq<nat>, nevents: nat,
                 ghost subs: seq<Bytes>, ghost base: Bytes, ghost tidy: bool, ghost timeout: int64)
    returns (count: nat)
    requires SUBSCRIPTION_SIZE * nsub < TWO_32 && inp + SUBSCRIPTION_SIZE * nsub <= mem.Length
    requires outLen == EVENT_SIZE * nsub && out + outLen <= mem.Length
    requires nevents + |blocking| == nsub && forall k :: 0 <= k < |blocking| ==> blocking[k] < nsub
    requires tidy ==>
      && |subs| == nsub && Scanned(mem[..], base, out, subs, env, nsub, nevents, blocking, timeout)
      && inp + SUBSCRIPTION_SIZE * |subs| <= |base| && subs == Subs(base, inp, |subs|)
      && Disjoint(inp, SUBSCRIPTION_SIZE * |subs|, out, EVENT_SIZE * |subs|)
    modifies mem
    ensures count == nsub
    ensures tidy ==> Packed(mem[..], base, out, subs, env, Acked(subs, env) + Delayed(subs, env))
  {
    hide Packed, Splice, Judge, Head, Subs, Acked, Delayed, Scanned, LeastTimeout, WrapU32, AllSettled;
    count := nevents;
    ghost var acked := Acked(subs, env);
    if tidy {
      AllScanned(mem[..], base, out, subs, env, nevents, blocking, timeout);
      DelayedPositions(subs, env);
      assert acked + blocking[..0] == acked;
      assert forall k :: 0 <= k < |blocking| ==> blocking[k] in blocking && Judge(subs[blocking[k]], env).Delay?;
    }
    for k := 0 to |blocking|
      invariant count == nevents + k
      invariant tidy ==> Packed(mem[..], base, out, subs, env, acked + blocking[..k])
    {
      SmallOffsets(blocking[k], count, nsub);
      var inOffset := WrapU32(blocking[k] * SUBSCRIPTION_SIZE);
      var userdata := mem[inp + inOffset..inp + inOffset + 8];
      if tidy {
        DeliveredStep(mem[..], base, inp, out, subs, env, acked + blocking[..k], blocking[k]);
        assert acked + blocking[..k] + [blocking[k]] == acked + blocking[..k + 1];
        assert mem[..][inp + inOffset..inp + inOffset + 8] == userdata;
      }
      var ok := WriteEvent(mem, out, outLen, WrapU32(count * EVENT_SIZE), userdata, 1, 0);
      count := count + 1;
    }
    assert blocking[..|blocking|] == blocking;
  }

  lemma SmallOffsets(i: nat, k: nat, n: nat)
    requires i < n && k < n && SUBSCRIPTION_SIZE * n < TWO_32
    ensures WrapU32(i * SUBSCRIPTION_SIZE) == SUBSCRIPTION_SIZE * i && WrapU32(k * EVENT_SIZE) == EVENT_SIZE * k
  {
  }

  lemma AllScanned(mem: Bytes, base: Bytes, out: nat, subs: seq<Bytes>, env: Env, nevents: nat, blocking: seq<nat>, timeout: int64)
    requires Scanned(mem, base, out, subs, env, |subs|, nevents, blocking, timeout)
    ensures AllSettled(subs, env) && Packed(mem, base, out, subs, env, Acked(subs, env))
    ensures nevents == |Acked(subs, env)| && blocking == Delayed(subs, env) && timeout == LeastTimeout(subs, env)
  {
    assert subs[..|subs|] == subs;
  }

  // ----- the call -----

  /** Memory after a successful call: the count, the packed events and zeros after them, and everything else as before. */
  ghost predicate Answered(mem0: Bytes, mem: Bytes, out: nat, result: nat, subs: seq<Bytes>, env: Env, order: seq<nat>) {
    && |order| < Pow256(4) && result + 4 <= |mem0|
    && Packed(mem, PutLe(mem0, result, |order|, 4), out, subs, env, order)
  }

  /** Writes to disjoint places commute. */
  lemma SwapWord(mem: Bytes, out: nat, area: Bytes, result: nat, n: nat)
    requires n < Pow256(4) && result + 4 <= |mem| && out + |area| <= |mem| && Disjoint(out, |area|, result, 4)
    ensures PutLe(Splice(mem, out, area), result, n, 4) == Splice(PutLe(mem, result, n, 4), out, area)
  {
    hide LeBytes, Pow256;
    var a, b := PutLe(Splice(mem, out, area), result, n, 4), Splice(PutLe(mem, result, n, 4), out, area);
    assert a[result..result + 4] == b[result..result + 4] by {
      SliceSame(PutLe(mem, result, n, 4), b, result, 4);
    }
    assert a[out..out + |area|] == b[out..out + |area|] by {
      SliceSame(Splice(mem, out, area), a, out, |area|);
    }
    forall i | 0 <= i < |a| ensures a[i] == b[i] {
      if result <= i < result + 4 {
        assert a[i] == a[result..result + 4][i - result];
      } else if out <= i < out + |area| {
        assert a[i] == a[out..out + |area|][i - out];
      }
    }
  }

  lemma CountRewritten(mem0: Bytes, out: nat, result: nat, area: Bytes, n: nat, count: nat)
    requires n < Pow256(4) && count < Pow256(4) && result + 4 <= |mem0| && out + |area| <= |mem0|
    requires Disjoint(out, |area|, result, 4)
    ensures PutLe(Splice(PutLe(mem0, result, n, 4), out, area), result, count, 4) == Splice(PutLe(mem0, result, count, 4), out, area)
  {
    hide LeBytes, Pow256, Splice;
    SwapWord(PutLe(mem0, result, n, 4), out, area, result, count);
    assert PutLe(PutLe(mem0, result, n, 4), result, count, 4) == PutLe(mem0, result, count, 4);
  }

  lemma SliceSame(a: Bytes, b: Bytes, at: nat, n: nat)
    requires |a| == |b| && at + n <= |a| && forall i :: at <= i < at + n ==> a[i] == b[i]
    ensures a[at..at + n] == b[at..at + n]
  {
  }

  /** Clears the output area and stores the count that is reported if every subscription is acknowledged. */
  method Prepare(mem: array<byte>, env: Env, inp: uint32, out: uint32, nsub: uint32, result: uint32) returns (error: Option<Errno>)
    modifies mem
    ensures nsub == 0 ==> error == Some(EINVAL) && mem[..] == old(mem[..])
    ensures error == Some(EFAULT) <==>
      nsub != 0 && (inp + WrapU32(nsub * SUBSCRIPTION_SIZE) > mem.Length || out + WrapU32(nsub * EVENT_SIZE) > mem.Length || result + 4 > mem.Length)
    ensures nsub != 0 ==> error != Some(EINVAL)
    ensures error.None? || error.value == EINVAL || error.value == EFAULT
    ensures error.None? && Tidy(mem.Length, inp, out, nsub, result) ==>
      && nsub < Pow256(4)
      && Packed(mem[..], PutLe(old(mem[..]), result, nsub, 4), out, Subs(old(mem[..]), inp, nsub), env, [])
      && Subs(PutLe(old(mem[..]), result, nsub, 4), inp, nsub) == Subs(old(mem[..]), inp, nsub)
  {
    hide Splice, PutLe, Pow256;
    if nsub == 0 {
      return Some(EINVAL);
    }
    if inp + WrapU32(nsub * SUBSCRIPTION_SIZE) > mem.Length {
      return Some(EFAULT);
    }
    if out + WrapU32(nsub * EVENT_SIZE) > mem.Length {
      return Some(EFAULT);
    }
    CopyTo(mem, out, Zeros(WrapU32(nsub * EVENT_SIZE)));
    if result + 4 > mem.Length {
      return Some(EFAULT);
    }
    WriteWord(mem, result, nsub);
    error := None;
    if Tidy(mem.Length, inp, out, nsub, result) {
      AreaSizes(nsub);
      SwapWord(old(mem[..]), out, Zeros(EVENT_SIZE * nsub), result, nsub);
      SubsSame(old(mem[..]), inp, nsub, result);
      NoEvents(Subs(old(mem[..]), inp, nsub), env);
    }
  }

  lemma NoEvents(subs: seq<Bytes>, env: Env)
    requires forall i :: 0 <= i < |subs| ==> |subs[i]| == SUBSCRIPTION_SIZE
    ensures OutArea(subs, env, []) == Zeros(EVENT_SIZE * |subs|)
  {
    assert Events(subs, env, []) == [];
  }

  lemma SubsSame(mem: Bytes, inp: nat, nsub: uint32, result: nat)
    requires inp + SUBSCRIPTION_SIZE * nsub <= |mem| && result + 4 <= |mem| && Disjoint(inp, SUBSCRIPTION_SIZE * nsub, result, 4)
    requires nsub < Pow256(4)
    ensures Subs(PutLe(mem, result, nsub, 4), inp, nsub) == Subs(mem, inp, nsub)
  {
    hide PutLe, LeBytes, Pow256;
    var mem' := PutLe(mem, result, nsub, 4);
    forall i | 0 <= i < nsub ensures Subs(mem', inp, nsub)[i] == Subs(mem, inp, nsub)[i] {
      SliceSame(mem, mem', inp + SUBSCRIPTION_SIZE * i, SUBSCRIPTION_SIZE);
    }
  }

  /** How long the call waits: asleep when nothing was delayed, otherwise for stdin. */
  function WaitOf(subs: seq<Bytes>, env: Env): Wait
    requires forall i :: 0 <= i < |subs| ==> |subs[i]| == SUBSCRIPTION_SIZE
  {
    var timeout := LeastTimeout(subs, env);
    if Delayed(subs, env) == [] then if timeout > 0 then Sleep(timeout) else NoWait
    else if env.lookup(0) == Missing || env.pollStdin(Millis(timeout)).NotPollable? then NoWait
    else PollStdin(Millis(timeout))
  }

  /** Waits, acknowledges the delayed subscriptions if stdin is ready, and corrects the count. */
  method Conclude(mem: array<byte>, env: Env, inp: uint32, out: uint32, nsub: uint32, result: uint32,
                  nevents: nat, blocking: seq<nat>, timeout: int64, ghost mem0: Bytes, ghost subs: seq<Bytes>, ghost tidy: bool)
    returns (o: Outcome, wait: Wait)
    requires SUBSCRIPTION_SIZE * nsub < TWO_32 && inp + SUBSCRIPTION_SIZE * nsub <= mem.Length
    requires out + EVENT_SIZE * nsub <= mem.Length && result + 4 <= mem.Length == |mem0|
    requires nevents + |blocking| == nsub && forall k :: 0 <= k < |blocking| ==> blocking[k] < nsub
    requires tidy ==>
      && Tidy(mem.Length, inp, out, nsub, result) && nsub < Pow256(4)
      && subs == Subs(mem0, inp, nsub) == Subs(PutLe(mem0, result, nsub, 4), inp, nsub)
      && Scanned(mem[..], PutLe(mem0, result, nsub, 4), out, subs, env, nsub, nevents, blocking, timeout)
    modifies mem
    ensures o.Done? || (o.Failed? && o.error != EFAULT)
    ensures tidy ==> AllSettled(subs, env) && (o.Done? <==> Order(subs, env).Ok?) && wait == WaitOf(subs, env)
    ensures tidy && o.Done? ==> Answered(mem0, mem[..], out, result, subs, env, Order(subs, env).value)
    ensures tidy && o.Failed? ==> o.error == Order(subs, env).error
  {
    hide Scanned, Packed, Acked, Delayed, LeastTimeout, PutLe, Pow256, Subs;
    ghost var base := mem0;
    if tidy {
      base := PutLe(mem0, result, nsub, 4);
      AllScanned(mem[..], base, out, subs, env, nevents, blocking, timeout);
    }
    if nevents == nsub {
      return Done, if timeout > 0 then Sleep(timeout) else NoWait;
    }
    if env.lookup(0) == Missing {
      return Failed(EBADF), NoWait;
    }
    var answer := env.pollStdin(Millis(timeout));
    wait := if answer.NotPollable? then NoWait else PollStdin(Millis(timeout));
    if answer.PollFails? {
      return Failed(PollErrno(answer.code)), wait;
    }
    var count := nevents;
    if answer == Polled(true) {
      count := Deliver(mem, env, inp, out, EVENT_SIZE * nsub, nsub, blocking, nevents, subs, base, tidy, timeout);
    }
    if tidy {
      OrderCounts(subs, env);
    }
    if count != nsub {
      if tidy {
        CountStored(mem0, mem[..], out, result, nsub, subs, env, Order(subs, env).value);
      }
      WriteWord(mem, result, count);
    }
    o := Done;
  }

  lemma OrderCounts(subs: seq<Bytes>, env: Env)
    requires (forall i :: 0 <= i < |subs| ==> |subs[i]| == SUBSCRIPTION_SIZE) && AllSettled(subs, env)
    ensures Acked(subs, env) + [] == Acked(subs, env)
    ensures |Acked(subs, env)| + |Delayed(subs, env)| == |subs|
  {
    AckedOrDelayed(subs, env);
  }

  lemma CountStored(mem0: Bytes, mem: Bytes, out: nat, result: nat, nsub: uint32, subs: seq<Bytes>, env: Env, order: seq<nat>)
    requires nsub < Pow256(4) && |order| < Pow256(4) && result + 4 <= |mem0|
    requires Packed(mem, PutLe(mem0, result, nsub, 4), out, subs, env, order) && |subs| == nsub
    requires Disjoint(out, EVENT_SIZE * nsub, result, 4)
    ensures |mem| == |mem0| && Answered(mem0, PutLe(mem, result, |order|, 4), out, result, subs, env, order)
  {
    hide PutLe, Splice, OutArea, Pow256;
    CountRewritten(mem0, out, result, OutArea(subs, env, order), nsub, |order|);
  }

  /**
    With tidy areas, an unsettled subscription makes the call fail with the error of the first one, and
    otherwise it ends as Order says. Whatever the areas, it succeeds only if their sizes do not wrap,
    and panics only if they do.
   */
  method PollOneoff(mem: array<byte>, env: Env, inp: uint32, out: uint32, nsub: uint32, result: uint32)
    returns (o: Outcome, wait: Wait)
    modifies mem
    ensures nsub == 0 ==> o == Failed(EINVAL) && mem[..] == old(mem[..])
    ensures o == Failed(EFAULT) <==>
      nsub != 0 && (inp + WrapU32(nsub * SUBSCRIPTION_SIZE) > mem.Length || out + WrapU32(nsub * EVENT_SIZE) > mem.Length || result + 4 > mem.Length)
    ensures o == Done ==> SUBSCRIPTION_SIZE * nsub < TWO_32
    ensures o == Panicked ==> SUBSCRIPTION_SIZE * nsub >= TWO_32
    ensures nsub != 0 && Tidy(mem.Length, inp, out, nsub, result) ==>
      var subs := Subs(old(mem[..]), inp, nsub);
      if AllSettled(subs, env) then
        var order := Order(subs, env);
        && wait == WaitOf(subs, env)
        && if order.Ok? then o == Done && Answered(old(mem[..]), mem[..], out, result, subs, env, order.value)
           else o == Failed(order.error)
      else
        exists i :: 0 <= i < |subs| && AllSettled(subs[..i], env) && Judge(subs[i], env).Abort? && o == Failed(Judge(subs[i], env).error)
  {
    hide Scanned, Packed, Answered, Order, WaitOf, Judge, PutLe, Pow256, Subs, WrapU32;
    var error := Prepare(mem, env, inp, out, nsub, result);
    if error.Some? {
      AreaSizes(nsub);
      return Failed(error.value), NoWait;
    }
    ghost var tidy := Tidy(mem.Length, inp, out, nsub, result);
    ghost var mem0 := old(mem[..]);
    ghost var subs: seq<Bytes>, base := [], mem0;
    AreaSizes(nsub);
    if tidy {
      subs, base := Subs(mem0, inp, nsub), PutLe(mem0, result, nsub, 4);
      PackedLength(mem[..], base, out, subs, env, []);
    }
    var inLen, outLen := WrapU32(nsub * SUBSCRIPTION_SIZE), WrapU32(nsub * EVENT_SIZE);
    var stop, nevents, blocking, timeout := Scan(mem, env, inp, inLen, out, outLen, nsub, subs, base, tidy);
    if stop.Some? {
      if tidy && stop.value.Failed? {
        StoppedUnsettled(subs, env, stop.value.error);
      }
      return stop.value, NoWait;
    }
    o, wait := Conclude(mem, env, inp, out, nsub, result, nevents, blocking, timeout, mem0, subs, tidy);
  }

  lemma PackedLength(mem: Bytes, base: Bytes, out: nat, subs: seq<Bytes>, env: Env, order: seq<nat>)
    requires Packed(mem, base, out, subs, env, order)
    ensures |mem| == |base|
  {
  }

  lemma StoppedUnsettled(subs: seq<Bytes>, env: Env, error: Errno)
    requires exists i :: 0 <= i < |subs| && AllSettled(subs[..i], env) && Judge(subs[i], env) == Abort(error)
    ensures !AllSettled(subs, env)
    ensures exists i :: 0 <= i < |subs| && AllSettled(subs[..i], env) && Judge(subs[i], env).Abort? && Judge(subs[i], env).error == error
  {
    hide Judge;
  }

  lemma AnsweredCount(mem0: Bytes, mem: Bytes, out: nat, result: nat, subs: seq<Bytes>, env: Env, order: seq<nat>)
    requires Answered(mem0, mem, out, result, subs, env, order) && Disjoint(out, EVENT_SIZE * |subs|, result, 4)
    ensures |mem| == |mem0| && result + 4 <= |mem| && GetLe(mem, result, 4) == |order| <= |subs|
  {
    hide PutLe, Splice, OutArea, Pow256;
    var base := PutLe(mem0, result, |order|, 4);
    PutThenGet(mem0, result, |order|, 4);
    GetLeSame(base, mem, result, 4);
  }

  /** What the guest finds after a successful call: the count, and under it one event per acknowledged subscription, without gaps. */
  lemma AnsweredEvents(mem0: Bytes, mem: Bytes, out: nat, result: nat, subs: seq<Bytes>, env: Env, order: seq<nat>, k: nat)
    requires Answered(mem0, mem, out, result, subs, env, order) && k < |order|
    requires Disjoint(out, EVENT_SIZE * |subs|, result, 4)
    ensures |mem| == |mem0| && GetLe(mem, result, 4) == |order|
    ensures mem[out + EVENT_SIZE * k..out + EVENT_SIZE * (k + 1)] == EventOf(subs[order[k]], env)
    ensures mem[out + EVENT_SIZE * k..out + EVENT_SIZE * k + 8] == subs[order[k]][..8]
    ensures DecodeEvent(mem[out + EVENT_SIZE * k..out + EVENT_SIZE * (k + 1)])
      == Event(Userdata(subs[order[k]]), ErrnoOf(subs[order[k]], env), subs[order[k]][8])
  {
    hide PutLe, Splice, Events, Pow256, LeBytes, ErrnoOf, DecodeEvent, Userdata;
    var base, area := PutLe(mem0, result, |order|, 4), OutArea(subs, env, order);
    PutThenGet(mem0, result, |order|, 4);
    GetLeSame(base, mem, result, 4);
    EventsPacked(subs, env, order, k);
    var lo := EVENT_SIZE * k;
    SubSlice(mem, out, |area|, lo, EVENT_SIZE);
    SubSlice(mem, out + lo, EVENT_SIZE, 0, 8);
    assert area[lo..lo + EVENT_SIZE] == Events(subs, env, order)[lo..lo + EVENT_SIZE];
    assert EventOf(subs[order[k]], env)[0..8] == subs[order[k]][..8];
    EventReads(subs[order[k]], env);
  }

  lemma SubSlice(s: Bytes, at: nat, n: nat, lo: nat, m: nat)
    requires at + n <= |s| && lo + m <= n
    ensures s[at..at + n][lo..lo + m] == s[at + lo..at + lo + m]
  {
    var t, w := s[at..at + n], s[at + lo..at + lo + m];
    var u := t[lo..lo + m];
    forall i | 0 <= i < m ensures u[i] == w[i] {
      assert t[lo + i] == s[at + lo + i];
    }
  }

  /** No subscription is acknowledged twice. */
  lemma OrderDistinct(subs: seq<Bytes>, env: Env, i: nat, j: nat)
    requires (forall k :: 0 <= k < |subs| ==> |subs[k]| == SUBSCRIPTION_SIZE) && Order(subs, env).Ok?
    requires i < j < |Order(subs, env).value|
    ensures Order(subs, env).value[i] != Order(subs, env).value[j]
  {
    hide Judge;
    AckedPositions(subs, env);
    DelayedPositions(subs, env);
    var acked, delayed, order := Acked(subs, env), Delayed(subs, env), Order(subs, env).value;
    if i < |acked| <= j {
      assert acked[i] in acked && delayed[j - |acked|] in delayed;
    }
  }

  ghost predicate HasClock(subs: seq<Bytes>, env: Env) {
    exists i :: 0 <= i < |subs| && IsClock(subs[i], env)
  }

  /**
    The call is to sleep only if there are clocks. It does exactly when there is a clock or something was
    delayed; otherwise it sleeps for the longest duration there is.
   */
  lemma SleepsForClocks(subs: seq<Bytes>, env: Env)
    requires subs != [] && (forall i :: 0 <= i < |subs| ==> |subs[i]| == SUBSCRIPTION_SIZE) && AllSettled(subs, env)
    ensures (WaitOf(subs, env).Sleep? ==> HasClock(subs, env)) <==> Delayed(subs, env) != [] || HasClock(subs, env)
    ensures Delayed(subs, env) == [] && !HasClock(subs, env) ==> WaitOf(subs, env) == Sleep(MAX_DURATION)
  {
    hide Judge, IsClock, ClockTimeout;
    LeastTimeoutIs(subs, env);
  }

  /** A subscription to writing to file descriptor 1. */
  const FD_WRITE: Bytes := seq(SUBSCRIPTION_SIZE, i => if i == 8 then 2 else if i == 16 then 1 else 0)

  /** A call with that subscription alone has no clock and sleeps for the longest duration. */
  lemma WriteSleepsLongest(env: Env)
    ensures AllSettled([FD_WRITE], env) && !HasClock([FD_WRITE], env)
    ensures WaitOf([FD_WRITE], env) == Sleep(MAX_DURATION)
  {
    Pow256Values();
    assert Judge(FD_WRITE, env).Ack? by {
      var fd := FD_WRITE[16..20];
      assert fd == [1, 0, 0, 0];
      assert LeValue(fd[3..]) == 0 && LeValue(fd[2..]) == 0 && LeValue(fd[1..]) == 0 by {
        assert fd[3..] == [0] && fd[2..][1..] == fd[3..] && fd[1..][1..] == fd[2..];
      }
      assert GetLe(FD_WRITE, 16, 4) == 1;
    }
    NoneDelayed([FD_WRITE], env);
    SleepsForClocks([FD_WRITE], env);
  }

  lemma {:induction false} NoneDelayed(subs: seq<Bytes>, env: Env)
    requires forall i :: 0 <= i < |subs| ==> Judge(subs[i], env).Ack?
    ensures Delayed(subs, env) == []
  {
    hide Judge;
    if subs != [] {
      NoneDelayed(subs[..|subs| - 1], env);
    }
  }
}
