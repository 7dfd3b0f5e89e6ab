// poll_oneoff seen from the guest: subscriptions written field by field, events read field by field.

module PollGuests {
  import opened Words
  import opened Wrappers
  import opened Values
  import opened LittleEndian
  import opened PollEvents
  import opened Poll

  /** A subscription of WASI snapshot-01. */
  datatype Subscription = Subscription(userdata: uint64, request: Request)

  datatype Request =
    | Clock(id: uint32, timeout: uint64, precision: uint64, flags: uint16)
    | ReadFd(fd: uint32)
    | WriteFd(fd: uint32)

  function Tag(r: Request): byte {
    match r
    case Clock(_, _, _, _) => 0
    case ReadFd(_) => 1
    case WriteFd(_) => 2
  }

  /** n bytes of padding, whatever the guest left there. */
  function Pad(n: nat, b: byte): (bs: Bytes)
    ensures |bs| == n
  {
    seq(n, _ => b)
  }

  /** The union behind the tag: 32 bytes. */
  function Contents(r: Request, pad: byte): (bs: Bytes)
    ensures |bs| == 32
  {
    Pow256Values();
    match r
    case Clock(id, timeout, precision, flags) =>
      LeBytes(id, 4) + Pad(4, pad) + LeBytes(timeout, 8) + LeBytes(precision, 8) + LeBytes(flags, 2) + Pad(6, pad)
    case ReadFd(fd) => LeBytes(fd, 4) + Pad(28, pad)
    case WriteFd(fd) => LeBytes(fd, 4) + Pad(28, pad)
  }

  /** userdata, tag and contents at their alignments: 48 bytes. */
  function Encode(s: Subscription, pad: byte): (bs: Bytes)
    ensures |bs| == SUBSCRIPTION_SIZE
  {
    Pow256Values();
    LeBytes(s.userdata, 8) + [Tag(s.request)] + Pad(7, pad) + Contents(s.request, pad)
  }

  // ----- what a subscription is answered with -----

  /** Only relative clocks are supported; a descriptor that cannot be is refused, one that is not open is reported. */
  ghost function VerdictOf(s: Subscription, env: Env): Verdict {
    match s.request
    case Clock(_, _, _, flags) => if flags == 0 then Ack(0) else if flags == 1 then Abort(ENOTSUP) else Abort(EINVAL)
    case ReadFd(fd) =>
      if fd >= TWO_31 then Abort(EBADF)
      else if env.lookup(fd) == Missing then Ack(8)
      else if fd != 0 && env.lookup(fd) == Nonblock then Ack(0)
      else Delay
    case WriteFd(fd) =>
      if fd >= TWO_31 then Abort(EBADF) else if env.lookup(fd) == Missing then Ack(8) else Ack(58)
  }

  lemma SliceOf(a: Bytes, b: Bytes, c: Bytes)
    ensures (a + b + c)[|a|..|a| + |b|] == b
  {
  }

  lemma Parts(s: Subscription, pad: byte)
    ensures var bs := Encode(s, pad);
      && bs[..8] == LeBytes8(s.userdata) && bs[8] == Tag(s.request) && bs[16..48] == Contents(s.request, pad)
  {
    Pow256Values();
    var bs := Encode(s, pad);
    assert bs[..8] == LeBytes(s.userdata, 8);
    assert bs[8] == Tag(s.request);
    SliceOf(LeBytes(s.userdata, 8) + [Tag(s.request)] + Pad(7, pad), Contents(s.request, pad), []);
    assert bs == LeBytes(s.userdata, 8) + [Tag(s.request)] + Pad(7, pad) + Contents(s.request, pad) + [];
  }

  function LeBytes8(v: uint64): (bs: Bytes)
    ensures |bs| == 8
  {
    Pow256Values();
    LeBytes(v, 8)
  }

  lemma ClockParts(r: Request, pad: byte)
    requires r.Clock?
    ensures var c := Contents(r, pad);
      && r.timeout < Pow256(8) && c[8..16] == LeBytes(r.timeout, 8)
      && r.flags < Pow256(2) && c[24..26] == LeBytes(r.flags, 2)
  {
    Pow256Values();
    var a, b, d := LeBytes(r.id, 4) + Pad(4, pad), LeBytes(r.timeout, 8), LeBytes(r.precision, 8);
    var e, f := LeBytes(r.flags, 2), Pad(6, pad);
    SliceOf(a, b, d + e + f);
    assert Contents(r, pad) == a + b + (d + e + f);
    SliceOf(a + b + d, e, f);
    assert Contents(r, pad) == (a + b + d) + e + f;
  }

  lemma FdParts(r: Request, pad: byte)
    requires !r.Clock?
    ensures r.fd < Pow256(4) && Contents(r, pad)[0..4] == LeBytes(r.fd, 4)
  {
    Pow256Values();
  }

  /** What the host makes of a subscription is what its fields ask for. */
  lemma JudgedByFields(s: Subscription, pad: byte, env: Env)
    ensures Judge(Encode(s, pad), env) == VerdictOf(s, env)
    ensures s.request.Clock? ==> ClockTimeout(Encode(s, pad)) == ToInt64(s.request.timeout)
  {
    hide LeBytes, LeValue, Encode, Contents;
    Pow256Values();
    var bs := Encode(s, pad);
    Parts(s, pad);
    if s.request.Clock? {
      ClockParts(s.request, pad);
      SubSlice(bs, 16, 32, 8, 8);
      SubSlice(bs, 16, 32, 24, 2);
    } else {
      FdParts(s.request, pad);
      SubSlice(bs, 16, 32, 0, 4);
    }
  }

  /** A subscription of any other type is refused. */
  lemma OtherRefused(sub: Bytes, env: Env)
    requires |sub| == SUBSCRIPTION_SIZE && sub[8] > 2
    ensures Judge(sub, env) == Abort(EINVAL)
  {
  }

  ghost function EncodeAll(subs: seq<Subscription>, pad: byte): (all: seq<Bytes>)
    ensures |all| == |subs| && forall i :: 0 <= i < |all| ==> all[i] == Encode(subs[i], pad) && |all[i]| == SUBSCRIPTION_SIZE
  {
    seq(|subs|, i requires 0 <= i < |subs| => Encode(subs[i], pad))
  }

  ghost predicate Answerable(subs: seq<Subscription>, env: Env) {
    forall i :: 0 <= i < |subs| ==> !VerdictOf(subs[i], env).Abort?
  }

  ghost predicate IsLeast(subs: seq<Subscription>, t: int64) {
    && (forall i :: 0 <= i < |subs| && subs[i].request.Clock? ==> t <= ToInt64(subs[i].request.timeout))
    && ((exists i :: 0 <= i < |subs| && subs[i].request.Clock? && t == ToInt64(subs[i].request.timeout))
        || (t == MAX_DURATION && forall i :: 0 <= i < |subs| ==> !subs[i].request.Clock?))
  }

  /** A call whose subscriptions are all answered waits for the least of the timeouts the guest asked for. */
  lemma WaitsForLeast(subs: seq<Subscription>, pad: byte, env: Env)
    requires Answerable(subs, env)
    ensures AllSettled(EncodeAll(subs, pad), env)
    ensures IsLeast(subs, LeastTimeout(EncodeAll(subs, pad), env))
  {
    hide Judge, ClockTimeout, Encode;
    var all := EncodeAll(subs, pad);
    forall i | 0 <= i < |subs|
      ensures Judge(all[i], env) == VerdictOf(subs[i], env) && all[i][8] == Tag(subs[i].request)
      ensures subs[i].request.Clock? ==> ClockTimeout(all[i]) == ToInt64(subs[i].request.timeout)
      ensures IsClock(all[i], env) <==> subs[i].request.Clock?
    {
      JudgedByFields(subs[i], pad, env);
      Parts(subs[i], pad);
    }
    LeastTimeoutIs(all, env);
    var t := LeastTimeout(all, env);
    if t != MAX_DURATION {
      var i :| 0 <= i < |all| && IsClock(all[i], env) && t == ClockTimeout(all[i]);
      assert subs[i].request.Clock? && t == ToInt64(subs[i].request.timeout);
    } else if i :| 0 <= i < |subs| && subs[i].request.Clock? {
      assert t <= ToInt64(subs[i].request.timeout);
    }
  }

  // ----- events -----

  ghost function EventFor(s: Subscription, env: Env): Event {
    var v := VerdictOf(s, env);
    Event(s.userdata, if v.Ack? then v.errno else 0, Tag(s.request))
  }

  /** An event carries the userdata and the type of its subscription, and the error of its verdict. */
  lemma EventDecodes(s: Subscription, pad: byte, env: Env)
    ensures DecodeEvent(EventOf(Encode(s, pad), env)) == EventFor(s, env)
  {
    hide Encode, Judge, LeValue, LeBytes, DecodeEvent, EventOf;
    Pow256Values();
    Parts(s, pad);
    JudgedByFields(s, pad, env);
    EventReads(Encode(s, pad), env);
    assert Encode(s, pad)[0..8] == Encode(s, pad)[..8];
  }

  // ----- a whole call -----

  /** The subscriptions lie in memory one after the other. */
  ghost predicate Asked(mem: Bytes, at: nat, subs: seq<Subscription>, pad: byte) {
    && at + SUBSCRIPTION_SIZE * |subs| <= |mem|
    && forall i :: 0 <= i < |subs| ==>
         mem[at + SUBSCRIPTION_SIZE * i..at + SUBSCRIPTION_SIZE * (i + 1)] == Encode(subs[i], pad)
  }

  lemma AskedIs(mem: Bytes, at: nat, subs: seq<Subscription>, pad: byte)
    requires Asked(mem, at, subs, pad)
    ensures Subs(mem, at, |subs|) == EncodeAll(subs, pad)
  {
    hide Encode;
  }

  /** Stdin has data within the time the call waits for it. */
  ghost predicate StdinReady(env: Env, timeout: int64) {
    env.lookup(0) != Missing && env.pollStdin(Millis(timeout)) == Polled(true)
  }

  /** A whole number of milliseconds that the duration holds, if that fits a 32-bit number. */
  lemma MillisIs(timeout: int64)
    ensures 0 <= timeout < 1_000_000 * TWO_31 ==> Millis(timeout) * 1_000_000 <= timeout < (Millis(timeout) + 1) * 1_000_000
    ensures -1_000_000 * TWO_31 <= timeout < 0 ==> (Millis(timeout) - 1) * 1_000_000 < timeout <= Millis(timeout) * 1_000_000
  {
  }

  /** How a call ends that has no subscription to refuse. */
  ghost predicate Ends(subs: seq<Subscription>, env: Env, timeout: int64, o: Outcome, wait: Wait) {
    if forall i :: 0 <= i < |subs| ==> VerdictOf(subs[i], env).Ack? then
      o == Done && wait == if timeout > 0 then Sleep(timeout) else NoWait
    else if env.lookup(0) == Missing then o == Failed(EBADF) && wait == NoWait
    else
      match env.pollStdin(Millis(timeout))
      case NotPollable => o == Done && wait == NoWait
      case PollFails(code) => o == Failed(PollErrno(code)) && wait == PollStdin(Millis(timeout))
      case Polled(_) => o == Done && wait == PollStdin(Millis(timeout))
  }

  /** The subscriptions answered: those that could be at once, and those on stdin if it became ready. */
  ghost predicate AnsweredAre(subs: seq<Subscription>, env: Env, timeout: int64, order: seq<nat>) {
    && (forall k :: 0 <= k < |order| ==> order[k] < |subs|)
    && (forall j, k :: 0 <= j < k < |order| ==> order[j] != order[k])
    && forall i :: 0 <= i < |subs| ==> (i in order <==> VerdictOf(subs[i], env).Ack? || StdinReady(env, timeout))
  }

  ghost predicate EventsAre(subs: seq<Subscription>, env: Env, order: seq<nat>, events: seq<Event>) {
    |events| == |order| && forall k :: 0 <= k < |order| ==> order[k] < |subs| && events[k] == EventFor(subs[order[k]], env)
  }

  /**
    A guest that writes its subscriptions, calls, and reads the events. The call sleeps for the least timeout
    if nothing waits for stdin, and event k has the userdata, the type and the error of the k-th subscription
    answered. A subscription that is refused fails the call with the error of the first one.
   */
  method GuestPolls(mem: array<byte>, env: Env, inp: uint32, out: uint32, result: uint32, subs: seq<Subscription>, pad: byte)
    returns (o: Outcome, wait: Wait, events: seq<Event>, ghost order: seq<nat>, ghost timeout: int64)
    requires 0 < |subs| < TWO_32 && Tidy(mem.Length, inp, out, |subs|, result) && Asked(mem[..], inp, subs, pad)
    modifies mem
    ensures !Answerable(subs, env) ==>
      exists i :: 0 <= i < |subs| && Answerable(subs[..i], env) && VerdictOf(subs[i], env).Abort? && o == Failed(VerdictOf(subs[i], env).error)
    ensures Answerable(subs, env) ==>
      && IsLeast(subs, timeout) && Ends(subs, env, timeout, o, wait)
      && (o == Done ==> AnsweredAre(subs, env, timeout, order) && EventsAre(subs, env, order, events))
  {
    hide Encode, Judge, VerdictOf, Tidy, WaitOf, Order, Answered, LeastTimeout, EventOf, DecodeEvent, IsLeast, AllSettled, Answerable,
      EventFor, Ends, AnsweredAre, Asked, Subs;
    ghost var all := EncodeAll(subs, pad);
    AskedIs(mem[..], inp, subs, pad);
    SettledIs(subs, pad, env);
    timeout := LeastTimeout(all, env);
    ghost var mem0 := mem[..];
    o, wait := PollOneoff(mem, env, inp, out, |subs|, result);
    events, order := [], [];
    if !Answerable(subs, env) {
      RefusedIs(subs, pad, env, o);
    } else {
      WaitsForLeast(subs, pad, env);
      EndsIs(subs, pad, env, timeout, o, wait);
    }
    if o == Done {
      order := Order(all, env).value;
      OrderIs(subs, pad, env, timeout);
      var bytes := mem[..];
      CountIs(mem0, bytes, inp, out, result, subs, pad, env, order);
      var count := GetLe(bytes, result, 4);
      for k := 0 to count
        invariant |events| == k && forall j :: 0 <= j < k ==> order[j] < |subs| && events[j] == EventFor(subs[order[j]], env)
      {
        EventIs(mem0, bytes, inp, out, result, subs, pad, env, order, k);
        events := events + [DecodeEvent(bytes[out + EVENT_SIZE * k..out + EVENT_SIZE * (k + 1)])];
      }
    }
  }

  lemma SettledIs(subs: seq<Subscription>, pad: byte, env: Env)
    ensures AllSettled(EncodeAll(subs, pad), env) <==> Answerable(subs, env)
  {
    hide Encode, Judge;
    forall i | 0 <= i < |subs| ensures Judge(EncodeAll(subs, pad)[i], env) == VerdictOf(subs[i], env) {
      JudgedByFields(subs[i], pad, env);
    }
    assert AllSettled(EncodeAll(subs, pad), env) ==> Answerable(subs, env);
  }

  lemma RefusedIs(subs: seq<Subscription>, pad: byte, env: Env, o: Outcome)
    requires var all := EncodeAll(subs, pad);
      exists i :: 0 <= i < |all| && AllSettled(all[..i], env) && Judge(all[i], env).Abort? && o == Failed(Judge(all[i], env).error)
    ensures exists i :: 0 <= i < |subs| && Answerable(subs[..i], env) && VerdictOf(subs[i], env).Abort? && o == Failed(VerdictOf(subs[i], env).error)
  {
    hide Encode, Judge, VerdictOf, AllSettled, Answerable;
    var all := EncodeAll(subs, pad);
    var i :| 0 <= i < |all| && AllSettled(all[..i], env) && Judge(all[i], env).Abort? && o == Failed(Judge(all[i], env).error);
    assert all[..i] == EncodeAll(subs[..i], pad);
    SettledIs(subs[..i], pad, env);
    JudgedByFields(subs[i], pad, env);
  }

  lemma EndsIs(subs: seq<Subscription>, pad: byte, env: Env, timeout: int64, o: Outcome, wait: Wait)
    requires Answerable(subs, env) && timeout == LeastTimeout(EncodeAll(subs, pad), env)
    requires var order := Order(EncodeAll(subs, pad), env);
      wait == WaitOf(EncodeAll(subs, pad), env) && o == if order.Ok? then Done else Failed(order.error)
    ensures Ends(subs, env, timeout, o, wait)
  {
    hide Encode, Judge, VerdictOf, LeastTimeout, Acked, Delayed, Millis;
    var all := EncodeAll(subs, pad);
    DelayedPositions(all, env);
    forall i | 0 <= i < |subs| ensures Judge(all[i], env) == VerdictOf(subs[i], env) {
      JudgedByFields(subs[i], pad, env);
    }
    if i :| 0 <= i < |subs| && !VerdictOf(subs[i], env).Ack? {
      SettledIs(subs, pad, env);
      assert i in Delayed(all, env);
    } else {
      NoneDelayed(all, env);
    }
  }

  lemma OrderIs(subs: seq<Subscription>, pad: byte, env: Env, timeout: int64)
    requires Answerable(subs, env) && timeout == LeastTimeout(EncodeAll(subs, pad), env) && Order(EncodeAll(subs, pad), env).Ok?
    ensures AnsweredAre(subs, env, timeout, Order(EncodeAll(subs, pad), env).value)
  {
    hide Encode, Judge, LeastTimeout, Acked, Delayed, Millis;
    var all := EncodeAll(subs, pad);
    var order, acked, delayed := Order(all, env).value, Acked(all, env), Delayed(all, env);
    AckedPositions(all, env);
    DelayedPositions(all, env);
    forall j, k | 0 <= j < k < |order| ensures order[j] != order[k] {
      OrderDistinct(all, env, j, k);
    }
    forall i | 0 <= i < |subs| ensures i in order <==> VerdictOf(subs[i], env).Ack? || StdinReady(env, timeout) {
      JudgedByFields(subs[i], pad, env);
      assert i in order <==> i in acked || (delayed != [] && StdinReady(env, timeout) && i in delayed);
    }
  }

  lemma CountIs(mem0: Bytes, mem: Bytes, inp: uint32, out: uint32, result: uint32, subs: seq<Subscription>, pad: byte, env: Env, order: seq<nat>)
    requires Answered(mem0, mem, out, result, EncodeAll(subs, pad), env, order)
    requires |subs| < TWO_32 && Tidy(|mem|, inp, out, |subs|, result)
    ensures |mem| == |mem0| && GetLe(mem, result, 4) == |order| <= |subs|
  {
    hide Encode, PutLe, Pow256, Answered;
    AnsweredCount(mem0, mem, out, result, EncodeAll(subs, pad), env, order);
  }

  lemma EventIs(mem0: Bytes, mem: Bytes, inp: uint32, out: uint32, result: uint32, subs: seq<Subscription>, pad: byte, env: Env, order: seq<nat>, k: nat)
    requires Answered(mem0, mem, out, result, EncodeAll(subs, pad), env, order) && k < |order|
    requires |subs| < TWO_32 && Tidy(|mem|, inp, out, |subs|, result)
    ensures order[k] < |subs| && out + EVENT_SIZE * (k + 1) <= |mem|
    ensures DecodeEvent(mem[out + EVENT_SIZE * k..out + EVENT_SIZE * (k + 1)]) == EventFor(subs[order[k]], env)
  {
    hide Encode, DecodeEvent, EventOf, EventFor;
    AnsweredEvents(mem0, mem, out, result, EncodeAll(subs, pad), env, order, k);
    EventDecodes(subs[order[k]], pad, env);
  }
}
