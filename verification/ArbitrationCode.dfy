/**
 obtain_arbitration and release_arbitration as the driver runs them, for one
 caller that holds the bus lock.  Every access is recorded in a trace, and the
 trace is a path of the thread automaton of module Arbitration.
 */
module ArbitrationCode {
  import opened Options
  import opened Arbitration

  const TWO_31: int := 0x8000_0000
  const TWO_32: int := 0x1_0000_0000

  /** What a register read returns: a 32-bit value, or an error status. */
  datatype Read = Value(v: nat) | Failed(errno: int)

  predicate Wide(r: Read) {
    if r.Value? then r.v < TWO_32 else 0 < r.errno < TWO_31
  }

  /** Everything the calls learn from the hardware and the scheduler: the peer flag,
      the arbitration reads in order, whether the two writes succeed, and by how much
      each sleep overshoots. */
  datatype Env = Env(peer: Read, arb: nat -> Read, flagOk: bool, yieldOk: bool, late: nat -> nat)

  /** read_arb folds value and status into one C int. */
  function Status(r: Read): (e: int)
    requires Wide(r)
  {
    if r.Failed? then -r.errno else if r.v < TWO_31 then r.v else r.v - TWO_32
  }

  /** The C int assigned to a u32. */
  function AsU32(e: int): nat {
    e % TWO_32
  }

  function Outcome(r: Read): ArbOutcome {
    if r.Failed? then ReadFailed else if r.v == 0 then Granted else Taken
  }

  /** The reads among the first n that count as errors. */
  function Errors(arb: nat -> Read, n: nat): (c: nat) {
    if n == 0 then 0
    else Errors(arb, n - 1) + if arb(n - 1).Failed? || arb(n - 1).v >= TWO_31 then 1 else 0
  }

  /** The accesses of one call, oldest first. */
  datatype Trace = Start | Then(earlier: Trace, ev: Event)

  /** The automaton run over a trace. */
  function Follow(pc: Pc, trace: Trace): Option<Pc> {
    match trace
    case Start => Some(pc)
    case Then(earlier, ev) =>
      var before := Follow(pc, earlier);
      if before.None? then None else Next(before.value, ev)
  }

  /** How many arbitration reads a trace has. */
  function ArbReads(trace: Trace): nat {
    match trace
    case Start => 0
    case Then(earlier, ev) => ArbReads(earlier) + if ev.ArbRead? then 1 else 0
  }

  /** What a read of the arbitration register means: zero is a grant, any other value a
      refusal. */
  predicate Answers(r: Read, o: ArbOutcome) {
    match o
    case Granted => r == Value(0)
    case Taken => r.Value? && r.v != 0
    case ReadFailed => r.Failed?
  }

  /** Every access of a trace had the outcome the hardware gave; the arbitration reads
      are env.arb(0), env.arb(1), and so on, in order. */
  ghost predicate Agrees(trace: Trace, env: Env) {
    match trace
    case Start => true
    case Then(earlier, ev) =>
      && Agrees(earlier, env)
      && match ev
         case PeerRead(requested) => env.peer.Value? && requested == (env.peer.v != 0)
         case PeerReadFailed => env.peer.Failed?
         case ArbRead(o) => Answers(env.arb(ArbReads(earlier)), o)
         case FlagWrite(_, ok) => ok == env.flagOk
         case ArbWrite(ok) => ok == env.yieldOk
         case _ => true
  }

  /** A path of the automaton from the entry of obtain_arbitration to pc with n reads. */
  ghost predicate Path(trace: Trace, env: Env, pc: Pc, n: nat) {
    Follow(ReadPeer, trace) == Some(pc) && Agrees(trace, env) && ArbReads(trace) == n
  }

  /** How an attempt ended; polls counts the arbitration reads of the wait loop. */
  datatype Exit = Undisputed | NoRequest(granted: bool) | Admitted(polls: nat) | Expired(polls: nat) {
    function Polls(): nat {
      if Admitted? || Expired? then polls else 0
    }
  }

  /** The accesses of the wait loop up to its n-th poll. */
  function PollTrace(before: Trace, env: Env, n: nat): Trace {
    if n == 0 then before
    else
      var start := if n == 1 then before else Then(PollTrace(before, env, n - 1), Again);
      Then(Then(start, Sleep), ArbRead(Outcome(env.arb(n))))
  }

  /** The first two accesses of an attempt. */
  function LookTrace(env: Env): Trace {
    Then(Then(Start, if env.peer.Failed? then PeerReadFailed else PeerRead(env.peer.v != 0)),
         ArbRead(Outcome(env.arb(0))))
  }

  /** The accesses up to the wait loop. */
  function AskTrace(env: Env): Trace {
    var asked := Then(LookTrace(env), FlagWrite(true, env.flagOk));
    if Outcome(env.arb(0)).Granted? then Then(asked, ArbWrite(env.yieldOk)) else asked
  }

  /** All accesses of an attempt that ends in the given way. */
  function TraceOf(env: Env, exit: Exit): Trace {
    match exit
    case Undisputed => LookTrace(env)
    case NoRequest(_) => Then(LookTrace(env), FlagWrite(true, false))
    case Admitted(n) => PollTrace(AskTrace(env), env, n)
    case Expired(n) => Then(PollTrace(AskTrace(env), env, n), Expire)
  }

  /** The exit is the one that the hardware's answers call for, but for the clock. */
  ghost predicate Justified(env: Env, exit: Exit) {
    var granted := Outcome(env.arb(0)) == Granted;
    && (exit.Undisputed? <==> granted && (env.peer.Failed? || env.peer.v == 0))
    && (exit.NoRequest? ==> !env.flagOk && exit.granted == granted)
    && (exit.Admitted? || exit.Expired? ==>
          && env.flagOk && exit.polls >= 1
          && (forall k :: 1 <= k < exit.polls ==> Outcome(env.arb(k)) != Granted)
          && (exit.Admitted? <==> Outcome(env.arb(exit.polls)) == Granted))
  }

  /** Whether the caller leaves with a grant. */
  function Owner(exit: Exit): bool {
    exit.Undisputed? || exit.Admitted? || (exit.NoRequest? && exit.granted)
  }

  lemma OutcomeAnswers(arb: nat -> Read)
    ensures forall k :: Answers(arb(k), Outcome(arb(k)))
  {
  }

  lemma {:induction false} PollPath(before: Trace, env: Env, n: nat)
    requires Path(before, env, Wait, 1) && n >= 1
    requires forall k :: 1 <= k < n ==> Outcome(env.arb(k)) != Granted
    ensures Path(PollTrace(before, env, n), env, if Outcome(env.arb(n)) == Granted then Bus(true) else Decide, 1 + n)
  {
    OutcomeAnswers(env.arb);
    hide Outcome, Answers;
    var start := before;
    if n > 1 {
      PollPath(before, env, n - 1);
      start := Then(PollTrace(before, env, n - 1), Again);
    }
    assert Path(start, env, Wait, n);
    var slept := Then(start, Sleep);
    assert Path(slept, env, Poll, n);
  }

  /** The driver code refines the automaton: whatever the hardware answers, the accesses
      of an attempt are a path of the thread automaton to the bus, with the grant that
      the automaton records, and with one arbitration read per poll plus one. */
  lemma CodeFollowsAutomaton(env: Env, exit: Exit)
    requires Justified(env, exit)
    ensures Path(TraceOf(env, exit), env, Bus(Owner(exit)), 1 + exit.Polls())
  {
    OutcomeAnswers(env.arb);
    hide Outcome, Answers;
    var look := LookTrace(env);
    var peer := env.peer.Value? && env.peer.v != 0;
    assert Path(Start, env, ReadPeer, 0);
    assert Path(look.earlier, env, Pc.ReadArb(peer), 0);
    if !exit.Undisputed? {
      var granted := Outcome(env.arb(0)).Granted?;
      assert Path(look, env, RaiseFlag(granted), 1);
      if !exit.NoRequest? {
        var asked := Then(look, FlagWrite(true, env.flagOk));
        assert Path(asked, env, if granted then Yield else Wait, 1);
        assert Path(AskTrace(env), env, Wait, 1);
        PollPath(AskTrace(env), env, exit.polls);
      }
    }
  }

  function Sum(waits: seq<nat>): nat {
    if waits == [] then 0 else Sum(waits[..|waits| - 1]) + waits[|waits| - 1]
  }

  /** The largest of the waits, or 0. */
  function Largest(waits: seq<nat>): nat {
    if waits == [] then 0
    else
      var n, m := waits[|waits| - 1], Largest(waits[..|waits| - 1]);
      if m < n then n else m
  }

  /** The smallest of the waits and a limit. */
  function Smallest(waits: seq<nat>, limit: nat): nat {
    if waits == [] then limit
    else
      var n, m := waits[|waits| - 1], Smallest(waits[..|waits| - 1], limit);
      if n < m then n else m
  }

  /** They bound every wait, and are one of them (or where they started). */
  lemma {:induction false} LargestAndSmallest(waits: seq<nat>, limit: nat)
    ensures forall i :: 0 <= i < |waits| ==> Smallest(waits, limit) <= waits[i] <= Largest(waits)
    ensures Smallest(waits, limit) <= limit
    ensures waits != [] ==>
              Largest(waits) in waits && (Smallest(waits, limit) in waits || Smallest(waits, limit) == limit)
  {
    if waits != [] {
      LargestAndSmallest(waits[..|waits| - 1], limit);
    }
  }

  class Arbiter {
    // settings
    const timeout: nat
    const grant: nat
    const retry: nat
    const msPerJiffy: nat
    const timeoutMsecs: nat

    // statistics
    var disputed: nat
    var undisputed: nat
    var readPeerErr: nat
    var writeLocalErr: nat
    var readArbErr: nat
    var writeArbErr: nat
    var expires: nat
    var totalWait: nat
    var maxWait: nat
    var minWait: nat

    // history: attempts made and waits recorded
    ghost var attempts: nat
    ghost var waits: seq<nat>

    ghost predicate Valid()
      reads this
    {
      disputed + undisputed == attempts && expires <= disputed && Recorded()
    }

    /** The total is the sum of the recorded waits, and the extremes are those of the waits,
        the minimum starting at the timeout. */
    ghost predicate Recorded()
      reads `totalWait, `minWait, `maxWait, `waits
    {
      && totalWait == Sum(waits) && maxWait == Largest(waits) && minWait == Smallest(waits, timeoutMsecs)
      && forall i :: 0 <= i < |waits| ==> 0 < waits[i]
    }

    constructor (timeout: nat, grant: nat, retry: nat, msPerJiffy: nat, timeoutMsecs: nat)
      ensures Valid() && attempts == 0 && waits == []
      ensures this.timeout == timeout && this.grant == grant && this.retry == retry
      ensures this.msPerJiffy == msPerJiffy && this.timeoutMsecs == timeoutMsecs
    {
      this.timeout, this.grant, this.retry := timeout, grant, retry;
      this.msPerJiffy, this.timeoutMsecs := msPerJiffy, timeoutMsecs;
      disputed, undisputed, expires, totalWait, maxWait := 0, 0, 0, 0, 0;
      readPeerErr, writeLocalErr, readArbErr, writeArbErr := 0, 0, 0, 0;
      minWait := timeoutMsecs;
      attempts, waits := 0, [];
    }

    /** Jiffies from the start of the wait loop to its k-th arbitration read. */
    function ReadTime(late: nat -> nat, k: nat): nat
      requires k >= 1
    {
      if k == 1 then grant + late(0) else ReadTime(late, k - 1) + retry + late(k - 1)
    }

    /** The k-th poll comes before the wait expires. */
    predicate InTime(late: nat -> nat, k: nat)
      requires k >= 1
    {
      ReadTime(late, k) <= timeout
    }

    /** read_arb */
    method ReadArb(r: Read) returns (e: int)
      requires Wide(r)
      modifies `readArbErr
      ensures readArbErr == old(readArbErr) + if r.Failed? || r.v >= TWO_31 then 1 else 0
      ensures -TWO_31 <= e < TWO_31
      ensures AsU32(e) == 0 <==> Outcome(r) == Granted
    {
      e := Status(r);
      if e < 0 {
        readArbErr := readArbErr + 1;
      }
    }

    /** obtain_arbitration; `trace` lists the accesses in order. */
    method Obtain(env: Env) returns (exit: Exit, owned: bool, ghost trace: Trace)
      requires Valid() && Wide(env.peer) && forall k :: Wide(env.arb(k))
      requires retry >= 1 || forall k :: env.late(k) >= 1
      modifies this
      ensures Valid() && attempts == old(attempts) + 1
      ensures Justified(env, exit) && owned == Owner(exit)
      ensures trace == TraceOf(env, exit)
      // when the clock ends the wait
      ensures forall k :: 1 <= k < exit.Polls() ==> InTime(env.late, k)
      ensures exit.Expired? ==> !InTime(env.late, exit.polls)
      // statistics
      ensures undisputed == old(undisputed) + if exit.Undisputed? then 1 else 0
      ensures disputed == old(disputed) + if exit.Undisputed? then 0 else 1
      ensures expires == old(expires) + if exit.Expired? then 1 else 0
      ensures readPeerErr == old(readPeerErr) + if env.peer.Failed? then 1 else 0
      ensures writeLocalErr == old(writeLocalErr) + if exit.NoRequest? then 1 else 0
      ensures readArbErr == old(readArbErr) + Errors(env.arb, 1 + exit.Polls())
      ensures writeArbErr == old(writeArbErr)
                             + if exit.Polls() > 0 && Outcome(env.arb(0)) == Granted && !env.yieldOk then 1 else 0
      ensures waits == Waited(old(waits), env, exit)
    {
      hide ReadTime, Errors, PollTrace, Outcome, Wide, InTime, Recorded;
      var peer, arb;
      peer, arb, trace := Look(env);
      attempts := attempts + 1;
      if arb <= 0 && peer == 0 {
        undisputed := undisputed + 1;
        return Undisputed, true, trace;
      }
      disputed := disputed + 1;

      trace := Then(trace, FlagWrite(true, env.flagOk));
      if !env.flagOk {
        writeLocalErr := writeLocalErr + 1;
        return NoRequest(arb == 0), arb == 0, trace;
      }

      if arb == 0 {
        // the status is assigned to a u32, so the test for a negative value never holds
        if !env.yieldOk { writeArbErr := writeArbErr + 1; }
        trace := Then(trace, ArbWrite(env.yieldOk));
      }
      exit, trace := Await(env, trace);
      owned := exit.Admitted?;
    }

    /** The two reads at the start of obtain_arbitration. */
    method Look(env: Env) returns (peer: nat, arb: nat, ghost trace: Trace)
      requires Wide(env.arb(0))
      modifies `readPeerErr, `readArbErr
      ensures peer == if env.peer.Failed? then 0 else env.peer.v
      ensures arb == 0 <==> Outcome(env.arb(0)) == Granted
      ensures trace == LookTrace(env)
      ensures readPeerErr == old(readPeerErr) + if env.peer.Failed? then 1 else 0
      ensures readArbErr == old(readArbErr) + Errors(env.arb, 1)
    {
      peer := 0;
      if env.peer.Value? {
        peer := env.peer.v;
        trace := Then(Start, PeerRead(peer != 0));
      } else {
        readPeerErr := readPeerErr + 1;
        trace := Then(Start, PeerReadFailed);
      }
      var e := ReadArb(env.arb(0));
      arb := AsU32(e);
      trace := Then(trace, ArbRead(Outcome(env.arb(0))));
      assert Errors(env.arb, 1) == Errors(env.arb, 0) + if env.arb(0).Failed? || env.arb(0).v >= TWO_31 then 1 else 0;
    }

    /** The wait loop of obtain_arbitration and what follows it. */
    method Await(env: Env, ghost trace0: Trace) returns (exit: Exit, ghost trace: Trace)
      requires Valid() && forall k :: Wide(env.arb(k))
      requires expires < disputed
      requires retry >= 1 || forall k :: env.late(k) >= 1
      modifies `readArbErr, `expires, `totalWait, `maxWait, `minWait, `waits
      ensures Valid()
      ensures (exit.Admitted? || exit.Expired?) && exit.polls >= 1
      ensures forall k :: 1 <= k < exit.polls ==> Outcome(env.arb(k)) != Granted
      ensures forall k :: 1 <= k < exit.polls ==> InTime(env.late, k)
      ensures exit.Admitted? <==> Outcome(env.arb(exit.polls)) == Granted
      ensures exit.Expired? ==> !InTime(env.late, exit.polls)
      ensures trace == if exit.Admitted? then PollTrace(trace0, env, exit.polls)
                       else Then(PollTrace(trace0, env, exit.polls), Expire)
      ensures expires == old(expires) + if exit.Expired? then 1 else 0
      ensures readArbErr == old(readArbErr) + Errors(env.arb, 1 + exit.polls) - Errors(env.arb, 1)
      ensures waits == Waited(old(waits), env, exit)
    {
      hide ReadTime, Errors, PollTrace, Outcome, Wide, Recorded;
      var polls, now, arb;
      polls, now, arb, trace := PollLoop(env, trace0);
      if arb != 0 {
        expires := expires + 1;
        trace := Then(trace, Expire);
        return Expired(polls), trace;
      }
      RecordWait(now);
      return Admitted(polls), trace;
    }

    /** The recorded waits after an attempt: an admitted wait counts unless it is too
        short for a millisecond. */
    ghost function Waited(before: seq<nat>, env: Env, exit: Exit): seq<nat>
    {
      if exit.Admitted? && exit.polls >= 1 && ReadTime(env.late, exit.polls) * msPerJiffy > 0
      then before + [ReadTime(env.late, exit.polls) * msPerJiffy] else before
    }

    /** The statistics of an admitted wait of `now` jiffies. */
    method RecordWait(now: nat)
      requires Valid()
      modifies `totalWait, `maxWait, `minWait, `waits
      ensures Valid()
      ensures waits == if now * msPerJiffy > 0 then old(waits) + [now * msPerJiffy] else old(waits)
    {
      var msecs := now * msPerJiffy;
      if msecs != 0 {
        totalWait := totalWait + msecs;
        maxWait := if maxWait < msecs then msecs else maxWait;
        minWait := if msecs < minWait then msecs else minWait;
        assert (waits + [msecs])[..|waits|] == waits;
        waits := waits + [msecs];
      }
    }

    /** The sleep-and-poll loop of obtain_arbitration. */
    method PollLoop(env: Env, ghost trace0: Trace) returns (polls: nat, now: nat, arb: nat, ghost trace: Trace)
      requires forall k :: Wide(env.arb(k))
      requires retry >= 1 || forall k :: env.late(k) >= 1
      modifies `readArbErr
      ensures polls >= 1 && now == ReadTime(env.late, polls)
      ensures forall k :: 1 <= k < polls ==> Outcome(env.arb(k)) != Granted
      ensures forall k :: 1 <= k < polls ==> InTime(env.late, k)
      ensures arb == 0 <==> Outcome(env.arb(polls)) == Granted
      ensures arb != 0 ==> now > timeout
      ensures trace == PollTrace(trace0, env, polls)
      ensures readArbErr == old(readArbErr) + Errors(env.arb, 1 + polls) - Errors(env.arb, 1)
    {
      trace := trace0;
      now, polls := 0, 0;
      var sleep := grant;
      arb := 1;
      var more := true;
      while more
        invariant trace ==
                  if polls > 0 && more then Then(PollTrace(trace0, env, polls), Again)
                  else PollTrace(trace0, env, polls)
        invariant more == (arb != 0 && now <= timeout)
        invariant if polls == 0 then more && now == 0 && sleep == grant
                  else sleep == retry && now == ReadTime(env.late, polls)
                       && (arb == 0 <==> Outcome(env.arb(polls)) == Granted)
        invariant forall k :: 1 <= k < polls + (if more then 1 else 0) ==> Outcome(env.arb(k)) != Granted
        invariant forall k :: 1 <= k < polls + (if more then 1 else 0) ==> InTime(env.late, k)
        invariant readArbErr == old(readArbErr) + Errors(env.arb, 1 + polls) - Errors(env.arb, 1)
        decreases more, timeout - now, if polls == 0 then 1 else 0
      {
        now := now + sleep + env.late(polls);
        trace := Then(trace, Sleep);
        sleep := retry;
        polls := polls + 1;
        var e := ReadArb(env.arb(polls));
        arb := AsU32(e);
        trace := Then(trace, ArbRead(Outcome(env.arb(polls))));
        more := arb != 0 && now <= timeout;
        if more { trace := Then(trace, Again); }
      }
    }

    /** release_arbitration */
    method Release(flagOk: bool, arbOk: bool, ghost owned: bool) returns (ghost trace: Trace)
      requires Valid()
      modifies `writeLocalErr, `writeArbErr
      ensures Valid() && trace == Then(Then(Start, FlagWrite(false, flagOk)), ArbWrite(arbOk))
      ensures Follow(Bus(owned), trace) == Some(Unlock)
      ensures writeLocalErr == old(writeLocalErr) + if flagOk then 0 else 1
      ensures writeArbErr == old(writeArbErr) + if arbOk then 0 else 1
    {
      if !arbOk { writeArbErr := writeArbErr + 1; }
      if !flagOk { writeLocalErr := writeLocalErr + 1; }
      trace := Then(Then(Start, FlagWrite(false, flagOk)), ArbWrite(arbOk));
      assert Follow(Bus(owned), Start) == Some(Bus(owned));
      assert Follow(Bus(owned), trace.earlier) == Some(FreeArb(owned));
    }

    /** Each poll after the first costs at least one retry period. */
    lemma {:induction false} ReadTimeGrows(late: nat -> nat, k: nat)
      requires k >= 1
      ensures ReadTime(late, k) >= grant + (k - 1) * retry
      ensures (forall i :: late(i) == 0) ==> ReadTime(late, k) == grant + (k - 1) * retry
    {
      if k > 1 {
        ReadTimeGrows(late, k - 1);
        assert (k - 1) * retry == (k - 2) * retry + retry;
      }
    }

    /** The bound on one wait: n polls, where every poll but the last came in time, are at
        most (timeout - grant) / retry + 2, and exactly one when the grace period alone
        exceeds the timeout; with exact sleeps the wait lasts at most the larger of the
        grace period and timeout plus one retry period. */
    lemma WaitBound(late: nat -> nat, n: nat)
      requires n >= 1 && forall k :: 1 <= k < n ==> InTime(late, k)
      ensures grant > timeout ==> n == 1
      ensures grant <= timeout && retry >= 1 ==> n <= (timeout - grant) / retry + 2
      ensures ReadTime(late, n) <= (if grant > timeout + retry then grant else timeout + retry) + late(n - 1)
    {
      if n > 1 {
        assert InTime(late, n - 1);
        ReadTimeGrows(late, n - 1);
        if retry >= 1 {
          DivideBound(n - 2, retry, timeout - grant);
        }
      }
    }
  }

  lemma TimesMonotone(a: int, b: int, d: nat)
    requires a <= b
    ensures a * d <= b * d
  {
  }

  lemma DivideBound(q: int, d: nat, x: nat)
    requires d >= 1 && q * d <= x
    ensures q <= x / d
  {
    assert x < (x / d + 1) * d;
    if q >= x / d + 1 {
      TimesMonotone(x / d + 1, q, d);
    }
  }
}
