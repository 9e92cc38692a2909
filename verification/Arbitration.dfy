/**
 Two CPUs share one I2C block.  Each CPU (a master) runs any number of threads
 behind its own bus lock; the lock holder negotiates with the other CPU through
 two request flags and one arbitration register.

 Every register access is one atomic step.  What the hardware is assumed to do:
   - reading the arbitration register is a test-and-set: a free register is
     taken by the read (Granted), a taken one stays taken (Taken);
   - writing the arbitration register frees it;
   - one master's local flag is the other master's peer flag;
   - a read that reports failure may nevertheless have taken the register, and a
     write that reports failure may or may not have happened.
 */
module Arbitration {
  import opened Options

  datatype Master = CpuA | CpuB {
    function Other(): Master {
      if this == CpuA then CpuB else CpuA
    }
  }

  /** What a read of the arbitration register told the reader. */
  datatype ArbOutcome = Granted | Taken | ReadFailed

  /** One step of the driver code, with what the access returned. */
  datatype Event =
    | PeerRead(requested: bool)
    | PeerReadFailed
    | ArbRead(outcome: ArbOutcome)
    | FlagWrite(raised: bool, ok: bool)
    | ArbWrite(ok: bool)
    | Sleep
    | Again
    | Expire

  /** Where a thread that holds its bus lock is.  `owned` tells whether the thread
      got its place on the bus by a grant that it still has. */
  datatype Pc =
    | ReadPeer
    | ReadArb(peer: bool)
    | RaiseFlag(owned: bool)
    | Yield
    | Wait
    | Poll
    | Decide
    | Bus(owned: bool)
    | FreeArb(owned: bool)
    | Unlock
  {
    /** The arbitration register is taken on behalf of this thread. */
    predicate Holding() {
      this == RaiseFlag(true) || this == Yield || this == Bus(true) || this == FreeArb(true)
    }

    /** Between the return of obtain and the end of release. */
    predicate InSection() {
      Bus? || FreeArb?
    }

    /** Asked for the bus and not yet admitted. */
    predicate Requesting() {
      Yield? || InWaitLoop()
    }

    predicate InWaitLoop() {
      Wait? || Poll? || Decide?
    }
  }

  /** The control flow of obtain_arbitration followed by release_arbitration. */
  function Next(pc: Pc, ev: Event): Option<Pc> {
    match (pc, ev)
    case (ReadPeer, PeerRead(requested)) => Some(ReadArb(requested))
    case (ReadPeer, PeerReadFailed) => Some(ReadArb(false))
    case (ReadArb(peer), ArbRead(o)) =>
      if o.Granted? && !peer then Some(Bus(true)) else Some(RaiseFlag(o.Granted?))
    case (RaiseFlag(owned), FlagWrite(true, ok)) =>
      if !ok then Some(Bus(owned)) else if owned then Some(Yield) else Some(Wait)
    case (Yield, ArbWrite(_)) => Some(Wait)
    case (Wait, Sleep) => Some(Poll)
    case (Poll, ArbRead(o)) => if o.Granted? then Some(Bus(true)) else Some(Decide)
    case (Decide, Again) => Some(Wait)
    case (Decide, Expire) => Some(Bus(false))
    case (Bus(owned), FlagWrite(false, _)) => Some(FreeArb(owned))
    case (FreeArb(_), ArbWrite(_)) => Some(Unlock)
    case _ => None
  }

  /** The section is entered exactly by the access that brings a thread onto the bus, and left
      exactly by the last access of a release. */
  lemma SectionIsObtainToRelease(pc: Pc, ev: Event, pc': Pc)
    requires Next(pc, ev) == Some(pc')
    ensures !pc.InSection() && pc'.InSection() <==> pc'.Bus?
    ensures pc.InSection() && !pc'.InSection() <==> pc' == Unlock
  {
  }

  /** One master: who holds the bus lock, where its threads are (absent: outside
      the lock), and its request flag. */
  datatype Side = Side(lock: Option<nat>, pcs: map<nat, Pc>, flag: bool) {
    /** Where thread t is; outside the lock it is about to read its peer's flag. */
    function PcOf(t: nat): Pc {
      if t in pcs then pcs[t] else ReadPeer
    }

    /** Only the lock holder is past the lock. */
    ghost predicate Disciplined() {
      forall t :: t in pcs ==> lock == Some(t)
    }

    ghost predicate Holds() {
      exists t :: t in pcs && pcs[t].Holding()
    }

    /** Everybody on the bus owns the register. */
    ghost predicate AllOwners() {
      forall t :: t in pcs ==> pcs[t] != Bus(false) && pcs[t] != FreeArb(false)
    }

    /** Whoever waits for the bus shows its request, and a request that is shown belongs to
        a thread that waits for the bus or is on it. */
    ghost predicate Truthful() {
      && (forall t :: t in pcs && pcs[t].Requesting() ==> flag)
      && (flag ==> exists t :: t in pcs && (pcs[t].Requesting() || pcs[t].Bus?))
    }
  }

  /** The last three fields are history, read by no step:
      tainted - some thread entered the bus without owning the register;
      stuck   - the register was taken for nobody, by a failed access;
      faulty  - some access failed or some wait expired. */
  datatype State = State(arb: bool, a: Side, b: Side, tainted: bool, stuck: bool, faulty: bool) {
    function At(m: Master): Side {
      if m == CpuA then a else b
    }

    function Put(m: Master, side: Side): State {
      if m == CpuA then this.(a := side) else this.(b := side)
    }

    predicate InSection(m: Master, t: nat) {
      t in At(m).pcs && At(m).pcs[t].InSection()
    }

    ghost predicate Holds(m: Master) {
      At(m).Holds()
    }
  }

  datatype Label = Acquire | Release | Access(ev: Event)

  predicate Fault(ev: Event) {
    || ev.PeerReadFailed? || ev == ArbRead(ReadFailed) || ev.Expire?
    || (ev.FlagWrite? && !ev.ok) || ev == ArbWrite(false)
  }

  /** What the access does to the arbitration register. */
  predicate ArbAfter(arb: bool, ev: Event, arb': bool) {
    match ev
    case ArbRead(Granted) => !arb && arb'
    case ArbRead(Taken) => arb && arb'
    case ArbRead(ReadFailed) => arb ==> arb'
    case ArbWrite(true) => !arb'
    case ArbWrite(false) => arb' ==> arb
    case _ => arb' == arb
  }

  /** What the access does to the accessing master's own request flag. */
  predicate FlagAfter(flag: bool, ev: Event, flag': bool) {
    match ev
    case FlagWrite(raised, ok) => flag' == raised || (!ok && flag' == flag)
    case _ => flag' == flag
  }

  /** A failed access may or may not have had its effect; only a read cannot free the register,
      nor a write take it. */
  lemma FailedAccessesAreOpen(arb: bool, flag: bool, raised: bool)
    ensures ArbAfter(arb, ArbRead(ReadFailed), arb) && ArbAfter(arb, ArbRead(ReadFailed), true)
    ensures ArbAfter(arb, ArbWrite(false), arb) && ArbAfter(arb, ArbWrite(false), false)
    ensures FlagAfter(flag, FlagWrite(raised, false), flag) && FlagAfter(flag, FlagWrite(raised, false), raised)
  {
  }

  /** Thread t of master m takes step l. */
  predicate Step(s: State, m: Master, t: nat, l: Label, s': State) {
    var me := s.At(m);
    match l
    case Acquire =>
      me.lock.None? && t !in me.pcs
      && s' == s.Put(m, Side(Some(t), me.pcs[t := ReadPeer], me.flag))
    case Release =>
      t in me.pcs && me.pcs[t].Unlock?
      && s' == s.Put(m, Side(None, me.pcs - {t}, me.flag))
    case Access(ev) =>
      t in me.pcs && Next(me.pcs[t], ev).Some?
      && var pc' := Next(me.pcs[t], ev).value;
      (ev.PeerRead? ==> ev.requested == s.At(m.Other()).flag)
      && ArbAfter(s.arb, ev, s'.arb)
      && FlagAfter(me.flag, ev, s'.At(m).flag)
      && s'.At(m.Other()) == s.At(m.Other())
      && s'.At(m).lock == me.lock
      && s'.At(m).pcs == me.pcs[t := pc']
      && s'.tainted == (s.tainted || pc' == Bus(false))
      && s'.stuck == (s.stuck || (ev == ArbRead(ReadFailed) && !s.arb && s'.arb) || (ev == ArbWrite(false) && s'.arb))
      && s'.faulty == (s.faulty || Fault(ev))
  }

  ghost predicate Steps(s: State, s': State) {
    exists m, t, l :: Step(s, m, t, l, s')
  }

  ghost predicate IsRun(r: seq<State>) {
    |r| > 0 && forall i :: 0 <= i < |r| - 1 ==> Steps(r[i], r[i + 1])
  }

  ghost predicate LockDiscipline(s: State) {
    s.a.Disciplined() && s.b.Disciplined()
  }

  /** Any state, with any register and flag values, in which nobody is on the bus or
      holds a grant: the state after boot, and also any later moment of calm. */
  ghost predicate Calm(s: State) {
    && LockDiscipline(s)
    && !s.tainted
    && !s.a.Holds() && !s.b.Holds()
    && s.a.AllOwners() && s.b.AllOwners()
  }

  /** The state after boot. */
  ghost predicate Boot(s: State) {
    && s.a.pcs == map[] && s.b.pcs == map[] && !s.a.flag && !s.b.flag
    && !s.arb && !s.tainted && !s.stuck && !s.faulty
  }

  lemma BootIsCalm(s: State)
    requires Boot(s)
    ensures Calm(s)
  {
  }

  // ---------------------------------------------------------------- safety

  ghost predicate Safe(s: State) {
    && LockDiscipline(s)
    && (!s.tainted ==>
          && s.a.AllOwners() && s.b.AllOwners()
          && !(s.a.Holds() && s.b.Holds())
          && (s.a.Holds() || s.b.Holds() ==> s.arb))
  }

  /** What one access does to a grant: only a granted read of a free register makes one, and
      only whoever has one, or entered without one, ends it. */
  lemma GrantStep(pc: Pc, ev: Event, pc': Pc, arb: bool, arb': bool)
    requires Next(pc, ev) == Some(pc') && ArbAfter(arb, ev, arb')
    ensures !pc.Holding() && pc'.Holding() ==> !arb && arb'
    ensures pc.Holding() && pc'.Holding() && arb ==> arb'
    ensures !pc.Holding() && pc != FreeArb(false) && arb ==> arb'
    ensures pc' == FreeArb(false) ==> pc == Bus(false)
  {
  }

  /** The side that takes a step, and the other one. */
  lemma StepShape(s: State, m: Master, t: nat, l: Label, s': State)
    requires s.At(m).Disciplined() && Step(s, m, t, l, s')
    ensures s'.At(m.Other()) == s.At(m.Other()) && s'.At(m).Disciplined()
    ensures match l
            case Acquire =>
                s'.arb == s.arb && s.At(m).pcs == map[] && s'.At(m).pcs == map[t := ReadPeer]
                && s'.tainted == s.tainted
            case Release =>
                s'.arb == s.arb && s.At(m).pcs == map[t := Unlock] && s'.At(m).pcs == map[]
                && s'.tainted == s.tainted
            case Access(ev) => Next(s.At(m).PcOf(t), ev) == Some(s'.At(m).PcOf(t)) && ArbAfter(s.arb, ev, s'.arb)
                               && s.At(m).pcs == map[t := s.At(m).PcOf(t)] && s'.At(m).pcs == map[t := s'.At(m).PcOf(t)]
                               && s'.tainted == (s.tainted || s'.At(m).PcOf(t) == Bus(false))
  {
    hide Next, ArbAfter, FlagAfter;
    var p, p' := s.At(m).pcs, s'.At(m).pcs;
    assert forall x :: x in p ==> x == t;
    assert forall x :: x in p' ==> x == t;
  }

  /** What a step does to the side that takes it. */
  lemma OwnSide(s: State, m: Master, t: nat, l: Label, s': State)
    requires s.At(m).Disciplined() && Step(s, m, t, l, s')
    ensures s'.At(m.Other()) == s.At(m.Other())
    ensures s'.At(m).Disciplined()
    ensures s'.Holds(m) <==> t in s'.At(m).pcs && s'.At(m).pcs[t].Holding()
    ensures s.Holds(m) <==> t in s.At(m).pcs && s.At(m).pcs[t].Holding()
    ensures s.At(m).AllOwners() && !s'.tainted ==> s'.At(m).AllOwners()
  {
    StepShape(s, m, t, l, s');
    hide Step, Next, ArbAfter;
    if l.Access? {
      GrantStep(s.At(m).PcOf(t), l.ev, s'.At(m).PcOf(t), s.arb, s'.arb);
    }
  }

  lemma StepKeepsSafe(s: State, m: Master, t: nat, l: Label, s': State)
    requires Safe(s) && Step(s, m, t, l, s')
    ensures Safe(s')
  {
    OwnSide(s, m, t, l, s');
    StepShape(s, m, t, l, s');
    hide Step, Next, ArbAfter;
    if l.Access? {
      GrantStep(s.At(m).PcOf(t), l.ev, s'.At(m).PcOf(t), s.arb, s'.arb);
    }
  }

  lemma {:induction false} RunIsSafe(r: seq<State>, i: nat)
    requires IsRun(r) && Calm(r[0]) && i < |r|
    ensures Safe(r[i])
  {
    if i > 0 {
      RunIsSafe(r, i - 1);
      assert Steps(r[i - 1], r[i - 1 + 1]);
      hide Step;
      var m, t, l :| Step(r[i - 1], m, t, l, r[i]);
      StepKeepsSafe(r[i - 1], m, t, l, r[i]);
    }
  }

  lemma MutualExclusionIn(s: State, m1: Master, t1: nat, m2: Master, t2: nat)
    requires Safe(s) && s.InSection(m1, t1) && s.InSection(m2, t2)
    ensures m1 == m2 ==> t1 == t2
    ensures !s.tainted ==> m1 == m2
  {
    assert Some(t1) == s.At(m1).lock && Some(t2) == s.At(m2).lock;
    if !s.tainted {
      assert s.At(m1).AllOwners() && s.At(m2).AllOwners();
      assert s.At(m1).pcs[t1].Holding() && s.At(m2).pcs[t2].Holding();
      assert s.Holds(m1) && s.Holds(m2);
    }
  }

  /** Mutual exclusion: failed peer reads, arbitration reads and arbitration writes
      included, at most one thread of both CPUs together is on the bus, as long as
      nobody entered the bus without a grant. */
  lemma MutualExclusion(r: seq<State>, i: nat, m1: Master, t1: nat, m2: Master, t2: nat)
    requires IsRun(r) && Calm(r[0]) && i < |r| && !r[i].tainted
    requires r[i].InSection(m1, t1) && r[i].InSection(m2, t2)
    ensures m1 == m2 && t1 == t2
  {
    RunIsSafe(r, i);
    MutualExclusionIn(r[i], m1, t1, m2, t2);
  }

  /** The taint is exactly an entry by the two branches that skip the grant: an
      expired wait, or a failed flag write after a first read that was not granted. */
  lemma TaintIsAnUnownedEntry(s: State, m: Master, t: nat, l: Label, s': State)
    requires Step(s, m, t, l, s') && !s.tainted
    ensures s'.tainted <==>
            t in s.At(m).pcs && ((s.At(m).pcs[t] == Decide && l == Access(Expire))
                                 || (s.At(m).pcs[t] == RaiseFlag(false) && l == Access(FlagWrite(true, false))))
  {
  }

  /** Two different threads are on the bus. */
  ghost predicate Broken(s: State) {
    exists m1, t1, m2, t2 :: s.InSection(m1, t1) && s.InSection(m2, t2) && (m1 != m2 || t1 != t2)
  }

  /** Exactly when exclusion ends: at an unowned entry that finds the peer on the bus. */
  lemma ExclusionEndsExactly(r: seq<State>, i: nat, m: Master, t: nat, l: Label, s': State)
    requires IsRun(r) && Calm(r[0]) && i < |r| && !r[i].tainted
    requires Step(r[i], m, t, l, s')
    ensures Broken(s') <==> s'.tainted && exists u :: r[i].InSection(m.Other(), u)
  {
    var s := r[i];
    RunIsSafe(r, i);
    StepKeepsSafe(s, m, t, l, s');
    OwnSide(s, m, t, l, s');
    if Broken(s') {
      var m1, t1, m2, t2 :| s'.InSection(m1, t1) && s'.InSection(m2, t2) && (m1 != m2 || t1 != t2);
      MutualExclusionIn(s', m1, t1, m2, t2);
      var u := if m1 == m then t2 else t1;
      assert s.InSection(m.Other(), u);
    }
    if s'.tainted && exists u :: s.InSection(m.Other(), u) {
      var u :| s.InSection(m.Other(), u);
      TaintIsAnUnownedEntry(s, m, t, l, s');
      assert s'.InSection(m, t) && s'.InSection(m.Other(), u);
    }
  }

  // ------------------------------------------------------------- ownership

  ghost predicate Owned(s: State) {
    && Safe(s)
    && (!s.tainted && !s.stuck ==> (s.arb ==> s.a.Holds() || s.b.Holds()))
  }

  /** A register left taken is taken for somebody, was taken before for nobody or somebody
      else, or was taken by a failed access. */
  lemma TakenStep(pc: Pc, ev: Event, pc': Pc, arb: bool, arb': bool)
    requires Next(pc, ev) == Some(pc') && ArbAfter(arb, ev, arb') && arb'
    ensures pc'.Holding() || (arb && !pc.Holding()) || (ev == ArbRead(ReadFailed) && !arb) || ev == ArbWrite(false)
  {
  }

  lemma StuckStep(s: State, m: Master, t: nat, ev: Event, s': State)
    requires Step(s, m, t, Access(ev), s')
    ensures s'.stuck == (s.stuck || (ev == ArbRead(ReadFailed) && !s.arb && s'.arb)
                           || (ev == ArbWrite(false) && s'.arb))
  {
    hide Next, ArbAfter, FlagAfter;
  }

  lemma StuckElse(s: State, m: Master, t: nat, l: Label, s': State)
    requires Step(s, m, t, l, s') && !l.Access?
    ensures s'.stuck == s.stuck
  {
    hide Next, ArbAfter, FlagAfter;
  }

  lemma StepKeepsOwned(s: State, m: Master, t: nat, l: Label, s': State)
    requires Owned(s) && Step(s, m, t, l, s')
    ensures Owned(s')
  {
    StepKeepsSafe(s, m, t, l, s');
    OwnSide(s, m, t, l, s');
    StepShape(s, m, t, l, s');
    if l.Access? {
      StuckStep(s, m, t, l.ev, s');
      hide Step, Next, ArbAfter, Safe;
      if s'.arb {
        TakenStep(s.At(m).PcOf(t), l.ev, s'.At(m).PcOf(t), s.arb, s'.arb);
      }
    } else {
      StuckElse(s, m, t, l, s');
      hide Step, Next, ArbAfter, Safe;
    }
  }

  lemma {:induction false} RunIsOwned(r: seq<State>, i: nat)
    requires IsRun(r) && Calm(r[0]) && (r[0].arb ==> r[0].stuck) && i < |r|
    ensures Owned(r[i])
  {
    if i > 0 {
      RunIsOwned(r, i - 1);
      assert Steps(r[i - 1], r[i - 1 + 1]);
      hide Step;
      var m, t, l :| Step(r[i - 1], m, t, l, r[i]);
      StepKeepsOwned(r[i - 1], m, t, l, r[i]);
    }
  }

  /** The register is taken exactly when one master holds a grant, never for both. */
  lemma TakenExactlyWhenHeld(r: seq<State>, i: nat)
    requires IsRun(r) && Boot(r[0]) && i < |r| && !r[i].tainted && !r[i].stuck
    ensures r[i].arb <==> r[i].Holds(CpuA) || r[i].Holds(CpuB)
    ensures !(r[i].Holds(CpuA) && r[i].Holds(CpuB))
  {
    RunIsOwned(r, i);
  }

  /** No deadlock: a polling thread whose peer holds no grant is admitted, as owner,
      by its next successful read; that read is possible and cannot say Taken. */
  lemma PollerIsAdmitted(r: seq<State>, i: nat, m: Master, t: nat) returns (s': State)
    requires IsRun(r) && Boot(r[0]) && i < |r| && !r[i].tainted && !r[i].stuck
    requires t in r[i].At(m).pcs && r[i].At(m).pcs[t] == Poll && !r[i].Holds(m.Other())
    ensures Step(r[i], m, t, Access(ArbRead(Granted)), s') && s'.At(m).pcs[t] == Bus(true)
    ensures forall x :: !Step(r[i], m, t, Access(ArbRead(Taken)), x)
  {
    RunIsOwned(r, i);
    TakenExactlyWhenHeld(r, i);
    var s := r[i];
    var me := s.At(m);
    assert forall x :: x in me.pcs ==> Some(x) == me.lock == Some(t);
    assert !s.Holds(m);
    s' := s.Put(m, Side(me.lock, me.pcs[t := Bus(true)], me.flag)).(arb := true);
  }

  // -------------------------------------------------------------- courtesy

  ghost predicate FlagsTruthful(s: State) {
    !s.faulty ==> s.a.Truthful() && s.b.Truthful()
  }

  lemma FlagStep(pc: Pc, ev: Event, pc': Pc, flag: bool, flag': bool)
    requires Next(pc, ev) == Some(pc') && FlagAfter(flag, ev, flag') && !Fault(ev)
    requires pc.Requesting() ==> flag
    requires flag ==> pc.Requesting() || pc.Bus?
    ensures pc'.Requesting() ==> flag'
    ensures flag' ==> pc'.Requesting() || pc'.Bus?
  {
  }

  lemma FlagShape(s: State, m: Master, t: nat, l: Label, s': State)
    requires Step(s, m, t, l, s')
    ensures s.faulty ==> s'.faulty
    ensures l.Access? ==>
              t in s.At(m).pcs && FlagAfter(s.At(m).flag, l.ev, s'.At(m).flag)
              && (Fault(l.ev) ==> s'.faulty)
  {
    hide Next, ArbAfter, FlagAfter;
  }

  lemma StepKeepsFlags(s: State, m: Master, t: nat, l: Label, s': State)
    requires LockDiscipline(s) && FlagsTruthful(s) && Step(s, m, t, l, s')
    ensures FlagsTruthful(s')
  {
    StepShape(s, m, t, l, s');
    FlagShape(s, m, t, l, s');
    hide Step, Next, ArbAfter, FlagAfter, Fault;
    if l.Access? && !s'.faulty {
      FlagStep(s.At(m).pcs[t], l.ev, s'.At(m).PcOf(t), s.At(m).flag, s'.At(m).flag);
    }
    if !s'.faulty {
      assert s'.At(m).Truthful();
    }
  }

  lemma {:induction false} RunFlagsTruthful(r: seq<State>, i: nat)
    requires IsRun(r) && Boot(r[0]) && i < |r|
    ensures FlagsTruthful(r[i])
  {
    if i > 0 {
      assert Steps(r[i - 1], r[i - 1 + 1]);
      BootIsCalm(r[0]);
      hide Step, FlagsTruthful, Boot, Calm;
      RunFlagsTruthful(r, i - 1);
      RunIsSafe(r, i - 1);
      var m, t, l :| Step(r[i - 1], m, t, l, r[i]);
      StepKeepsFlags(r[i - 1], m, t, l, r[i]);
    }
  }

  /** What the request flag means in a run without faults: every thread that waits for the
      bus shows it, it is shown only for a thread that waits for the bus or is on it, and a
      master whose lock is free does not show it. */
  lemma FlagMeansRequest(r: seq<State>, i: nat, m: Master)
    requires IsRun(r) && Boot(r[0]) && i < |r| && !r[i].faulty
    ensures forall t :: t in r[i].At(m).pcs && r[i].At(m).pcs[t].Requesting() ==> r[i].At(m).flag
    ensures r[i].At(m).flag ==>
              exists t :: t in r[i].At(m).pcs && (r[i].At(m).pcs[t].Requesting() || r[i].At(m).pcs[t].Bus?)
    ensures r[i].At(m).lock.None? ==> !r[i].At(m).flag
  {
    RunFlagsTruthful(r, i);
    RunIsSafe(r, i);
  }

  /** A fault never goes away, so a fault-free end means a fault-free run. */
  lemma {:induction false} FaultFreePrefix(r: seq<State>, i: nat, k: nat)
    requires IsRun(r) && i <= k < |r| && !r[k].faulty
    ensures !r[i].faulty
    decreases k - i
  {
    if i < k {
      FaultFreePrefix(r, i + 1, k);
      assert Steps(r[i], r[i + 1]);
    }
  }

  lemma TaintIsAFault(s: State, m: Master, t: nat, l: Label, s': State)
    requires Step(s, m, t, l, s') && !s.tainted && !s.stuck && !s'.faulty
    ensures !s'.tainted && !s'.stuck
  {
  }

  /** A fault-free run is untainted, and takes the register for nobody. */
  lemma {:induction false} FaultFreeUntainted(r: seq<State>, i: nat)
    requires IsRun(r) && Boot(r[0]) && i < |r| && !r[i].faulty
    ensures !r[i].tainted && !r[i].stuck
  {
    if i > 0 {
      FaultFreePrefix(r, i - 1, i);
      FaultFreeUntainted(r, i - 1);
      hide Step, Boot;
      assert Steps(r[i - 1], r[i - 1 + 1]);
      var m, t, l :| Step(r[i - 1], m, t, l, r[i]);
      TaintIsAFault(r[i - 1], m, t, l, r[i]);
    }
  }

  /** Alone, an attempt is undisputed: while the other master's lock is free and nothing
      fails, the peer flag reads as not requested, and then the first arbitration read is
      granted and the thread is on the bus. */
  lemma LoneAttemptIsUndisputed(r: seq<State>, i: nat, m: Master, t: nat, ev: Event, s': State)
    requires IsRun(r) && Boot(r[0]) && i < |r|
    requires Step(r[i], m, t, Access(ev), s') && !s'.faulty && r[i].At(m.Other()).lock.None?
    ensures ev.PeerRead? ==> ev == PeerRead(false) && s'.At(m).pcs[t] == Pc.ReadArb(false)
    ensures r[i].At(m).pcs[t] == Pc.ReadArb(false) ==> ev == Event.ArbRead(Granted) && s'.At(m).pcs[t] == Bus(true)
  {
    FlagShape(r[i], m, t, Access(ev), s');
    FlagMeansRequest(r, i, m.Other());
    FaultFreeUntainted(r, i);
    TakenExactlyWhenHeld(r, i);
    RunIsSafe(r, i);
    assert !r[i].Holds(m.Other());
    StepShape(r[i], m, t, Access(ev), s');
    if r[i].At(m).pcs[t] == Pc.ReadArb(false) {
      assert !r[i].Holds(m);
    }
  }

  /** Thread u of master m waits for the bus from state i to state k. */
  ghost predicate Waiting(r: seq<State>, i: nat, k: nat, m: Master, u: nat)
    requires k < |r|
  {
    forall j :: i <= j <= k ==> u in r[j].At(m).pcs && r[j].At(m).pcs[u].Requesting()
  }

  /** A moment at which the register is free and the waiting thread is in its loop. */
  predicate Chance(s: State, m: Master, u: nat) {
    !s.arb && u in s.At(m).pcs && s.At(m).pcs[u].InWaitLoop()
  }

  /** How far an attempt gets that started while a request was visible. */
  predicate Deferring(s: State, m: Master, t: nat) {
    t in s.At(m).pcs ==>
      var pc := s.At(m).pcs[t];
      pc == ReadPeer || pc == ReadArb(true) || pc.RaiseFlag? || pc.Requesting()
  }

  lemma DeferringStep(s: State, m: Master, u: nat, t: nat, m': Master, t': nat, l: Label, s': State)
    requires Safe(s) && FlagsTruthful(s) && !s.tainted
    requires Step(s, m', t', l, s') && !s'.faulty
    requires u in s.At(m).pcs && s.At(m).pcs[u].Requesting()
    requires Deferring(s, m.Other(), t)
    ensures Deferring(s', m.Other(), t) || Chance(s, m, u)
  {
    assert s'.At(m'.Other()) == s.At(m'.Other());
    assert m.Other().Other() == m && (m' == m || m' == m.Other());
    if m' == m.Other() && t' == t && t in s.At(m').pcs && s.At(m').pcs[t] == Poll {
      if s.At(m).pcs[u] == Yield {
        assert s.Holds(m) && s.arb;
      }
    }
  }

  /** Courtesy: once a request is visible, an attempt of the other master that starts
      afterwards cannot reach the bus before the requester, unless the register was
      free at some moment while the requester was in its wait loop. */
  lemma Courtesy(r: seq<State>, i: nat, k: nat, m: Master, u: nat, t: nat) returns (j: nat)
    requires IsRun(r) && Boot(r[0]) && i <= k < |r| && !r[k].faulty
    requires Waiting(r, i, k, m, u)
    requires t !in r[i].At(m.Other()).pcs
    requires r[k].InSection(m.Other(), t)
    ensures i <= j < k && Chance(r[j], m, u)
  {
    j := i;
    while j < k && !Chance(r[j], m, u)
      invariant i <= j <= k
      invariant Deferring(r[j], m.Other(), t)
      decreases k - j
    {
      assert u in r[j].At(m).pcs && r[j].At(m).pcs[u].Requesting();
      hide Step, Safe, FlagsTruthful, Deferring, Boot, Waiting;
      RunIsSafe(r, j) by {
        BootIsCalm(r[0]);
      }
      RunFlagsTruthful(r, j);
      FaultFreePrefix(r, j, k);
      FaultFreePrefix(r, j + 1, k);
      FaultFreeUntainted(r, j);
      assert Steps(r[j], r[j + 1]);
      var m', t', l :| Step(r[j], m', t', l, r[j + 1]);
      DeferringStep(r[j], m, u, t, m', t', l, r[j + 1]);
      j := j + 1;
    }
  }

  // ------------------------------------------------- where exclusion ends

  /** A run grows by any step from its last state. */
  lemma Extend(r: seq<State>, m: Master, t: nat, l: Label, s': State) returns (r': seq<State>)
    requires IsRun(r) && Step(r[|r| - 1], m, t, l, s')
    ensures IsRun(r') && r' == r + [s']
  {
    r' := r + [s'];
    forall i | 0 <= i < |r'| - 1
      ensures Steps(r'[i], r'[i + 1])
    {
      if i < |r| - 1 {
        assert Steps(r[i], r[i + 1]);
      }
    }
  }

  lemma RunOfOne(s: State)
    ensures IsRun([s])
  {
  }

  function One(pc: Pc, flag: bool): Side {
    Side(Some(0), map[0 := pc], flag)
  }

  const IDLE_SIDE := Side(None, map[], false)

  /** CpuA is on the bus by right. */
  lemma OnTheBus() returns (r: seq<State>)
    ensures IsRun(r) && |r| == 4 && Boot(r[0])
    ensures r[3] == State(true, One(Bus(true), false), IDLE_SIDE, false, false, false)
  {
    var s0 := State(false, IDLE_SIDE, IDLE_SIDE, false, false, false);
    var s1 := s0.(a := One(ReadPeer, false));
    var s2 := s1.(a := One(ReadArb(false), false));
    var s3 := s2.(a := One(Bus(true), false), arb := true);
    RunOfOne(s0);
    hide IsRun;
    r := Extend([s0], CpuA, 0, Acquire, s1);
    r := Extend(r, CpuA, 0, Access(PeerRead(false)), s2);
    r := Extend(r, CpuA, 0, Access(ArbRead(Granted)), s3);
  }

  /** CpuA is on the bus by right; CpuB has found the register taken. */
  lemma Contended() returns (r: seq<State>)
    ensures IsRun(r) && |r| == 7 && Boot(r[0])
    ensures r[6] == State(true, One(Bus(true), false), One(RaiseFlag(false), false), false, false, false)
  {
    hide IsRun;
    r := OnTheBus();
    var s3 := r[3];
    var s4 := s3.(b := One(ReadPeer, false));
    var s5 := s4.(b := One(ReadArb(false), false));
    var s6 := s5.(b := One(RaiseFlag(false), false));
    r := Extend(r, CpuB, 0, Acquire, s4);
    r := Extend(r, CpuB, 0, Access(PeerRead(false)), s5);
    r := Extend(r, CpuB, 0, Access(ArbRead(Taken)), s6);
  }

  /** Both CPUs are on the bus at the end of r, one step after an untainted state. */
  ghost predicate BreaksExclusion(r: seq<State>) {
    && IsRun(r) && |r| >= 2 && Boot(r[0])
    && !r[|r| - 2].tainted && !r[|r| - 2].stuck
    && r[|r| - 1].InSection(CpuA, 0) && r[|r| - 1].InSection(CpuB, 0)
  }

  /** An expired wait can put both CPUs on the bus. */
  lemma ExpiryBreaksExclusion() returns (r: seq<State>)
    ensures BreaksExclusion(r) && r[|r| - 2].b.pcs[0] == Decide
  {
    hide IsRun;
    r := Contended();
    var s6 := r[6];
    var s7 := s6.(b := One(Wait, true));
    var s8 := s7.(b := One(Poll, true));
    var s9 := s8.(b := One(Decide, true));
    var s10 := s9.(b := One(Bus(false), true), tainted := true, faulty := true);
    r := Extend(r, CpuB, 0, Access(FlagWrite(true, true)), s7);
    r := Extend(r, CpuB, 0, Access(Sleep), s8);
    r := Extend(r, CpuB, 0, Access(ArbRead(Taken)), s9);
    r := Extend(r, CpuB, 0, Access(Expire), s10);
  }

  /** So can a request flag that could not be written. */
  lemma LostRequestBreaksExclusion() returns (r: seq<State>)
    ensures BreaksExclusion(r) && r[|r| - 2].b.pcs[0] == RaiseFlag(false)
  {
    hide IsRun;
    r := Contended();
    var s7 := r[6].(b := One(Bus(false), false), tainted := true, faulty := true);
    r := Extend(r, CpuB, 0, Access(FlagWrite(true, false)), s7);
  }
}
