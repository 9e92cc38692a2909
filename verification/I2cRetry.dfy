/**
 One access of the I2C-EXT block with its retries: start it, wait until it is no
 longer busy, check the status, and on any failure reset the block and try again.
 */
module I2cRetry {
  import opened Options

  datatype Err = Ok | EIO | EBUSY | EAGAIN | EFAULT

  datatype IntStatus = IntStatus(timeout: bool, error: bool, done: bool)

  /** What one attempt runs into: whether the start write succeeds, what successive reads
      of the configuration register say about the busy bit (None: the read fails), by how
      much each sleep overshoots, and the interrupt status (None: the read fails). */
  datatype Attempt = Attempt(started: bool, busy: nat -> Option<bool>, late: nat -> nat, status: Option<IntStatus>)

  const SLEEP_MIN: nat := 80

  function Left(timeout: nat, now: nat): nat {
    if now <= timeout then timeout + 1 - now else 0
  }

  /** How the wait ends, after k reads said busy and `now` microseconds since the first. */
  function WaitEnd(a: Attempt, timeout: nat, k: nat, now: nat): (e: Err)
    requires k == 0 ==> now == 0
    ensures e in {Ok, EIO, EBUSY}
    decreases Left(timeout, now)
  {
    if a.busy(k).None? then EIO
    else if !a.busy(k).value then Ok
    else if k > 0 && now > timeout then EBUSY
    else WaitEnd(a, timeout, k + 1, now + SLEEP_MIN + a.late(k))
  }

  /** _wait_done */
  method WaitDone(a: Attempt, timeout: nat) returns (e: Err)
    ensures e == WaitEnd(a, timeout, 0, 0)
  {
    var busy := a.busy(0);
    if busy.None? { return EIO; }
    if busy.value {
      var k: nat, now: nat := 0, 0;
      while true
        invariant k == 0 ==> now == 0
        invariant k > 0 ==> now <= timeout
        invariant busy == a.busy(k) == Some(true)
        invariant WaitEnd(a, timeout, k, now) == WaitEnd(a, timeout, 0, 0)
        decreases Left(timeout, now)
      {
        now := now + SLEEP_MIN + a.late(k);
        k := k + 1;
        busy := a.busy(k);
        if busy.None? || !busy.value || now > timeout { break; }
      }
      if busy.None? { return EIO; }
      if busy.value { return EBUSY; }
    }
    e := Ok;
  }

  /** Microseconds from the first read to the n-th: every sleep takes at least 80. */
  function Elapsed(a: Attempt, n: nat): (t: nat)
    ensures t >= 80 * n
  {
    if n == 0 then 0 else Elapsed(a, n - 1) + 80 + a.late(n - 1)
  }

  /** The n-th read is made: all before it found the block busy, and all of those but the
      first came before the deadline. */
  ghost predicate Reaches(a: Attempt, timeout: nat, n: nat) {
    forall i :: 0 <= i < n ==> a.busy(i) == Some(true) && (i > 0 ==> Elapsed(a, i) <= timeout)
  }

  /** The three ways to end a wait with the n-th read: the block is idle, the read fails, or
      it is still busy after the deadline. */
  ghost predicate Idle(a: Attempt, timeout: nat, n: nat) {
    Reaches(a, timeout, n) && a.busy(n) == Some(false)
  }

  ghost predicate Unreadable(a: Attempt, timeout: nat, n: nat) {
    Reaches(a, timeout, n) && a.busy(n) == None
  }

  ghost predicate StaysBusy(a: Attempt, timeout: nat, n: nat) {
    Reaches(a, timeout, n) && a.busy(n) == Some(true) && n > 0 && Elapsed(a, n) > timeout
  }

  lemma {:induction false} WaitEndsAt(a: Attempt, timeout: nat, k: nat) returns (n: nat)
    requires Reaches(a, timeout, k)
    ensures match WaitEnd(a, timeout, k, Elapsed(a, k))
            case Ok => Idle(a, timeout, n)
            case EIO => Unreadable(a, timeout, n)
            case _ => StaysBusy(a, timeout, n)
    decreases Left(timeout, Elapsed(a, k))
  {
    n := k;
    if a.busy(k) == Some(true) && (k == 0 || Elapsed(a, k) <= timeout) {
      n := WaitEndsAt(a, timeout, k + 1);
    }
  }

  /** A wait ends in exactly one way and with exactly one read. */
  lemma WaitEndsOnce(a: Attempt, timeout: nat, m: nat, n: nat)
    requires Idle(a, timeout, m) || Unreadable(a, timeout, m) || StaysBusy(a, timeout, m)
    requires Idle(a, timeout, n) || Unreadable(a, timeout, n) || StaysBusy(a, timeout, n)
    ensures m == n
  {
  }

  /** What each outcome of a wait means. */
  lemma WaitEndsExactly(a: Attempt, timeout: nat)
    ensures WaitEnd(a, timeout, 0, 0) == Ok <==> exists n: nat :: Idle(a, timeout, n)
    ensures WaitEnd(a, timeout, 0, 0) == EIO <==> exists n: nat :: Unreadable(a, timeout, n)
    ensures WaitEnd(a, timeout, 0, 0) == EBUSY <==> exists n: nat :: StaysBusy(a, timeout, n)
  {
    var n := WaitEndsAt(a, timeout, 0);
    forall m: nat | Idle(a, timeout, m) || Unreadable(a, timeout, m) || StaysBusy(a, timeout, m)
      ensures m == n
    {
      WaitEndsOnce(a, timeout, m, n);
    }
  }

  /** _check_err */
  function CheckErr(status: Option<IntStatus>): Err {
    if status.None? then EIO
    else if status.value.timeout then EAGAIN
    else if status.value.error then EFAULT
    else if !status.value.done then EBUSY
    else Ok
  }

  function Result(a: Attempt, timeout: nat): Err {
    if !a.started then EIO
    else if WaitEnd(a, timeout, 0, 0) != Ok then WaitEnd(a, timeout, 0, 0)
    else CheckErr(a.status)
  }

  /** The only way to succeed: started, idle in time, no timeout, no error, and done. */
  lemma SuccessMeans(a: Attempt, timeout: nat)
    ensures Result(a, timeout) == Ok <==>
            && a.started
            && (exists n: nat :: Idle(a, timeout, n))
            && a.status.Some? && !a.status.value.timeout && !a.status.value.error && a.status.value.done
  {
    WaitEndsExactly(a, timeout);
  }

  /** What each error of an attempt means: EIO, a register could not be accessed; EBUSY, the
      block stayed busy past the deadline or says that the access is not done; EAGAIN, it
      says that the access timed out; EFAULT, that it failed. */
  lemma FailureMeans(a: Attempt, timeout: nat)
    ensures Result(a, timeout) == EIO <==>
              !a.started || (exists n: nat :: Unreadable(a, timeout, n))
              || ((exists n: nat :: Idle(a, timeout, n)) && a.status.None?)
    ensures Result(a, timeout) == EBUSY <==>
              a.started
              && ((exists n: nat :: StaysBusy(a, timeout, n))
                  || ((exists n: nat :: Idle(a, timeout, n)) && a.status == Some(IntStatus(false, false, false))))
    ensures Result(a, timeout) == EAGAIN <==>
              a.started && (exists n: nat :: Idle(a, timeout, n)) && a.status.Some? && a.status.value.timeout
    ensures Result(a, timeout) == EFAULT <==>
              a.started && (exists n: nat :: Idle(a, timeout, n))
              && a.status.Some? && !a.status.value.timeout && a.status.value.error
  {
    WaitEndsExactly(a, timeout);
  }

  /** What the driver does to the block, in order. */
  datatype Event = Tried(e: Err) | Reset | ClearIntr

  /** The attempts of one access: attempt `first` with `retries` more allowed. */
  function Tries(attempts: nat -> Attempt, timeout: nat, first: nat, retries: nat): (log: seq<Event>)
    ensures log != []
    decreases retries
  {
    var e := Result(attempts(first), timeout);
    TryEvents(e) + if e == Ok || retries == 0 then [] else Tries(attempts, timeout, first + 1, retries - 1)
  }

  function LastErr(attempts: nat -> Attempt, timeout: nat, first: nat, retries: nat): Err
    decreases retries
  {
    var e := Result(attempts(first), timeout);
    if e == Ok || retries == 0 then e else LastErr(attempts, timeout, first + 1, retries - 1)
  }

  /** What one attempt does. */
  function TryEvents(e: Err): seq<Event> {
    if e == Ok then [Tried(Ok)] else [Tried(e), Reset, ClearIntr]
  }

  /** How many attempts one access makes. */
  function TryCount(attempts: nat -> Attempt, timeout: nat, first: nat, retries: nat): (n: nat)
    ensures 1 <= n <= retries + 1
    decreases retries
  {
    if Result(attempts(first), timeout) == Ok || retries == 0 then 1
    else 1 + TryCount(attempts, timeout, first + 1, retries - 1)
  }

  /** One round more of each of the three. */
  lemma TriesStep(attempts: nat -> Attempt, timeout: nat, first: nat, retries: nat)
    ensures
      var e := Result(attempts(first), timeout);
      var last := e == Ok || retries == 0;
      && Tries(attempts, timeout, first, retries)
         == TryEvents(e) + (if last then [] else Tries(attempts, timeout, first + 1, retries - 1))
      && TryCount(attempts, timeout, first, retries)
         == 1 + (if last then 0 else TryCount(attempts, timeout, first + 1, retries - 1))
      && LastErr(attempts, timeout, first, retries)
         == if last then e else LastErr(attempts, timeout, first + 1, retries - 1)
  {
    hide Result;
  }

  /** Every failed attempt is followed at once by a reset and an interrupt clear, and
      nothing else happens in between attempts. */
  predicate Disciplined(log: seq<Event>) {
    if log == [] then true
    else if log[0] == Tried(Ok) then Disciplined(log[1..])
    else |log| >= 3 && log[0].Tried? && log[1] == Reset && log[2] == ClearIntr && Disciplined(log[3..])
  }

  /** The retry discipline of one access: it succeeds exactly when its last attempt does,
      all earlier ones failed, at most retries + 1 are made, and it gives up only after
      exactly that many. */
  lemma {:induction false} RetryDiscipline(attempts: nat -> Attempt, timeout: nat, first: nat, retries: nat)
    ensures Disciplined(Tries(attempts, timeout, first, retries))
    ensures var n := TryCount(attempts, timeout, first, retries);
            && LastErr(attempts, timeout, first, retries) == Result(attempts(first + n - 1), timeout)
            && (forall k :: first <= k < first + n - 1 ==> Result(attempts(k), timeout) != Ok)
            && (LastErr(attempts, timeout, first, retries) != Ok ==> n == retries + 1)
            && |Tries(attempts, timeout, first, retries)|
               == 3 * n - if LastErr(attempts, timeout, first, retries) == Ok then 2 else 0
    decreases retries
  {
    hide Result, Tries, TryCount, LastErr;
    TriesStep(attempts, timeout, first, retries);
    var e := Result(attempts(first), timeout);
    if e != Ok {
      var rest := if retries == 0 then [] else Tries(attempts, timeout, first + 1, retries - 1);
      if retries > 0 {
        RetryDiscipline(attempts, timeout, first + 1, retries - 1);
      }
      assert (TryEvents(e) + rest)[3..] == rest;
    } else {
      assert (TryEvents(e) + [])[1..] == [];
    }
  }
}
