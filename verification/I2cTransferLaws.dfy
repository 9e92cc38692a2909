/**
 What the I2C-EXT transfer is for: exactly when accesses, messages and whole transfers
 succeed, the retry discipline over all of them, and the bytes they move.
 */
module I2cTransferLaws {
  import opened Bytes
  import opened I2cRetry
  import opened I2cChunks
  import opened I2cTransfer

  // ------------------------------------------------------------ one access

  /** Started, idle in time, and a status with done set and neither timeout nor error. */
  ghost predicate Clean(a: Attempt, timeout: nat) {
    && a.started && (exists n: nat :: Idle(a, timeout, n))
    && a.status.Some? && !a.status.value.timeout && !a.status.value.error && a.status.value.done
  }

  /** An access succeeds exactly when its size register is written and its last attempt is
      clean; it makes at most retries + 1 attempts, and gives up only after all of them. */
  lemma AccessSucceedsExactly(hw: Hw, n: nat, t: nat)
    ensures AccessErr(hw, n, t) == Ok <==>
              hw.cfg2Ok(n) && Clean(hw.attempt(t + AccessTries(hw, n, t) - 1), hw.timeout)
    ensures AccessTries(hw, n, t) <= hw.retries + 1
    ensures hw.cfg2Ok(n) && AccessErr(hw, n, t) != Ok ==> AccessTries(hw, n, t) == hw.retries + 1
    ensures Disciplined(AccessEvents(hw, n, t))
  {
    hide Result, Tries, TryCount, LastErr, Idle;
    if hw.cfg2Ok(n) {
      RetryDiscipline(hw.attempt, hw.timeout, t, hw.retries);
      SuccessMeans(hw.attempt(t + AccessTries(hw, n, t) - 1), hw.timeout);
    }
  }

  // --------------------------------------------------- accesses in a row

  /** The attempts of m accesses in a row, the first one number n, its first attempt t. */
  function RowTries(hw: Hw, n: nat, t: nat, m: nat): nat
    decreases m
  {
    if m == 0 then 0
    else AccessTries(hw, n, t) + RowTries(hw, n + 1, t + AccessTries(hw, n, t), m - 1)
  }

  /** Their attempts, resets and clears, one access after the other. */
  function RowEvents(hw: Hw, n: nat, t: nat, m: nat): seq<Event>
    decreases m
  {
    if m == 0 then []
    else AccessEvents(hw, n, t) + RowEvents(hw, n + 1, t + AccessTries(hw, n, t), m - 1)
  }

  /** The first error of k accesses in a row. */
  function RowErr(hw: Hw, n: nat, t: nat, k: nat): Err
    decreases k
  {
    if k == 0 then Ok
    else
      var e := AccessErr(hw, n, t);
      if e != Ok then e else RowErr(hw, n + 1, t + AccessTries(hw, n, t), k - 1)
  }

  /** How many of them are made when the row stops at the first error. */
  function RowLen(hw: Hw, n: nat, t: nat, k: nat): (m: nat)
    ensures m <= k && (RowErr(hw, n, t, k) == Ok ==> m == k) && (RowErr(hw, n, t, k) != Ok ==> m > 0)
    decreases k
  {
    if k == 0 then 0
    else if AccessErr(hw, n, t) != Ok then 1
    else 1 + RowLen(hw, n + 1, t + AccessTries(hw, n, t), k - 1)
  }

  /** The error of access i of a row. */
  function ErrAt(hw: Hw, n: nat, t: nat, i: nat): Err {
    AccessErr(hw, n + i, t + RowTries(hw, n, t, i))
  }

  lemma ErrAtNext(hw: Hw, n: nat, t: nat, i: nat)
    requires i > 0
    ensures ErrAt(hw, n, t, i) == ErrAt(hw, n + 1, t + AccessTries(hw, n, t), i - 1)
  {
    hide AccessErr, AccessTries;
  }

  /** A row stops at its first error: every access before the last one made succeeds, and
      the row's error is that of the last one; it succeeds when all its accesses do. */
  lemma {:induction false} RowErrIsFirst(hw: Hw, n: nat, t: nat, k: nat)
    ensures RowErr(hw, n, t, k) == Ok <==> forall i :: 0 <= i < k ==> ErrAt(hw, n, t, i) == Ok
    ensures var m := RowLen(hw, n, t, k);
            && (forall i :: 0 <= i < m - 1 ==> ErrAt(hw, n, t, i) == Ok)
            && (m > 0 ==> RowErr(hw, n, t, k) == ErrAt(hw, n, t, m - 1))
    decreases k
  {
    hide AccessErr, AccessTries, ErrAt;
    if k > 0 {
      FirstErr(hw, n, t);
      var t' := t + AccessTries(hw, n, t);
      RowErrIsFirst(hw, n + 1, t', k - 1);
      forall i: nat | 0 < i
        ensures ErrAt(hw, n, t, i) == ErrAt(hw, n + 1, t', i - 1)
      {
        ErrAtNext(hw, n, t, i);
      }
      forall i: nat {:trigger ErrAt(hw, n + 1, t', i)}
        ensures ErrAt(hw, n + 1, t', i) == ErrAt(hw, n, t, i + 1)
      {
        ErrAtNext(hw, n, t, i + 1);
      }
    }
  }

  lemma FirstErr(hw: Hw, n: nat, t: nat)
    ensures ErrAt(hw, n, t, 0) == AccessErr(hw, n, t)
  {
  }

  lemma {:induction false} RowsJoin(hw: Hw, n: nat, t: nat, m: nat, k: nat)
    ensures var t' := t + RowTries(hw, n, t, m);
            && RowTries(hw, n, t, m + k) == RowTries(hw, n, t, m) + RowTries(hw, n + m, t', k)
            && RowEvents(hw, n, t, m + k) == RowEvents(hw, n, t, m) + RowEvents(hw, n + m, t', k)
    decreases m
  {
    hide AccessTries, AccessEvents;
    if m == 0 {
      assert RowEvents(hw, n, t, k) == [] + RowEvents(hw, n, t, k);
    } else {
      var t1 := t + AccessTries(hw, n, t);
      RowsJoin(hw, n + 1, t1, m - 1, k);
      assert m - 1 + k == m + k - 1;
    }
  }

  /** Over any number of accesses every failed attempt is followed by a reset and a clear,
      and there are at most retries + 1 attempts an access. */
  lemma {:induction false} RowDiscipline(hw: Hw, n: nat, t: nat, m: nat)
    ensures Disciplined(RowEvents(hw, n, t, m)) && RowTries(hw, n, t, m) <= m * (hw.retries + 1)
    decreases m
  {
    hide AccessTries, AccessEvents, AccessErr, Disciplined, Clean;
    if m == 0 {
      NoEvents();
    } else {
      var t1 := t + AccessTries(hw, n, t);
      AccessSucceedsExactly(hw, n, t);
      RowDiscipline(hw, n + 1, t1, m - 1);
      DisciplinedConcat(AccessEvents(hw, n, t), RowEvents(hw, n + 1, t1, m - 1));
      assert m * (hw.retries + 1) == (m - 1) * (hw.retries + 1) + (hw.retries + 1);
    }
  }

  lemma NoEvents()
    ensures Disciplined([])
  {
  }

  lemma {:induction false} DisciplinedConcat(a: seq<Event>, b: seq<Event>)
    requires Disciplined(a) && Disciplined(b)
    ensures Disciplined(a + b)
  {
    if a == [] {
      assert a + b == b;
    } else {
      var n := if a[0] == Tried(Ok) then 1 else 3;
      DisciplinedConcat(a[n..], b);
      assert (a + b)[n..] == a[n..] + b;
    }
  }

  // ------------------------------------------------------ what only grows

  /** Between the two states the block saw exactly the accesses counted, in a row. */
  ghost predicate Follows(hw: Hw, d: Dev, d': Dev) {
    && d.accesses <= d'.accesses
    && d'.tries == d.tries + RowTries(hw, d.accesses, d.tries, d'.accesses - d.accesses)
    && d'.log == d.log + RowEvents(hw, d.accesses, d.tries, d'.accesses - d.accesses)
  }

  lemma FollowsItself(hw: Hw, d: Dev, d': Dev)
    requires d'.accesses == d.accesses && d'.tries == d.tries && d'.log == d.log
    ensures Follows(hw, d, d')
  {
    assert d.log + [] == d.log;
  }

  lemma FollowsTwice(hw: Hw, a: Dev, b: Dev, c: Dev)
    requires Follows(hw, a, b) && Follows(hw, b, c)
    ensures Follows(hw, a, c)
  {
    hide RowTries, RowEvents;
    var m, k := b.accesses - a.accesses, c.accesses - b.accesses;
    RowsJoin(hw, a.accesses, a.tries, m, k);
    assert (a.log + RowEvents(hw, a.accesses, a.tries, m)) + RowEvents(hw, b.accesses, b.tries, k)
        == a.log + (RowEvents(hw, a.accesses, a.tries, m) + RowEvents(hw, b.accesses, b.tries, k));
  }

  lemma AccessFollows(hw: Hw, d: Dev, d': Dev)
    requires d'.accesses == d.accesses + 1 && d'.tries == d.tries + AccessTries(hw, d.accesses, d.tries)
    requires d'.log == d.log + AccessEvents(hw, d.accesses, d.tries)
    ensures Follows(hw, d, d')
  {
    hide AccessTries, AccessEvents;
    var t' := d.tries + AccessTries(hw, d.accesses, d.tries);
    assert RowTries(hw, d.accesses + 1, t', 0) == 0 && RowEvents(hw, d.accesses + 1, t', 0) == [];
    assert RowEvents(hw, d.accesses, d.tries, 1) == AccessEvents(hw, d.accesses, d.tries) + [];
  }

  // ------------------------------------------------------------ a write row

  /** A write makes the accesses of the cut message up to the first that fails, and those
      that succeed are on the wire; its error is the row's. */
  lemma {:induction false} SendRowOutcome(hw: Hw, d: Dev, bytes: seq<Byte>)
    requires hw.Valid() && d.Valid()
    ensures var (d', e) := SendRow(hw, d, bytes);
            var parts := Split(bytes, hw.bufSize);
            && e == RowErr(hw, d.accesses, d.tries, |parts|)
            && d'.accesses == d.accesses + RowLen(hw, d.accesses, d.tries, |parts|)
            && d'.wire == d.wire + parts[..if e == Ok then |parts| else d'.accesses - d.accesses - 1]
            && Follows(hw, d, d') && d'.waits == d.waits && d'.pos == d.pos
    decreases |bytes|
  {
    hide AccessTries, AccessEvents, AccessErr, Follows;
    if bytes == [] {
      FollowsItself(hw, d, d);
      assert Split(bytes, hw.bufSize) == [] && d.wire + [] == d.wire;
    } else {
      var n := Min(|bytes|, hw.bufSize);
      var (d1, e) := SendOne(hw, d, bytes[..n]);
      var part, rest := bytes[..n], Split(bytes[n..], hw.bufSize);
      assert Split(bytes, hw.bufSize) == [part] + rest;
      AccessFollows(hw, d, d1);
      if e != Ok {
        assert d.wire + ([part] + rest)[..0] == d.wire;
      } else {
        SendRowOutcome(hw, d1, bytes[n..]);
        var d2 := SendRow(hw, d1, bytes[n..]).0;
        FollowsTwice(hw, d, d1, d2);
        PrefixCons(d.wire, part, rest, |d2.wire| - |d1.wire|);
      }
    }
  }

  lemma PrefixCons(wire: seq<seq<Byte>>, part: seq<Byte>, rest: seq<seq<Byte>>, k: nat)
    requires k <= |rest|
    ensures (wire + [part]) + rest[..k] == wire + ([part] + rest)[..k + 1]
  {
  }

  // ------------------------------------------------------------- a read row

  /** How many accesses a read of len bytes takes. */
  function Chunks(len: nat, size: nat): nat
    requires size > 0
    decreases len
  {
    if len == 0 then 0 else 1 + Chunks(len - Min(len, size), size)
  }

  lemma WordsAdd(len: nat, size: nat)
    requires size % 4 == 0 && size > 0
    ensures WordsIn(len) == WordsIn(Min(len, size)) + WordsIn(len - Min(len, size))
  {
    if len > size {
      assert len + 3 == 4 * (size / 4) + (len - size + 3);
    }
  }

  predicate AllOk(readOk: nat -> bool, from: nat, n: nat) {
    forall k :: from <= k < from + n ==> readOk(k)
  }

  lemma AllOkSplits(readOk: nat -> bool, from: nat, m: nat, n: nat)
    ensures AllOk(readOk, from, m + n) <==> AllOk(readOk, from, m) && AllOk(readOk, from + m, n)
  {
  }

  lemma DrainIsOk(hw: Hw, d: Dev, chunk: nat)
    requires d.Valid() && chunk <= WINDOW
    ensures var (d', e, n) := DrainOne(hw, d, chunk);
            && (e == Ok <==> AllOk(hw.readOk, d.wordReads, WordsIn(chunk)))
            && (e == Ok ==> n == chunk && d'.wordReads == d.wordReads + WordsIn(chunk))
            && d'.accesses == d.accesses && d'.tries == d.tries && d'.log == d.log && d'.wire == d.wire
            && d'.waits == d.waits && d'.pos == d.pos
  {
  }

  lemma {:induction false} ReadRowCounts(hw: Hw, d: Dev, len: nat, got: seq<Byte>)
    requires hw.Valid() && d.Valid()
    ensures var (d', e, now) := ReadRow(hw, d, len, got);
            && (e == Ok <==> RowErr(hw, d.accesses, d.tries, Chunks(len, hw.bufSize)) == Ok
                             && AllOk(hw.readOk, d.wordReads, WordsIn(len)))
            && (e == Ok ==> d'.accesses == d.accesses + Chunks(len, hw.bufSize)
                            && d'.wordReads == d.wordReads + WordsIn(len))
            && d'.accesses - d.accesses <= Chunks(len, hw.bufSize)
            && Follows(hw, d, d') && d'.waits == d.waits && d'.wire == d.wire
    decreases len
  {
    hide AccessErr, AccessTries, Follows, AllOk, ReadOne, WordsIn, Received;
    if len == 0 {
      FollowsItself(hw, d, d);
      NoWords(hw.readOk, d.wordReads);
    } else {
      var chunk := Min(len, hw.bufSize);
      var (d1, e, part) := ReadOne(hw, d, len);
      ReadOneOutcome(hw, d, len);
      WordsAdd(len, hw.bufSize);
      AllOkSplits(hw.readOk, d.wordReads, WordsIn(chunk), WordsIn(len - chunk));
      if e == Ok {
        ReadRowCounts(hw, d1, len - chunk, got + part);
        FollowsTwice(hw, d, d1, ReadRow(hw, d1, len - chunk, got + part).0);
      }
    }
  }

  lemma {:induction false} ReadRowBytes(hw: Hw, d: Dev, len: nat, got: seq<Byte>)
    requires hw.Valid() && d.Valid() && ReadRow(hw, d, len, got).1 == Ok
    ensures ReadRow(hw, d, len, got).2 == got + ReadBack(hw.source, d.pos, d.window, len, hw.bufSize)
    decreases len
  {
    hide AccessErr, AccessTries, Follows, AllOk, ReadOne, WordsIn, Received;
    if len == 0 {
      assert got + [] == got;
    } else {
      var chunk := Min(len, hw.bufSize);
      var (d1, e, part) := ReadOne(hw, d, len);
      ReadOneOutcome(hw, d, len);
      ReadRowBytes(hw, d1, len - chunk, got + part);
      ReadBackStep(hw.source, d.pos, d.window, len, hw.bufSize);
      JoinParts(got, part, ReadBack(hw.source, d1.pos, d1.window, len - chunk, hw.bufSize));
    }
  }

  /** A read succeeds exactly when all its accesses do and every word of it can be read; it
      then leaves what the accesses brought, one word read for every four bytes begun. */
  lemma ReadRowOutcome(hw: Hw, d: Dev, len: nat, got: seq<Byte>)
    requires hw.Valid() && d.Valid()
    ensures var (d', e, now) := ReadRow(hw, d, len, got);
            && (e == Ok <==> RowErr(hw, d.accesses, d.tries, Chunks(len, hw.bufSize)) == Ok
                             && AllOk(hw.readOk, d.wordReads, WordsIn(len)))
            && (e == Ok ==> now == got + ReadBack(hw.source, d.pos, d.window, len, hw.bufSize)
                            && d'.accesses == d.accesses + Chunks(len, hw.bufSize)
                            && d'.wordReads == d.wordReads + WordsIn(len))
            && d'.accesses - d.accesses <= Chunks(len, hw.bufSize)
            && Follows(hw, d, d') && d'.waits == d.waits && d'.wire == d.wire
  {
    hide ReadRow, RowErr, Chunks, AllOk, WordsIn, Follows, ReadBack;
    ReadRowCounts(hw, d, len, got);
    if ReadRow(hw, d, len, got).1 == Ok {
      ReadRowBytes(hw, d, len, got);
    }
  }

  /** One access and the words of one chunk. */
  lemma ReadOneOutcome(hw: Hw, d: Dev, len: nat)
    requires hw.Valid() && d.Valid()
    ensures var (d', e, part) := ReadOne(hw, d, len);
            var chunk := Min(len, hw.bufSize);
            && (e == Ok <==> AccessErr(hw, d.accesses, d.tries) == Ok && AllOk(hw.readOk, d.wordReads, WordsIn(chunk)))
            && (e == Ok ==> d'.window == Received(hw.source, d.pos, Min(len, BUF_SIZE), d.window)
                            && part == d'.window[..chunk] && d'.pos == d.pos + Min(len, BUF_SIZE)
                            && d'.wordReads == d.wordReads + WordsIn(chunk))
            && d'.accesses == d.accesses + 1 && d'.tries == d.tries + AccessTries(hw, d.accesses, d.tries)
            && Follows(hw, d, d') && d'.waits == d.waits && d'.wire == d.wire
  {
    hide AccessTries, AccessEvents, AccessErr, Follows, AllOk, DrainOne, WordsIn, Received;
    var (d1, e1) := ReceiveOne(hw, d, Min(len, BUF_SIZE));
    AccessFollows(hw, d, d1);
    if e1 == Ok {
      DrainIsOk(hw, d1, Min(len, hw.bufSize));
      var d2 := DrainOne(hw, d1, Min(len, hw.bufSize)).0;
      FollowsItself(hw, d1, d2);
      FollowsTwice(hw, d, d1, d2);
    }
  }

  lemma NoWords(readOk: nat -> bool, from: nat)
    ensures WordsIn(0) == 0 && AllOk(readOk, from, 0)
  {
  }

  lemma JoinParts(a: seq<Byte>, b: seq<Byte>, c: seq<Byte>)
    ensures (a + b) + c == a + (b + c)
  {
  }

  /** How a read from state d that ends with error e in d' stopped, having copied that many
      bytes: every access but the last succeeded and the words read so far were good; then
      either the last access failed, or it succeeded and one word of its chunk could not be
      read. */
  ghost predicate StopsAfter(hw: Hw, d: Dev, d': Dev, len: nat, e: Err, copied: nat)
    requires hw.Valid()
  {
    && d.accesses < d'.accesses <= d.accesses + Chunks(len, hw.bufSize)
    && var m := d'.accesses - d.accesses - 1;
    && m * hw.bufSize <= copied < len && copied % 4 == 0
    && (forall i :: 0 <= i < m ==> ErrAt(hw, d.accesses, d.tries, i) == Ok)
    && AllOk(hw.readOk, d.wordReads, copied / 4)
    && var last := ErrAt(hw, d.accesses, d.tries, m);
    if last != Ok then
      e == last && copied == m * hw.bufSize && d'.wordReads == d.wordReads + copied / 4
    else
      && e == EIO && copied < (m + 1) * hw.bufSize
      && !hw.readOk(d.wordReads + copied / 4) && d'.wordReads == d.wordReads + copied / 4 + 1
  }

  /** One access more in front. */
  lemma StopsLater(hw: Hw, d: Dev, d1: Dev, d': Dev, len: nat, e: Err, copied: nat)
    requires hw.Valid() && len > hw.bufSize && AccessErr(hw, d.accesses, d.tries) == Ok
    requires d1.accesses == d.accesses + 1 && d1.tries == d.tries + AccessTries(hw, d.accesses, d.tries)
    requires AllOk(hw.readOk, d.wordReads, WordsIn(hw.bufSize)) && d1.wordReads == d.wordReads + WordsIn(hw.bufSize)
    requires StopsAfter(hw, d1, d', len - hw.bufSize, e, copied)
    ensures StopsAfter(hw, d, d', len, e, hw.bufSize + copied)
  {
    hide AccessErr, AccessTries, ErrAt, AllOk;
    var m := d'.accesses - d1.accesses - 1;
    FirstErr(hw, d.accesses, d.tries);
    forall i: nat | 0 < i
      ensures ErrAt(hw, d.accesses, d.tries, i) == ErrAt(hw, d1.accesses, d1.tries, i - 1)
    {
      ErrAtNext(hw, d.accesses, d.tries, i);
    }
    assert (hw.bufSize + copied) / 4 == WordsIn(hw.bufSize) + copied / 4;
    AllOkSplits(hw.readOk, d.wordReads, WordsIn(hw.bufSize), copied / 4);
    assert (m + 1) * hw.bufSize == m * hw.bufSize + hw.bufSize;
    assert (m + 2) * hw.bufSize == (m + 1) * hw.bufSize + hw.bufSize;
  }

  lemma DrainFails(hw: Hw, d: Dev, chunk: nat)
    requires d.Valid() && chunk <= WINDOW && DrainOne(hw, d, chunk).1 != Ok
    ensures var (d', e, n) := DrainOne(hw, d, chunk);
            && e == EIO && n % 4 == 0 && n < chunk
            && AllOk(hw.readOk, d.wordReads, n / 4) && !hw.readOk(d.wordReads + n / 4)
            && d'.wordReads == d.wordReads + n / 4 + 1 && d'.accesses == d.accesses
  {
    hide GoodReads;
  }

  /** The first access, or a word of its chunk, fails. */
  lemma StopsAtOnce(hw: Hw, d: Dev, len: nat)
    requires hw.Valid() && d.Valid() && len > 0 && ReadOne(hw, d, len).1 != Ok
    ensures var (d', e, part) := ReadOne(hw, d, len);
            && StopsAfter(hw, d, d', len, e, |part|)
            && (part != [] ==> part == Received(hw.source, d.pos, Min(len, BUF_SIZE), d.window)[..|part|])
  {
    hide AccessErr, AccessTries, AccessEvents, ErrAt, Received, DrainOne, AllOk;
    FirstErr(hw, d.accesses, d.tries);
    NoWords(hw.readOk, d.wordReads);
    var (d1, e1) := ReceiveOne(hw, d, Min(len, BUF_SIZE));
    if e1 == Ok {
      DrainFails(hw, d1, Min(len, hw.bufSize));
    }
  }

  lemma PrefixOfJoin(got: seq<Byte>, part: seq<Byte>, rest: seq<Byte>, n: nat)
    requires n <= |part + rest|
    ensures n <= |part| ==> got + part[..n] == got + (part + rest)[..n]
    ensures n >= |part| ==> (got + part) + rest[..n - |part|] == got + (part + rest)[..n]
  {
  }

  /** A read that fails has copied exactly what it would have copied first had it succeeded,
      up to the access or word that failed. */
  lemma {:induction false} ReadRowFailure(hw: Hw, d: Dev, len: nat, got: seq<Byte>)
    requires hw.Valid() && d.Valid() && ReadRow(hw, d, len, got).1 != Ok
    ensures var (d', e, now) := ReadRow(hw, d, len, got);
            var all := ReadBack(hw.source, d.pos, d.window, len, hw.bufSize);
            && StopsAfter(hw, d, d', len, e, |now| - |got|)
            && |now| - |got| <= |all| && now == got + all[..|now| - |got|]
    decreases len
  {
    hide AccessErr, AccessTries, ReadOne, ReadBack, StopsAfter, Follows, Received, AllOk, WordsIn;
    var chunk := Min(len, hw.bufSize);
    var (d1, e, part) := ReadOne(hw, d, len);
    var all := ReadBack(hw.source, d.pos, d.window, len, hw.bufSize);
    ReadBackStep(hw.source, d.pos, d.window, len, hw.bufSize);
    ReadBackLength(hw.source, d.pos, d.window, len, hw.bufSize);
    var w := Received(hw.source, d.pos, Min(len, BUF_SIZE), d.window);
    var rest := ReadBack(hw.source, d.pos + Min(len, BUF_SIZE), w, len - chunk, hw.bufSize);
    if e != Ok {
      StopsAtOnce(hw, d, len);
      PrefixOfJoin(got, w[..chunk], rest, |part|);
    } else {
      ReadOneOutcome(hw, d, len);
      ReadRowFailure(hw, d1, len - chunk, got + part);
      var (d', e', now) := ReadRow(hw, d1, len - chunk, got + part);
      LongerThanChunk(hw, d1, len - chunk, got + part);
      StopsLater(hw, d, d1, d', len, e', |now| - |got + part|);
      PrefixOfJoin(got, part, rest, |now| - |got|);
    }
  }

  lemma LongerThanChunk(hw: Hw, d: Dev, left: nat, got: seq<Byte>)
    requires hw.Valid() && d.Valid() && ReadRow(hw, d, left, got).1 != Ok
    ensures left > 0
  {
  }

  // ------------------------------------------------------------ one message

  /** How many accesses a message takes. */
  function Parts(hw: Hw, q: Request): nat
    requires hw.Valid() && q.Valid()
  {
    if q.read then Chunks(q.StartLen(), hw.bufSize) else |Split(q.Payload(), hw.bufSize)|
  }

  /** A message succeeds exactly when the block is idle in time before it, every one of its
      accesses succeeds, and for a read every word of the window can be read. */
  lemma MessageSucceedsExactly(hw: Hw, d: Dev, q: Request)
    requires hw.Valid() && d.Valid() && q.Valid()
    ensures Handle(hw, d, q).1.e == Ok <==>
              && (exists n: nat :: Idle(hw.idle(d.waits), hw.timeout, n))
              && (forall i :: 0 <= i < Parts(hw, q) ==> ErrAt(hw, d.accesses, d.tries, i) == Ok)
              && (q.read ==> AllOk(hw.readOk, d.wordReads, WordsIn(q.StartLen())))
  {
    hide ErrAt, RowErr, SendRow, ReadRow, Split, Chunks, AllOk, WordsIn, Idle, Follows;
    var d1 := d.(waits := d.waits + 1);
    WaitEndsExactly(hw.idle(d.waits), hw.timeout);
    RowErrIsFirst(hw, d.accesses, d.tries, Parts(hw, q));
    if q.read {
      ReadRowOutcome(hw, d1, q.StartLen(), []);
    } else {
      SendRowOutcome(hw, d1, q.Payload());
    }
  }

  /** No message takes more accesses than its length calls for, and they all follow on. */
  lemma MessageFollows(hw: Hw, d: Dev, q: Request)
    requires hw.Valid() && d.Valid() && q.Valid()
    ensures var d' := Handle(hw, d, q).0;
            Follows(hw, d, d') && d'.accesses - d.accesses <= Parts(hw, q) && d'.waits == d.waits + 1
  {
    hide RowErr, SendRow, ReadRow, Split, Chunks, AllOk, WordsIn, Follows;
    var d1 := d.(waits := d.waits + 1);
    FollowsItself(hw, d, d1);
    if q.read {
      ReadRowOutcome(hw, d1, q.StartLen(), []);
      FollowsTwice(hw, d, d1, ReadRow(hw, d1, q.StartLen(), []).0);
    } else {
      SendRowOutcome(hw, d1, q.Payload());
      FollowsTwice(hw, d, d1, SendRow(hw, d1, q.Payload()).0);
    }
  }

  /** Reads of this message are the device's bytes. */
  predicate Honest(hw: Hw, q: Request) {
    q.read ==> hw.bufSize == BUF_SIZE || q.StartLen() <= BUF_SIZE
  }

  /** What a successful message leaves: a write its bytes, cut up, on the wire; a read what
      the accesses brought, in the buffer; and the length. */
  lemma MessageMoves(hw: Hw, d: Dev, q: Request)
    requires hw.Valid() && d.Valid() && q.Valid() && Handle(hw, d, q).1.e == Ok
    ensures var (d', r) := Handle(hw, d, q);
            && d'.wire == d.wire + Split(q.Payload(), hw.bufSize)
            && r.bytes == (if q.read
                           then ReadBack(hw.source, d.pos, d.window, q.StartLen(), hw.bufSize) + q.bytes[q.StartLen()..]
                           else q.bytes)
            && r.len == if q.read && q.recvLen && q.len + r.bytes[0] <= q.StartLen() then q.len + r.bytes[0] else q.len
  {
    hide RowErr, SendRow, ReadRow, Chunks, AllOk, WordsIn, Follows, ReadBack;
    var d1 := d.(waits := d.waits + 1);
    if q.read {
      ReadRowOutcome(hw, d1, q.StartLen(), []);
      assert d.wire + Split([], hw.bufSize) == d.wire;
      var got := ReadBack(hw.source, d.pos, d.window, q.StartLen(), hw.bufSize);
      assert [] + got == got;
    } else {
      SendRowOutcome(hw, d1, q.Payload());
      var parts := Split(q.Payload(), hw.bufSize);
      assert parts[..|parts|] == parts;
    }
  }

  /** A failed message has put a prefix of its accesses on the wire and keeps its length; a
      write leaves its buffer alone, and a read that got as far as its accesses has copied a
      prefix of what it would have read, up to the access or word that failed. */
  lemma MessageFails(hw: Hw, d: Dev, q: Request)
    requires hw.Valid() && d.Valid() && q.Valid() && Handle(hw, d, q).1.e != Ok
    ensures var (d', r) := Handle(hw, d, q);
            && d.wire <= d'.wire <= d.wire + Split(q.Payload(), hw.bufSize)
            && r.len == q.len && (!q.read ==> r.bytes == q.bytes)
            && |r.bytes| == |q.bytes| && r.bytes[q.StartLen()..] == q.bytes[q.StartLen()..]
    ensures var wait := WaitEnd(hw.idle(d.waits), hw.timeout, 0, 0);
            wait != Ok ==> Handle(hw, d, q) == (d.(waits := d.waits + 1), Reply(wait, q.len, q.bytes))
    ensures q.read && WaitEnd(hw.idle(d.waits), hw.timeout, 0, 0) == Ok ==>
              var (d', r) := Handle(hw, d, q);
              exists n: nat :: CopiedPrefix(hw, d, q, r, n) && StopsAfter(hw, d, d', q.StartLen(), r.e, n)
  {
    hide RowErr, SendRow, ReadRow, Chunks, AllOk, WordsIn, Follows, ReadBack, StopsAfter;
    var d1 := d.(waits := d.waits + 1);
    if WaitEnd(hw.idle(d.waits), hw.timeout, 0, 0) == Ok {
      if q.read {
        ReadRowOutcome(hw, d1, q.StartLen(), []);
        ReadRowFailure(hw, d1, q.StartLen(), []);
        var (d', e, got) := ReadRow(hw, d1, q.StartLen(), []);
        StopsSame(hw, d, d1, d', q.StartLen(), e, |got|);
        assert CopiedPrefix(hw, d, q, Handle(hw, d, q).1, |got|);
      } else {
        SendRowOutcome(hw, d1, q.Payload());
      }
    }
  }

  /** The first n bytes of the buffer are those that the accesses would bring. */
  ghost predicate CopiedPrefix(hw: Hw, d: Dev, q: Request, r: Reply, n: nat)
    requires hw.Valid() && d.Valid()
  {
    var all := ReadBack(hw.source, d.pos, d.window, q.StartLen(), hw.bufSize);
    n <= |all| && n <= |q.bytes| && r.bytes == all[..n] + q.bytes[n..]
  }

  lemma StopsSame(hw: Hw, d: Dev, d1: Dev, d': Dev, len: nat, e: Err, copied: nat)
    requires hw.Valid() && StopsAfter(hw, d1, d', len, e, copied)
    requires d1.accesses == d.accesses && d1.tries == d.tries && d1.wordReads == d.wordReads
    ensures StopsAfter(hw, d, d', len, e, copied)
  {
    hide ErrAt, AllOk, Chunks;
  }

  /** An honest read fills the buffer with the device's bytes, in order. */
  lemma {:induction false} HonestRead(hw: Hw, d: Dev, len: nat, got: seq<Byte>)
    requires hw.Valid() && d.Valid() && (hw.bufSize == BUF_SIZE || len <= BUF_SIZE) && ReadRow(hw, d, len, got).1 == Ok
    ensures ReadRow(hw, d, len, got).0.pos == d.pos + len
    ensures ReadBack(hw.source, d.pos, d.window, len, hw.bufSize) == Stream(hw.source, d.pos, len)
    decreases len
  {
    hide ReadOne, ReadBack, Stream;
    ReadIsStream(hw.source, d.pos, d.window, len, hw.bufSize);
    if len > 0 {
      var (d1, e, part) := ReadOne(hw, d, len);
      ReadOneOutcome(hw, d, len);
      HonestRead(hw, d1, len - Min(len, hw.bufSize), got + part);
    }
  }

  // ------------------------------------------------------ the whole transfer

  /** The state in which message i starts, when those before it have run. */
  function Before(hw: Hw, d: Dev, qs: seq<Request>, i: nat): (d': Dev)
    requires hw.Valid() && d.Valid() && AllValid(qs) && i <= |qs|
    ensures d'.Valid()
  {
    if i == 0 then d else Handle(hw, Before(hw, d, qs, i - 1), qs[i - 1]).0
  }

  /** The reply of message i, when those before it have run. */
  function ReplyAt(hw: Hw, d: Dev, qs: seq<Request>, i: nat): Reply
    requires hw.Valid() && d.Valid() && AllValid(qs) && i < |qs|
  {
    Handle(hw, Before(hw, d, qs, i), qs[i]).1
  }

  /** The replies are those of the first messages, each run after the ones before it, all
      successful but perhaps the last, and stopping short only at a failure. */
  ghost predicate InOrder(hw: Hw, d: Dev, qs: seq<Request>, replies: seq<Reply>)
    requires hw.Valid() && d.Valid() && AllValid(qs)
  {
    && |replies| <= |qs|
    && (forall i :: 0 <= i < |replies| ==> replies[i] == ReplyAt(hw, d, qs, i))
    && (forall i :: 0 <= i < |replies| - 1 ==> replies[i].e == Ok)
    && (|replies| < |qs| ==> replies != [] && replies[|replies| - 1].e != Ok)
  }

  lemma {:induction false} MessagesInOrder(hw: Hw, d: Dev, qs: seq<Request>, done: seq<Reply>)
    requires hw.Valid() && d.Valid() && AllValid(qs) && |done| <= |qs|
    requires forall i :: 0 <= i < |done| ==> done[i] == ReplyAt(hw, d, qs, i) && done[i].e == Ok
    ensures var (d', replies) := HandleAll(hw, Before(hw, d, qs, |done|), qs, done);
            InOrder(hw, d, qs, replies) && d' == Before(hw, d, qs, |replies|)
    decreases |qs| - |done|
  {
    hide Handle;
    if |done| < |qs| {
      var (d1, reply) := Handle(hw, Before(hw, d, qs, |done|), qs[|done|]);
      assert d1 == Before(hw, d, qs, |done| + 1) && reply == ReplyAt(hw, d, qs, |done|);
      if reply.e == Ok {
        MessagesInOrder(hw, d, qs, done + [reply]);
      }
    }
  }

  /** The state in which the first message starts. */
  function Cleared(d: Dev): (d': Dev)
    ensures d.Valid() ==> d'.Valid()
  {
    d.(log := d.log + [ClearIntr])
  }

  /** The call returns the number of messages exactly when every message succeeds (and with
      none, when the first clear does); otherwise it returns the error of the first that does
      not, which is the last one run. */
  lemma CountExactly(hw: Hw, d: Dev, qs: seq<Request>, cleared: bool)
    requires hw.Valid() && d.Valid() && AllValid(qs)
    ensures var (d', replies, ret) := TransferOf(hw, d, qs, cleared);
            && InOrder(hw, Cleared(d), qs, replies)
            && (ret.Count? <==>
                   (qs == [] ==> cleared)
                   && forall i :: 0 <= i < |qs| ==> ReplyAt(hw, Cleared(d), qs, i).e == Ok)
            && (ret.Count? ==> ret.n == |qs| == |replies| && d' == Before(hw, Cleared(d), qs, |qs|))
            && (ret.Failure? && qs != [] ==> replies != [] && ret.e == replies[|replies| - 1].e != Ok)
  {
    hide Handle, ReplyAt;
    MessagesInOrder(hw, Cleared(d), qs, []);
    var replies := TransferOf(hw, d, qs, cleared).1;
    if replies != [] {
      assert replies[|replies| - 1] == ReplyAt(hw, Cleared(d), qs, |replies| - 1);
    }
  }

  lemma {:induction false} BeforeFollows(hw: Hw, d: Dev, qs: seq<Request>, i: nat)
    requires hw.Valid() && d.Valid() && AllValid(qs) && i <= |qs|
    ensures Follows(hw, d, Before(hw, d, qs, i))
  {
    hide Handle, Follows, Parts;
    if i == 0 {
      FollowsItself(hw, d, d);
    } else {
      BeforeFollows(hw, d, qs, i - 1);
      MessageFollows(hw, Before(hw, d, qs, i - 1), qs[i - 1]);
      FollowsTwice(hw, d, Before(hw, d, qs, i - 1), Before(hw, d, qs, i));
    }
  }

  /** The retry discipline of a whole transfer: one clear, then the events of its accesses,
      one access after the other and nothing else, in which every failed attempt is followed
      by a reset and a clear, and a last reset exactly after a failure; with at most
      retries + 1 attempts an access. */
  lemma TransferDiscipline(hw: Hw, d: Dev, qs: seq<Request>, cleared: bool)
    requires hw.Valid() && d.Valid() && AllValid(qs)
    ensures var (d', replies, ret) := TransferOf(hw, d, qs, cleared);
            d.accesses <= d'.accesses
            && var m := d'.accesses - d.accesses;
               && d'.log == d.log + [ClearIntr] + RowEvents(hw, d.accesses, d.tries, m)
                           + (if ret.Failure? then [Reset] else [])
               && Disciplined(RowEvents(hw, d.accesses, d.tries, m))
               && d'.tries == d.tries + RowTries(hw, d.accesses, d.tries, m) <= d.tries + m * (hw.retries + 1)
  {
    hide Handle, RowEvents, RowTries, Before, InOrder, Disciplined;
    var (d', replies, ret) := TransferOf(hw, d, qs, cleared);
    NoneDone(hw, Cleared(d), qs);
    MessagesInOrder(hw, Cleared(d), qs, []);
    BeforeFollows(hw, Cleared(d), qs, |replies|);
    RowDiscipline(hw, d.accesses, d.tries, d'.accesses - d.accesses);
    if ret.Count? {
      assert d'.log + [] == d'.log;
    }
  }

  lemma NoneDone(hw: Hw, d: Dev, qs: seq<Request>)
    requires hw.Valid() && d.Valid() && AllValid(qs)
    ensures Before(hw, d, qs, 0) == d
  {
  }

  /** The accesses of all written messages, in order. */
  function AllSplit(qs: seq<Request>, size: nat): seq<seq<Byte>>
    requires size > 0 && AllValid(qs)
  {
    if qs == [] then [] else AllSplit(qs[..|qs| - 1], size) + Split(qs[|qs| - 1].Payload(), size)
  }

  /** How many bytes the first i messages read. */
  function ReadLen(qs: seq<Request>, i: nat): nat
    requires i <= |qs|
  {
    if i == 0 then 0 else ReadLen(qs, i - 1) + if qs[i - 1].read then qs[i - 1].StartLen() else 0
  }

  lemma {:induction false} WireSoFar(hw: Hw, d: Dev, qs: seq<Request>, i: nat)
    requires hw.Valid() && d.Valid() && AllValid(qs) && i <= |qs|
    requires forall k :: 0 <= k < i ==> ReplyAt(hw, d, qs, k).e == Ok
    ensures Before(hw, d, qs, i).wire == d.wire + AllSplit(qs[..i], hw.bufSize)
  {
    hide Handle, Split, ReadBack;
    if i == 0 {
      assert d.wire + [] == d.wire;
    } else {
      WireSoFar(hw, d, qs, i - 1);
      assert ReplyAt(hw, d, qs, i - 1).e == Ok;
      MessageMoves(hw, Before(hw, d, qs, i - 1), qs[i - 1]);
      assert qs[..i][..i - 1] == qs[..i - 1];
    }
  }

  lemma {:induction false} PosSoFar(hw: Hw, d: Dev, qs: seq<Request>, i: nat)
    requires hw.Valid() && d.Valid() && AllValid(qs) && i <= |qs|
    requires forall k :: 0 <= k < i ==> ReplyAt(hw, d, qs, k).e == Ok && Honest(hw, qs[k])
    ensures Before(hw, d, qs, i).pos == d.pos + ReadLen(qs, i)
  {
    hide Handle;
    if i > 0 {
      PosSoFar(hw, d, qs, i - 1);
      assert ReplyAt(hw, d, qs, i - 1).e == Ok && Honest(hw, qs[i - 1]);
      PosMoves(hw, Before(hw, d, qs, i - 1), qs[i - 1]);
    }
  }

  lemma PosMoves(hw: Hw, d: Dev, q: Request)
    requires hw.Valid() && d.Valid() && q.Valid() && Honest(hw, q) && Handle(hw, d, q).1.e == Ok
    ensures Handle(hw, d, q).0.pos == d.pos + if q.read then q.StartLen() else 0
  {
    hide SendRow, ReadRow, ReadBack, RowErr, Follows, Split;
    var d1 := d.(waits := d.waits + 1);
    if q.read {
      HonestRead(hw, d1, q.StartLen(), []);
    } else {
      SendRowOutcome(hw, d1, q.Payload());
    }
  }

  /** After a successful transfer every write's bytes, cut up, are on the wire, in order. */
  lemma CountMeansSent(hw: Hw, d: Dev, qs: seq<Request>, cleared: bool)
    requires hw.Valid() && d.Valid() && AllValid(qs) && TransferOf(hw, d, qs, cleared).2.Count?
    ensures TransferOf(hw, d, qs, cleared).0.wire == d.wire + AllSplit(qs, hw.bufSize)
  {
    hide Handle, TransferOf, AllSplit, InOrder, ReplyAt, Before;
    CountExactly(hw, d, qs, cleared);
    WireSoFar(hw, Cleared(d), qs, |qs|);
    assert qs[..|qs|] == qs;
  }

  /** What message i leaves in its buffer and length when it is honest and successful: a read
      the device's bytes from position pos on, a block read also its length byte added. */
  function Done(hw: Hw, q: Request, pos: nat): Reply
    requires q.Valid()
  {
    if !q.read then Reply(Ok, q.len, q.bytes)
    else
      var bytes := Stream(hw.source, pos, q.StartLen()) + q.bytes[q.StartLen()..];
      Reply(Ok, if q.recvLen && q.len + bytes[0] <= q.StartLen() then q.len + bytes[0] else q.len, bytes)
  }

  lemma HonestMessage(hw: Hw, d: Dev, q: Request)
    requires hw.Valid() && d.Valid() && q.Valid() && Honest(hw, q) && Handle(hw, d, q).1.e == Ok
    ensures Handle(hw, d, q).1 == Done(hw, q, d.pos)
  {
    hide Handle, ReadBack, Stream, Split;
    MessageMoves(hw, d, q);
    if q.read {
      ReadIsStream(hw.source, d.pos, d.window, q.StartLen(), hw.bufSize);
    }
  }

  /** After a successful transfer in which the block can ask for as much as is copied, every
      message is done: reads have filled their buffers with the device's bytes in order, each
      from where the reads before it stopped. */
  lemma CountMeansDone(hw: Hw, d: Dev, qs: seq<Request>, cleared: bool, i: nat)
    requires hw.Valid() && d.Valid() && AllValid(qs) && i < |qs|
    requires TransferOf(hw, d, qs, cleared).2.Count?
    requires hw.bufSize == 256 || forall k :: 0 <= k <= i && qs[k].read ==> qs[k].StartLen() <= 256
    ensures i < |TransferOf(hw, d, qs, cleared).1|
    ensures TransferOf(hw, d, qs, cleared).1[i] == Done(hw, qs[i], d.pos + ReadLen(qs, i))
  {
    hide Handle, TransferOf, Done, ReadLen, Before;
    assert forall k :: 0 <= k <= i ==> Honest(hw, qs[k]);
    CountExactly(hw, d, qs, cleared);
    assert ReplyAt(hw, Cleared(d), qs, i).e == Ok;
    PosSoFar(hw, Cleared(d), qs, i);
    HonestMessage(hw, Before(hw, Cleared(d), qs, i), qs[i]);
  }

  /** A block read makes room for 32 bytes, the most that SMBus allows: it reads 32 bytes more
      than asked, and then grows the message by its first byte exactly if that is at most 32.
      If 32 more do not fit 16 bits, it reads what is left of the sum, and the length stays. */
  lemma BlockReadLength(hw: Hw, d: Dev, q: Request)
    requires hw.Valid() && d.Valid() && q.Valid() && q.read && q.recvLen && Handle(hw, d, q).1.e == Ok
    ensures var r := Handle(hw, d, q).1;
            var asked := if q.len + 32 < 0x1_0000 then q.len + 32 else q.len + 32 - 0x1_0000;
            && r.len == (if q.len + 32 < 0x1_0000 && r.bytes[0] <= 32 then q.len + r.bytes[0] else q.len)
            && r.bytes == ReadBack(hw.source, d.pos, d.window, asked, hw.bufSize) + q.bytes[asked..]
  {
    hide Handle, ReadBack;
    MessageMoves(hw, d, q);
  }

  /** However a message ends, its length stays or grows to at most the length that the
      transfer started with, and the buffer holds it. */
  lemma BlockLenBounded(hw: Hw, d: Dev, q: Request)
    requires hw.Valid() && d.Valid() && q.Valid()
    ensures var r := Handle(hw, d, q).1;
            && (r.len == q.len || q.len <= r.len <= q.StartLen()) && r.len <= |r.bytes| == |q.bytes|
  {
    hide Handle, ReadBack;
    if Handle(hw, d, q).1.e == Ok {
      MessageMoves(hw, d, q);
      ReadBackLength(hw.source, d.pos, d.window, q.StartLen(), hw.bufSize);
    } else {
      MessageFails(hw, d, q);
    }
  }
}
