/**
 The I2C-EXT transfer code: the nested loops that cut messages into chunks of the hardware
 buffer and chunks into words, each chunk one access with its retries.
 */
module I2cExt {
  import opened Bytes
  import opened I2cRetry
  import opened I2cChunks
  import opened I2cTransfer

  /** One i2c_msg. */
  class Msg {
    const read: bool
    const recvLen: bool
    const buf: array<Byte>
    var len: nat

    constructor (read: bool, recvLen: bool, buf: array<Byte>, len: nat)
      ensures this.read == read && this.recvLen == recvLen && this.buf == buf && this.len == len
    {
      this.read, this.recvLen, this.buf, this.len := read, recvLen, buf, len;
    }

    ghost function Asked(): Request
      reads this, buf
    {
      Request(read, recvLen, len, buf[..])
    }

    /** The message as it is left. */
    ghost predicate Shows(r: Reply)
      reads this, buf
    {
      len == r.len && buf[..] == r.bytes
    }
  }

  /** Four more bytes stored at position d; c of them belong to the copy. */
  lemma StoreFour(w: seq<Byte>, four: seq<Byte>, src: seq<Byte>, from: nat, d: nat, c: nat)
    requires c <= 4 == |four| && d + 4 <= |w| && from + d + c <= |src|
    requires w[..d] == src[from..from + d] && four[..c] == src[from + d..from + d + c]
    ensures (w[..d] + four + w[d + 4..])[..d + c] == src[from..from + d + c]
  {
    assert (w[..d] + four + w[d + 4..])[..d + c] == w[..d] + four[..c];
  }

  /** now is was with part put in at from. */
  ghost predicate PutAt(now: seq<Byte>, was: seq<Byte>, from: nat, part: seq<Byte>) {
    from + |part| <= |was| && now == was[..from] + part + was[from + |part|..]
  }

  lemma PutNothing(was: seq<Byte>, from: nat, bytes: seq<Byte>)
    requires from <= |was|
    ensures PutAt(was, was, from, bytes[..0]) && PutAt(was, was, from, [])
  {
  }

  /** c more bytes put behind the d already put. */
  lemma PutMore(now: seq<Byte>, mid: seq<Byte>, was: seq<Byte>, bytes: seq<Byte>, from: nat, d: nat, c: nat)
    requires d + c <= |bytes| && from + d + c <= |was| && PutAt(mid, was, from, bytes[..d])
    requires PutAt(now, mid, from + d, bytes[d..d + c])
    ensures PutAt(now, was, from, bytes[..d + c])
  {
    hide PutAt;
    PutTwice(now, mid, was, bytes[..d], bytes[d..d + c], from);
    assert bytes[..d + c] == bytes[..d] + bytes[d..d + c];
  }

  lemma PutTwice(now: seq<Byte>, mid: seq<Byte>, was: seq<Byte>, a: seq<Byte>, b: seq<Byte>, from: nat)
    requires PutAt(mid, was, from, a) && PutAt(now, mid, from + |a|, b)
    ensures PutAt(now, was, from, a + b)
  {
    var k := from + |a|;
    assert mid[..k] == was[..from] + a && mid[k + |b|..] == was[k + |b|..];
    assert (was[..from] + a) + b == was[..from] + (a + b);
  }

  /** now starts with got and goes on as was does. */
  ghost predicate Starts(now: seq<Byte>, was: seq<Byte>, got: seq<Byte>) {
    |got| <= |was| && now == got + was[|got|..]
  }

  lemma StartsEmpty(was: seq<Byte>)
    ensures Starts(was, was, [])
  {
  }

  lemma StartsMore(now: seq<Byte>, mid: seq<Byte>, was: seq<Byte>, got: seq<Byte>, part: seq<Byte>)
    requires Starts(mid, was, got) && PutAt(now, mid, |got|, part)
    ensures Starts(now, was, got + part)
  {
  }

  /** A copy never leaves its chunk: a chunk that is not a multiple of four long, in which a
      short tail would be taken for the whole rest of the message, is that rest. */
  lemma TailIsWhole(chunk: nat, len: nat)
    requires 0 < chunk <= len && (chunk % 4 == 0 || chunk == len)
    ensures chunk <= 3 ==> chunk == len
    ensures chunk > 3 ==> (chunk - 4) % 4 == 0 || chunk - 4 == len - 4
  {
    if chunk > 3 && chunk % 4 == 0 {
      assert chunk - 4 == 4 * (chunk / 4 - 1);
    }
  }

  class Controller {
    const hw: Hw

    // the block's registers, as bytes
    var wdata: seq<Byte>
    var rdata: seq<Byte>
    var size: nat

    // what has happened
    var accesses: nat
    var tries: nat
    var waits: nat
    var wordReads: nat
    var pos: nat
    var wire: seq<seq<Byte>>
    var log: seq<Event>

    ghost predicate Valid()
      reads this
    {
      hw.Valid() && |wdata| == |rdata| == WINDOW
    }

    ghost function State(): Dev
      reads this
    {
      Dev(accesses, tries, waits, wordReads, pos, rdata, wire, log)
    }

    constructor (hw: Hw)
      requires hw.Valid()
      ensures Valid() && this.hw == hw && State() == Dev(0, 0, 0, 0, 0, Zeros(WINDOW), [], [])
    {
      this.hw := hw;
      wdata, rdata, size := Zeros(WINDOW), Zeros(WINDOW), 0;
      accesses, tries, waits, wordReads, pos := 0, 0, 0, 0, 0;
      wire, log := [], [];
    }

    /** _i2c_reset; its own failure is not looked at. */
    method ResetBlock()
      modifies `log
      ensures log == old(log) + [Reset]
    {
      log := log + [Reset];
    }

    /** _clear_intr_status */
    method ClearStatus()
      modifies `log
      ensures log == old(log) + [ClearIntr]
    {
      log := log + [ClearIntr];
    }

    /** One round of _retryable_cfg. */
    method TryOnce() returns (e: Err)
      modifies `log, `tries
      ensures e == Result(hw.attempt(old(tries)), hw.timeout)
      ensures log == old(log) + TryEvents(e) && tries == old(tries) + 1
    {
      var a := hw.attempt(tries);
      tries := tries + 1;
      e := EIO;
      if a.started {
        e := WaitDone(a, hw.timeout);
        if e == Ok {
          e := CheckErr(a.status);
        }
      }
      log := log + [Tried(e)];
      if e != Ok {
        ResetBlock();
        ClearStatus();
        assert log == old(log) + TryEvents(e);
      }
    }

    /** _retryable_cfg */
    method Retry() returns (e: Err)
      modifies `log, `tries
      ensures log == old(log) + Tries(hw.attempt, hw.timeout, old(tries), hw.retries)
      ensures tries == old(tries) + TryCount(hw.attempt, hw.timeout, old(tries), hw.retries)
      ensures e == LastErr(hw.attempt, hw.timeout, old(tries), hw.retries)
    {
      hide Result, Tries, TryCount, LastErr, TryEvents;
      var retry := 0;
      while true
        invariant 0 <= retry <= hw.retries
        invariant log + Tries(hw.attempt, hw.timeout, tries, hw.retries - retry)
               == old(log) + Tries(hw.attempt, hw.timeout, old(tries), hw.retries)
        invariant tries + TryCount(hw.attempt, hw.timeout, tries, hw.retries - retry)
               == old(tries) + TryCount(hw.attempt, hw.timeout, old(tries), hw.retries)
        invariant LastErr(hw.attempt, hw.timeout, tries, hw.retries - retry)
               == LastErr(hw.attempt, hw.timeout, old(tries), hw.retries)
        decreases hw.retries - retry
      {
        ghost var before, t := log, tries;
        TriesStep(hw.attempt, hw.timeout, tries, hw.retries - retry);
        e := TryOnce();
        retry := retry + 1;
        ghost var all := Tries(hw.attempt, hw.timeout, t, hw.retries - (retry - 1));
        if e == Ok || retry > hw.retries {
          assert all == TryEvents(e) + [];
          assert log == before + all;
          return;
        }
        assert before + (TryEvents(e) + Tries(hw.attempt, hw.timeout, tries, hw.retries - retry))
            == log + Tries(hw.attempt, hw.timeout, tries, hw.retries - retry);
      }
    }

    /** _write_cfg2_retryable_cfg */
    method Access() returns (e: Err)
      modifies `log, `tries, `accesses
      ensures State() == AfterAccess(hw, old(State())) && e == AccessErr(hw, old(accesses), old(tries))
    {
      hide Tries, TryCount, LastErr;
      accesses := accesses + 1;
      if !hw.cfg2Ok(accesses - 1) {
        assert log == old(log) + [];
        return EIO;
      }
      e := Retry();
    }

    /** An access that sends `size` bytes, then what the block does when it succeeds. */
    method Send() returns (e: Err)
      requires Valid() && size <= WINDOW
      modifies `log, `tries, `accesses, `wire
      ensures (State(), e) == SendOne(hw, old(State()), wdata[..size])
    {
      hide AccessErr, AccessTries, AccessEvents;
      e := Access();
      if e == Ok {
        wire := wire + [wdata[..size]];
      }
    }

    /** An access that asks for `size` bytes, then what the block does when it succeeds. */
    method Receive() returns (e: Err)
      requires Valid() && size <= WINDOW
      modifies `log, `tries, `accesses, `rdata, `pos
      ensures Valid() && (State(), e) == ReceiveOne(hw, old(State()), size)
    {
      hide AccessErr, AccessTries, AccessEvents, Received;
      e := Access();
      if e == Ok {
        rdata := Received(hw.source, pos, size, rdata);
        pos := pos + size;
      }
    }

    /** One register write of the copy loop. */
    method WriteWord(index: nat, w: Word)
      requires Valid() && 4 * index + 4 <= WINDOW
      modifies `wdata
      ensures Valid() && wdata == old(wdata)[..4 * index] + Unpack(w) + old(wdata)[4 * index + 4..]
    {
      wdata := wdata[..4 * index] + Unpack(w) + wdata[4 * index + 4..];
    }

    /** One register read of the copy loop. */
    method ReadWord(index: nat) returns (ok: bool, w: Word)
      requires Valid() && 4 * index + 4 <= WINDOW
      modifies `wordReads
      ensures ok == hw.readOk(old(wordReads)) && wordReads == old(wordReads) + 1
      ensures ok ==> Unpack(w) == rdata[4 * index..4 * index + 4]
    {
      ok := hw.readOk(wordReads);
      wordReads := wordReads + 1;
      w := Pack(rdata[4 * index..4 * index + 4]);
      UnpackPack(rdata[4 * index..4 * index + 4]);
    }

    /** One word of a write chunk: `copied` bytes from buf[from + 4 * index..]. */
    method StoreWord(buf: array<Byte>, from: nat, index: nat, copied: nat)
      requires Valid() && copied <= 4 && 4 * index + 4 <= WINDOW && from + 4 * index + copied <= buf.Length
      requires wdata[..4 * index] == buf[from..from + 4 * index]
      modifies `wdata
      ensures Valid() && wdata[..4 * index + copied] == buf[from..from + 4 * index + copied]
    {
      hide Pack, Unpack;
      ghost var src := buf[..];
      var bytes := buf[from + 4 * index..from + 4 * index + copied];
      UnpackPack(bytes);
      StoreFour(wdata, Unpack(Pack(bytes)), src, from, 4 * index, copied);
      WriteWord(index, Pack(bytes));
      assert src[from..from + 4 * index + copied] == buf[from..from + 4 * index + copied];
    }

    /** The copy loop of a write chunk.  `len` is what is left of the message, `chunk` what
        is left of the chunk. */
    method FillChunk(buf: array<Byte>, from: nat, len0: nat, chunk0: nat) returns (len: nat)
      requires Valid() && from + len0 <= buf.Length && 0 < chunk0 == Min(len0, hw.bufSize)
      modifies `wdata
      ensures Valid() && len == len0 - chunk0
      ensures wdata[..chunk0] == buf[from..from + chunk0]
    {
      len := len0;
      var chunk, index := chunk0, 0;
      while len != 0 && chunk != 0
        invariant Valid() && 0 <= chunk && len0 - len == chunk0 - chunk
        invariant chunk % 4 == 0 || chunk == len
        invariant if chunk == 0 then wdata[..chunk0] == buf[from..from + chunk0]
                  else 4 * index + chunk == chunk0 && wdata[..4 * index] == buf[from..from + 4 * index]
        decreases chunk
      {
        var copied := if chunk > 3 then 4 else len;
        TailIsWhole(chunk, len);
        StoreWord(buf, from, index, copied);
        len := len - copied;
        chunk := chunk - copied;
        index := index + 1;
      }
    }

    /** Bytes into a buffer. */
    method CopyBytes(buf: array<Byte>, at: nat, bytes: seq<Byte>)
      requires at + |bytes| <= buf.Length
      modifies buf
      ensures PutAt(buf[..], old(buf[..]), at, bytes)
    {
      forall i | 0 <= i < |bytes| {
        buf[at + i] := bytes[i];
      }
    }

    /** One word of a read chunk: `copied` bytes to buf[from + 4 * index..]. */
    method LoadWord(buf: array<Byte>, from: nat, index: nat, copied: nat, ghost was: seq<Byte>) returns (ok: bool)
      requires Valid() && copied <= 4 && 4 * index + 4 <= WINDOW && from + 4 * index + copied <= buf.Length == |was|
      requires PutAt(buf[..], was, from, rdata[..4 * index])
      modifies `wordReads, buf
      ensures ok == hw.readOk(old(wordReads)) && wordReads == old(wordReads) + 1
      ensures PutAt(buf[..], was, from, rdata[..if ok then 4 * index + copied else 4 * index])
    {
      hide Pack, Unpack, PutAt;
      var data;
      ok, data := ReadWord(index);
      if ok {
        ghost var mid := buf[..];
        var bytes := Unpack(data)[..copied];
        assert bytes == rdata[4 * index..4 * index + copied];
        CopyBytes(buf, from + 4 * index, bytes);
        PutMore(buf[..], mid, was, rdata, from, 4 * index, copied);
      }
    }

    /** The copy loop of a read chunk; it stops at the first failed register read. */
    method DrainChunk(buf: array<Byte>, from: nat, len0: nat, chunk0: nat) returns (e: Err, ghost n: nat)
      requires Valid() && from + len0 <= buf.Length && 0 < chunk0 == Min(len0, hw.bufSize)
      modifies `wordReads, buf
      ensures (State(), e, n) == DrainOne(hw, old(State()), chunk0)
      ensures PutAt(buf[..], old(buf[..]), from, rdata[..n])
    {
      hide GoodReads, WordsIn, GoodSoFar, PutAt;
      ghost var was, start, words := buf[..], wordReads, WordsIn(chunk0);
      var len, chunk, index, ok := len0, chunk0, 0, true;
      n := 0;
      PutNothing(was, from, rdata);
      NoneRead(hw.readOk, start);
      while len != 0 && chunk != 0 && ok
        invariant 0 <= chunk && 0 <= index && len0 - len == chunk0 - chunk
        invariant chunk % 4 == 0 || chunk == len
        invariant chunk > 0 ==> 4 * index + chunk == chunk0 && n == 4 * index
        invariant chunk == 0 ==> ok && n == chunk0 && index == words
        invariant PutAt(buf[..], was, from, rdata[..n])
        invariant GoodSoFar(hw.readOk, start, index, ok)
        invariant wordReads == start + index + (if ok then 0 else 1)
        decreases chunk, ok
      {
        var copied := if chunk > 3 then 4 else len;
        TailIsWhole(chunk, len);
        WordsLeft(chunk0, index, chunk);
        ok := LoadWord(buf, from, index, copied, was);
        MoreGood(hw.readOk, start, index, ok);
        if ok {
          len := len - copied;
          chunk := chunk - copied;
          index := index + 1;
          n := n + copied;
        }
      }
      if !ok {
        WordsLeft(chunk0, index, chunk);
      }
      GoodReadsIs(hw.readOk, start, words, index, ok);
      e := if ok then Ok else EIO;
    }

    /** One round of the chunk loop of _i2c_xfer for a write. */
    method SendChunk(buf: array<Byte>, from: nat, len: nat) returns (e: Err)
      requires Valid() && 0 < len && from + len <= buf.Length
      modifies `wdata, `size, `log, `tries, `accesses, `wire
      ensures Valid() && size == Min(len, hw.bufSize)
      ensures (State(), e) == SendOne(hw, old(State()), buf[from..from + size])
    {
      hide SendOne;
      size := Min(len, hw.bufSize);
      var rest := FillChunk(buf, from, len, size);
      e := Send();
    }

    /** The chunk loop of _i2c_xfer for a write of len0 bytes. */
    method SendAll(buf: array<Byte>, len0: nat) returns (e: Err)
      requires Valid() && len0 <= buf.Length
      modifies `wdata, `size, `log, `tries, `accesses, `wire
      ensures Valid() && (State(), e) == SendRow(hw, old(State()), buf[..len0])
    {
      hide SendOne, SendRow;
      ghost var bytes := buf[..len0];
      var len: nat, from: nat := len0, 0;
      e := Ok;
      assert bytes[0..] == bytes;
      while len != 0 && e == Ok
        invariant Valid() && 0 <= from && from + len == len0 && bytes == buf[..len0]
        invariant e == Ok ==> SendRow(hw, State(), bytes[from..]) == SendRow(hw, old(State()), bytes)
        invariant e != Ok ==> (State(), e) == SendRow(hw, old(State()), bytes)
        decreases len, e == Ok
      {
        SendRowStep(hw, State(), bytes, from);
        SlicesAgree(buf[..], len0, from, from + Min(len, hw.bufSize));
        e := SendChunk(buf, from, len);
        if e == Ok {
          len := len - size;
          from := from + size;
        }
      }
      if e == Ok {
        assert bytes[from..] == [];
        SendRowDone(hw, State());
      }
    }

    /** One round of the chunk loop of _i2c_xfer for a read. */
    method ReceiveChunk(buf: array<Byte>, from: nat, len: nat) returns (e: Err, ghost part: seq<Byte>)
      requires Valid() && 0 < len && from + len <= buf.Length
      modifies `rdata, `pos, `size, `log, `tries, `accesses, `wordReads, buf
      ensures Valid() && (State(), e, part) == ReadOne(hw, old(State()), len)
      ensures PutAt(buf[..], old(buf[..]), from, part)
    {
      hide ReceiveOne, DrainOne, PutAt;
      size := Min(len, BUF_SIZE);
      var chunk := Min(len, hw.bufSize);
      part := [];
      e := Receive();
      PutNothing(buf[..], from, rdata);
      if e == Ok {
        ghost var n;
        e, n := DrainChunk(buf, from, len, chunk);
        part := rdata[..n];
      }
    }

    /** The chunk loop of _i2c_xfer for a read of len0 bytes; got is what it has copied. */
    method ReceiveAll(buf: array<Byte>, len0: nat) returns (e: Err, ghost got: seq<Byte>)
      requires Valid() && len0 <= buf.Length
      modifies `rdata, `pos, `size, `log, `tries, `accesses, `wordReads, buf
      ensures Valid() && (State(), e, got) == ReadRow(hw, old(State()), len0, [])
      ensures Starts(buf[..], old(buf[..]), got)
    {
      hide ReadOne, ReadRow, Starts, PutAt;
      ghost var was := buf[..];
      var len: nat, from: nat := len0, 0;
      e, got := Ok, [];
      StartsEmpty(was);
      while len != 0 && e == Ok
        invariant Valid() && 0 <= from && from + len == len0
        invariant Starts(buf[..], was, got)
        invariant e == Ok ==> |got| == from && ReadRow(hw, State(), len, got) == ReadRow(hw, old(State()), len0, [])
        invariant e != Ok ==> (State(), e, got) == ReadRow(hw, old(State()), len0, [])
        decreases len, e == Ok
      {
        ReadRowStep(hw, State(), len, got);
        ghost var mid := buf[..];
        ghost var part;
        e, part := ReceiveChunk(buf, from, len);
        StartsMore(buf[..], mid, was, got, part);
        got := got + part;
        if e == Ok {
          var chunk := Min(len, hw.bufSize);
          len := len - chunk;
          from := from + chunk;
        }
      }
      if e == Ok {
        ReadRowDone(hw, State(), got);
      }
    }

    /** _i2c_xfer */
    method TransferOne(msg: Msg) returns (e: Err)
      requires Valid() && msg.Asked().Valid()
      modifies `wdata, `rdata, `pos, `size, `log, `tries, `accesses, `waits, `wordReads, `wire, msg`len, msg.buf
      ensures Valid()
      ensures var (d, r) := Handle(hw, old(State()), old(msg.Asked()));
              State() == d && e == r.e && msg.Shows(r)
      ensures msg.len ==
              if e == Ok && msg.read && msg.recvLen && old(msg.len) + 32 < 0x1_0000 && msg.buf[0] <= 32
              then old(msg.len) + msg.buf[0] else old(msg.len)
    {
      hide ReadRow, SendRow;
      var startLen := if msg.read && msg.recvLen then (msg.len + BLOCK_MAX) % U16 else msg.len;
      e := WaitDone(hw.idle(waits), hw.timeout);
      waits := waits + 1;
      if e != Ok {
        return;
      }
      if msg.read {
        ghost var got;
        e, got := ReceiveAll(msg.buf, startLen);
      } else {
        ghost var bytes := msg.buf[..];
        assert bytes[..msg.len] == msg.buf[..startLen];
        e := SendAll(msg.buf, startLen);
      }
      if e == Ok && msg.read && msg.recvLen && msg.len + msg.buf[0] <= startLen {
        msg.len := msg.len + msg.buf[0];
      }
    }

    /** One round of the message loop. */
    method NextMessage(msgs: seq<Msg>, i: nat, ghost qs: seq<Request>, ghost done: seq<Reply>)
      returns (ghost reply: Reply, e: Err)
      requires Valid() && AllValid(qs) && i < |msgs| && Distinct(msgs) && |done| == i && LeftAs(msgs, qs, done)
      modifies `wdata, `rdata, `pos, `size, `log, `tries, `accesses, `waits, `wordReads, `wire
      modifies set m | m in msgs :: m`len, set m | m in msgs :: m.buf
      ensures Valid() && (State(), reply) == Handle(hw, old(State()), qs[i]) && e == reply.e
      ensures LeftAs(msgs, qs, done + [reply])
    {
      hide Handle;
      var msg := msgs[i];
      assert msg in msgs && msg.buf in set m | m in msgs :: m.buf;
      reply := Handle(hw, State(), qs[i]).1;
      e := TransferOne(msg);
      forall k | 0 <= k < |msgs|
        ensures if k <= i then msgs[k].Shows((done + [reply])[k]) else msgs[k].Asked() == qs[k]
      {
        if k != i {
          assert msgs[k] != msg && msgs[k].buf != msg.buf;
        }
      }
    }

    /** The message loop of cisco_fpga_i2c_xfer: in order, up to the first failure. */
    method RunMessages(msgs: seq<Msg>, ghost qs: seq<Request>) returns (ghost replies: seq<Reply>, err: Err)
      requires Valid() && AllValid(qs) && Distinct(msgs) && LeftAs(msgs, qs, [])
      modifies `wdata, `rdata, `pos, `size, `log, `tries, `accesses, `waits, `wordReads, `wire
      modifies set m | m in msgs :: m`len, set m | m in msgs :: m.buf
      ensures Valid() && (State(), replies) == HandleAll(hw, old(State()), qs, [])
      ensures err == if replies == [] then Ok else replies[|replies| - 1].e
      ensures LeftAs(msgs, qs, replies)
    {
      assert |qs| == |msgs|;
      hide Handle, HandleAll, LeftAs, AllValid, Distinct, State;
      var i := 0;
      replies, err := [], Ok;
      while i < |msgs|
        invariant 0 <= i <= |msgs| && |replies| == i && Valid() && err == Ok
        invariant i > 0 ==> replies[i - 1].e == Ok
        invariant HandleAll(hw, State(), qs, replies) == HandleAll(hw, old(State()), qs, [])
        invariant LeftAs(msgs, qs, replies)
      {
        HandleAllStep(hw, State(), qs, replies);
        ghost var reply;
        reply, err := NextMessage(msgs, i, qs, replies);
        replies := replies + [reply];
        if err != Ok {
          return;
        }
        i := i + 1;
      }
      HandleAllDone(hw, State(), qs, replies);
    }

    /** cisco_fpga_i2c_xfer.  `cleared` tells whether the first interrupt clear succeeds;
        its result counts only when there are no messages. */
    method Transfer(msgs: seq<Msg>, cleared: bool, ghost qs: seq<Request>) returns (ret: Ret, ghost replies: seq<Reply>)
      requires Valid() && AllValid(qs) && Distinct(msgs) && LeftAs(msgs, qs, [])
      modifies `wdata, `rdata, `pos, `size, `log, `tries, `accesses, `waits, `wordReads, `wire
      modifies set m | m in msgs :: m`len, set m | m in msgs :: m.buf
      ensures Valid() && (State(), replies, ret) == TransferOf(hw, old(State()), qs, cleared)
      ensures LeftAs(msgs, qs, replies)
    {
      assert |qs| == |msgs|;
      hide HandleAll, LeftAs, Distinct;
      ClearStatus();
      var err;
      replies, err := RunMessages(msgs, qs);
      if msgs == [] && !cleared {
        err := EIO;
      }
      if err != Ok {
        ResetBlock();
        return Failure(err), replies;
      }
      ret := Count(|msgs|);
    }
  }

  /** Different messages with different buffers. */
  ghost predicate Distinct(msgs: seq<Msg>) {
    forall i, j :: 0 <= i < j < |msgs| ==> msgs[i] != msgs[j] && msgs[i].buf != msgs[j].buf
  }

  /** Each message that has a reply is as that reply says, and all others are as asked. */
  ghost predicate LeftAs(msgs: seq<Msg>, qs: seq<Request>, replies: seq<Reply>)
    reads set m | m in msgs, set m | m in msgs :: m.buf
  {
    && |qs| == |msgs| && |replies| <= |msgs|
    && forall i :: 0 <= i < |msgs| ==> if i < |replies| then msgs[i].Shows(replies[i]) else msgs[i].Asked() == qs[i]
  }

  lemma HandleAllStep(hw: Hw, d: Dev, qs: seq<Request>, done: seq<Reply>)
    requires hw.Valid() && d.Valid() && AllValid(qs) && |done| < |qs|
    ensures
      var (d', reply) := Handle(hw, d, qs[|done|]);
      HandleAll(hw, d, qs, done) ==
        if reply.e != Ok then (d', done + [reply])
        else HandleAll(hw, d', qs, done + [reply])
  {
    hide Handle;
  }

  lemma HandleAllDone(hw: Hw, d: Dev, qs: seq<Request>, done: seq<Reply>)
    requires hw.Valid() && d.Valid() && AllValid(qs) && |done| == |qs|
    ensures HandleAll(hw, d, qs, done) == (d, done)
  {
  }

  /** The first `done` reads were good, and the next one was not if ok is false. */
  ghost predicate GoodSoFar(readOk: nat -> bool, from: nat, done: nat, ok: bool) {
    (forall k :: from <= k < from + done ==> readOk(k)) && (!ok ==> !readOk(from + done))
  }

  lemma NoneRead(readOk: nat -> bool, from: nat)
    ensures GoodSoFar(readOk, from, 0, true)
  {
  }

  lemma MoreGood(readOk: nat -> bool, from: nat, done: nat, ok: bool)
    requires GoodSoFar(readOk, from, done, true) && ok == readOk(from + done)
    ensures if ok then GoodSoFar(readOk, from, done + 1, true) else GoodSoFar(readOk, from, done, false)
  {
  }

  lemma GoodReadsIs(readOk: nat -> bool, from: nat, n: nat, g: nat, ok: bool)
    requires GoodSoFar(readOk, from, g, ok) && if ok then g == n else g < n
    ensures GoodReads(readOk, from, n) == g
  {
    hide GoodReads;
    var h := GoodReads(readOk, from, n);
    assert h < n ==> !readOk(from + h);
    assert g < n ==> !readOk(from + g);
  }

  /** Words and bytes of a chunk run out together. */
  lemma WordsLeft(chunk0: nat, index: nat, chunk: nat)
    requires 4 * index + chunk == chunk0 && chunk > 0
    ensures index < WordsIn(chunk0) && (chunk <= 4 <==> WordsIn(chunk0) == index + 1)
  {
  }

  lemma SendRowStep(hw: Hw, d: Dev, bytes: seq<Byte>, from: nat)
    requires hw.Valid() && d.Valid() && from < |bytes|
    ensures
      var n := Min(|bytes| - from, hw.bufSize);
      var (d', e) := SendOne(hw, d, bytes[from..from + n]);
      SendRow(hw, d, bytes[from..]) == if e != Ok then (d', e) else SendRow(hw, d', bytes[from + n..])
  {
    hide SendOne;
    var n := Min(|bytes| - from, hw.bufSize);
    assert bytes[from..][..n] == bytes[from..from + n] && bytes[from..][n..] == bytes[from + n..];
  }

  lemma SendRowDone(hw: Hw, d: Dev)
    requires hw.Valid() && d.Valid()
    ensures SendRow(hw, d, []) == (d, Ok)
  {
  }

  lemma SlicesAgree(s: seq<Byte>, n: nat, a: nat, b: nat)
    requires a <= b <= n <= |s|
    ensures s[..n][a..b] == s[a..b]
  {
  }

  lemma ReadRowStep(hw: Hw, d: Dev, len: nat, got: seq<Byte>)
    requires hw.Valid() && d.Valid() && len > 0
    ensures
      var (d', e, part) := ReadOne(hw, d, len);
      ReadRow(hw, d, len, got) ==
      if e != Ok then (d', e, got + part) else ReadRow(hw, d', len - Min(len, hw.bufSize), got + part)
  {
    hide ReadOne;
  }

  lemma ReadRowDone(hw: Hw, d: Dev, got: seq<Byte>)
    requires hw.Valid() && d.Valid()
    ensures ReadRow(hw, d, 0, got) == (d, Ok, got)
  {
  }
}
