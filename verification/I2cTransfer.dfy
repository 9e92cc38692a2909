/**
 What a transfer on the I2C-EXT block does: every access, every attempt, every word read,
 and the outcome of every message, as functions of what the hardware answers.
 */
module I2cTransfer {
  import opened Bytes
  import opened I2cRetry
  import opened I2cChunks

  const BLOCK_MAX: nat := 32
  const U16: int := 0x1_0000

  /** The settings of an adapter and the answers of its hardware, in the order asked: the
      attempts to run an access, the waits before a message, the writes of the size register,
      the reads of the receive window, and the bytes of the addressed device. */
  datatype Hw = Hw(bufSize: nat, retries: nat, timeout: nat, attempt: nat -> Attempt, idle: nat -> Attempt,
                   cfg2Ok: nat -> bool, readOk: nat -> bool, source: nat -> Byte)
  {
    predicate Valid() {
      bufSize == BUF_SIZE || bufSize == BUF_SIZE_V5
    }
  }

  /** How many of each have happened, the receive window, the accesses that went out on the
      wire, and all attempts, resets and clears in order. */
  datatype Dev = Dev(accesses: nat, tries: nat, waits: nat, wordReads: nat, pos: nat,
                     window: seq<Byte>, wire: seq<seq<Byte>>, log: seq<Event>)
  {
    predicate Valid() {
      |window| == WINDOW
    }
  }

  // ------------------------------------------------------------ one access

  /** How access number n ends, its first attempt being number t: the size register may fail
      to be written, and then nothing is attempted. */
  function AccessErr(hw: Hw, n: nat, t: nat): Err {
    if hw.cfg2Ok(n) then LastErr(hw.attempt, hw.timeout, t, hw.retries) else EIO
  }

  function AccessTries(hw: Hw, n: nat, t: nat): nat {
    if hw.cfg2Ok(n) then TryCount(hw.attempt, hw.timeout, t, hw.retries) else 0
  }

  function AccessEvents(hw: Hw, n: nat, t: nat): seq<Event> {
    if hw.cfg2Ok(n) then Tries(hw.attempt, hw.timeout, t, hw.retries) else []
  }

  /** _write_cfg2_retryable_cfg */
  function AfterAccess(hw: Hw, d: Dev): Dev {
    d.(accesses := d.accesses + 1, tries := d.tries + AccessTries(hw, d.accesses, d.tries),
       log := d.log + AccessEvents(hw, d.accesses, d.tries))
  }

  /** An access that sends bytes. */
  function SendOne(hw: Hw, d: Dev, bytes: seq<Byte>): (Dev, Err) {
    var e, d' := AccessErr(hw, d.accesses, d.tries), AfterAccess(hw, d);
    (if e == Ok then d'.(wire := d.wire + [bytes]) else d', e)
  }

  /** An access that asks for n bytes. */
  function ReceiveOne(hw: Hw, d: Dev, n: nat): (r: (Dev, Err))
    requires d.Valid() && n <= WINDOW
    ensures r.0.Valid()
  {
    var e, d' := AccessErr(hw, d.accesses, d.tries), AfterAccess(hw, d);
    (if e == Ok then d'.(window := Received(hw.source, d.pos, n, d.window), pos := d.pos + n) else d', e)
  }

  // ------------------------------------------------------------ the window

  function WordsIn(chunk: nat): nat {
    (chunk + 3) / 4
  }

  /** How many of n word reads succeed before one fails. */
  function GoodReads(readOk: nat -> bool, from: nat, n: nat): (g: nat)
    ensures g <= n && (forall k :: from <= k < from + g ==> readOk(k)) && (g < n ==> !readOk(from + g))
    decreases n
  {
    if n == 0 || !readOk(from) then 0 else 1 + GoodReads(readOk, from + 1, n - 1)
  }

  /** A chunk copied out of the window, and how many of its bytes are. */
  function DrainOne(hw: Hw, d: Dev, chunk: nat): (r: (Dev, Err, nat))
    requires d.Valid() && chunk <= WINDOW
    ensures r.0.Valid() && r.2 <= chunk && r.0.window == d.window && (r.1 == Ok ==> r.2 == chunk)
  {
    var n := WordsIn(chunk);
    var g := GoodReads(hw.readOk, d.wordReads, n);
    if g == n then (d.(wordReads := d.wordReads + n), Ok, chunk)
    else (d.(wordReads := d.wordReads + g + 1), EIO, 4 * g)
  }

  // ---------------------------------------------------------- one message

  /** The chunk loop of a write. */
  function SendRow(hw: Hw, d: Dev, bytes: seq<Byte>): (r: (Dev, Err))
    requires hw.Valid() && d.Valid()
    ensures r.0.Valid()
    decreases |bytes|
  {
    if bytes == [] then (d, Ok)
    else
      var n := Min(|bytes|, hw.bufSize);
      var (d', e) := SendOne(hw, d, bytes[..n]);
      if e != Ok then (d', e) else SendRow(hw, d', bytes[n..])
  }

  /** One round of the chunk loop of a read, and the bytes it copies. */
  function ReadOne(hw: Hw, d: Dev, len: nat): (r: (Dev, Err, seq<Byte>))
    requires hw.Valid() && d.Valid()
    ensures r.0.Valid() && |r.2| <= Min(len, hw.bufSize) && (r.1 == Ok ==> |r.2| == Min(len, hw.bufSize))
  {
    var (d1, e1) := ReceiveOne(hw, d, Min(len, BUF_SIZE));
    if e1 != Ok then (d1, e1, [])
    else
      var (d2, e2, n) := DrainOne(hw, d1, Min(len, hw.bufSize));
      (d2, e2, d1.window[..n])
  }

  /** The chunk loop of a read, with what it has copied so far. */
  function ReadRow(hw: Hw, d: Dev, len: nat, got: seq<Byte>): (r: (Dev, Err, seq<Byte>))
    requires hw.Valid() && d.Valid()
    ensures r.0.Valid() && got <= r.2 && |r.2| <= |got| + len && (r.1 == Ok ==> |r.2| == |got| + len)
    decreases len
  {
    if len == 0 then (d, Ok, got)
    else
      var (d', e, part) := ReadOne(hw, d, len);
      if e != Ok then (d', e, got + part) else ReadRow(hw, d', len - Min(len, hw.bufSize), got + part)
  }

  /** One i2c_msg: RECV_LEN asks for a block whose first byte is its length. */
  datatype Request = Request(read: bool, recvLen: bool, len: nat, bytes: seq<Byte>) {
    /** The length the transfer starts with, in 16 bits. */
    function StartLen(): nat {
      if read && recvLen then (len + BLOCK_MAX) % U16 else len
    }

    /** What the I2C core guarantees: a 16-bit length and room for what will be copied. */
    predicate Valid() {
      len < U16 && len <= |bytes| && StartLen() <= |bytes| && (recvLen ==> |bytes| > 0)
    }

    /** The bytes a write carries. */
    function Payload(): seq<Byte>
      requires len <= |bytes|
    {
      if read then [] else bytes[..len]
    }
  }

  predicate AllValid(qs: seq<Request>) {
    forall i :: 0 <= i < |qs| ==> qs[i].Valid()
  }

  /** How a message ends: the error, its length and its buffer afterwards. */
  datatype Reply = Reply(e: Err, len: nat, bytes: seq<Byte>)

  /** The length after a block read: the length byte is added, within the length started with. */
  function BlockLen(q: Request, bytes: seq<Byte>): nat
    requires q.recvLen ==> |bytes| > 0
  {
    if q.recvLen && q.len + bytes[0] <= q.StartLen() then q.len + bytes[0] else q.len
  }

  /** _i2c_xfer */
  function Handle(hw: Hw, d: Dev, q: Request): (r: (Dev, Reply))
    requires hw.Valid() && d.Valid() && q.Valid()
    ensures r.0.Valid()
  {
    var e, d1 := WaitEnd(hw.idle(d.waits), hw.timeout, 0, 0), d.(waits := d.waits + 1);
    if e != Ok then (d1, Reply(e, q.len, q.bytes))
    else if q.read then
      var (d2, e2, got) := ReadRow(hw, d1, q.StartLen(), []);
      var bytes := got + q.bytes[|got|..];
      (d2, Reply(e2, if e2 == Ok then BlockLen(q, bytes) else q.len, bytes))
    else
      var (d2, e2) := SendRow(hw, d1, q.bytes[..q.len]);
      (d2, Reply(e2, q.len, q.bytes))
  }

  // --------------------------------------------------------- all messages

  /** The message loop: in order, up to the first failure. */
  function HandleAll(hw: Hw, d: Dev, qs: seq<Request>, done: seq<Reply>): (r: (Dev, seq<Reply>))
    requires hw.Valid() && d.Valid() && AllValid(qs) && |done| <= |qs|
    ensures r.0.Valid() && done <= r.1 && |r.1| <= |qs| && (|done| < |qs| ==> |done| < |r.1|)
    decreases |qs| - |done|
  {
    if |done| == |qs| then (d, done)
    else
      var (d', reply) := Handle(hw, d, qs[|done|]);
      if reply.e != Ok then (d', done + [reply]) else HandleAll(hw, d', qs, done + [reply])
  }

  datatype Ret = Count(n: nat) | Failure(e: Err)

  /** cisco_fpga_i2c_xfer; whether the first interrupt clear succeeds counts only when there
      are no messages. */
  function TransferOf(hw: Hw, d: Dev, qs: seq<Request>, cleared: bool): (r: (Dev, seq<Reply>, Ret))
    requires hw.Valid() && d.Valid() && AllValid(qs)
    ensures r.0.Valid() && |r.1| <= |qs|
  {
    var (d1, replies) := HandleAll(hw, d.(log := d.log + [ClearIntr]), qs, []);
    var err := if replies != [] then replies[|replies| - 1].e else if cleared then Ok else EIO;
    if err == Ok then (d1, replies, Count(|qs|)) else (d1.(log := d1.log + [Reset]), replies, Failure(err))
  }
}
