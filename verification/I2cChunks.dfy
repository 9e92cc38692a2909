/** How messages on the I2C-EXT block are cut into accesses, and what reads bring back. */
module I2cChunks {
  import opened Bytes

  const BUF_SIZE: nat := 256
  const BUF_SIZE_V5: nat := 512
  const WINDOW: nat := 512

  function Min(a: nat, b: nat): nat {
    if a <= b then a else b
  }

  /** A message cut into accesses of at most `size` bytes. */
  function Split(msg: seq<Byte>, size: nat): seq<seq<Byte>>
    requires size > 0
  {
    if msg == [] then [] else [msg[..Min(|msg|, size)]] + Split(msg[Min(|msg|, size)..], size)
  }

  function Concat(parts: seq<seq<Byte>>): seq<Byte> {
    if parts == [] then [] else parts[0] + Concat(parts[1..])
  }

  /** No part is empty or too long, and all but the last are full. */
  predicate Filled(parts: seq<seq<Byte>>, size: nat) {
    && (forall i :: 0 <= i < |parts| ==> 0 < |parts[i]| <= size)
    && forall i :: 0 <= i < |parts| - 1 ==> |parts[i]| == size
  }

  lemma FilledCons(part: seq<Byte>, parts: seq<seq<Byte>>, size: nat)
    requires Filled(parts, size) && 0 < |part| <= size && (parts != [] ==> |part| == size)
    ensures Filled([part] + parts, size)
  {
  }

  lemma ConcatCons(part: seq<Byte>, parts: seq<seq<Byte>>)
    ensures Concat([part] + parts) == part + Concat(parts)
  {
    assert ([part] + parts)[1..] == parts;
  }

  /** The accesses of a message carry exactly its bytes, none is empty or too long, and all
      but the last are full. */
  lemma {:induction false} SplitCarriesMessage(msg: seq<Byte>, size: nat)
    requires size > 0
    ensures Concat(Split(msg, size)) == msg && Filled(Split(msg, size), size)
    decreases |msg|
  {
    hide Concat, Filled;
    if msg == [] {
      NothingToSend(size);
    } else {
      var n := Min(|msg|, size);
      var part, rest := msg[..n], msg[n..];
      SplitCarriesMessage(rest, size);
      FilledCons(part, Split(rest, size), size);
      ConcatCons(part, Split(rest, size));
      assert part + rest == msg;
    }
  }

  lemma NothingToSend(size: nat)
    ensures Concat([]) == [] && Filled([], size)
  {
  }

  /** n bytes of what the addressed device sends, from position pos on. */
  function Stream(source: nat -> Byte, pos: nat, n: nat): (bs: seq<Byte>)
    ensures |bs| == n && forall i :: 0 <= i < n ==> bs[i] == source(pos + i)
  {
    seq(n, i requires 0 <= i < n => source(pos + i))
  }

  /** The receive window after an access that asked for n bytes: only those are new. */
  function Received(source: nat -> Byte, pos: nat, n: nat, window: seq<Byte>): (w: seq<Byte>)
    requires n <= |window|
    ensures |w| == |window|
  {
    Stream(source, pos, n) + window[n..]
  }

  /** What reading len bytes leaves in the buffer.  Every access asks for at most 256
      bytes, and up to size bytes of the window are copied. */
  function ReadBack(source: nat -> Byte, pos: nat, window: seq<Byte>, len: nat, size: nat): seq<Byte>
    requires |window| == WINDOW && 0 < size <= WINDOW
    decreases len
  {
    if len == 0 then []
    else
      var asked, copied := Min(len, BUF_SIZE), Min(len, size);
      var w := Received(source, pos, asked, window);
      w[..copied] + ReadBack(source, pos + asked, w, len - copied, size)
  }

  /** A read returns the device's bytes, in order. */
  ghost predicate ReadsTrue(len: nat, size: nat)
    requires 0 < size <= WINDOW
  {
    forall source: nat -> Byte, pos: nat, window: seq<Byte> :: |window| == WINDOW ==>
      ReadBack(source, pos, window, len, size) == Stream(source, pos, len)
  }

  lemma {:induction false} ReadIsStream(source: nat -> Byte, pos: nat, window: seq<Byte>, len: nat, size: nat)
    requires |window| == WINDOW && 0 < size <= WINDOW && (size <= BUF_SIZE || len <= BUF_SIZE)
    requires size == BUF_SIZE || len <= size
    ensures ReadBack(source, pos, window, len, size) == Stream(source, pos, len)
    decreases len
  {
    if len > 0 {
      var asked, copied := Min(len, BUF_SIZE), Min(len, size);
      assert asked == copied;
      ReadIsStream(source, pos + asked, Received(source, pos, asked, window), len - copied, size);
    }
  }

  lemma OverlongReadIsStale(len: nat)
    requires len > BUF_SIZE
    ensures !ReadsTrue(len, BUF_SIZE_V5)
  {
    var source: nat -> Byte := (i: nat) => 1;
    var window := Zeros(WINDOW);
    var got := ReadBack(source, 0, window, len, BUF_SIZE_V5);
    assert got[BUF_SIZE] == Received(source, 0, BUF_SIZE, window)[BUF_SIZE] == 0;
    assert Stream(source, 0, len)[BUF_SIZE] == 1;
  }

  /** With either hardware buffer, reads are true for every device exactly up to the size
      that an access can ask for, or without limit if that is also what is copied. */
  lemma ReadsTrueExactly(len: nat, size: nat)
    requires size == BUF_SIZE || size == BUF_SIZE_V5
    ensures ReadsTrue(len, size) <==> size == BUF_SIZE || len <= BUF_SIZE
  {
    if size == BUF_SIZE || len <= BUF_SIZE {
      forall source: nat -> Byte, pos: nat, window: seq<Byte> | |window| == WINDOW
        ensures ReadBack(source, pos, window, len, size) == Stream(source, pos, len)
      {
        ReadIsStream(source, pos, window, len, size);
      }
    } else {
      OverlongReadIsStale(len);
    }
  }

  /** What an overlong read brings instead: the bytes past the 256th are those that earlier
      reads left in the window. */
  lemma OverlongReadIsOldWindow(source: nat -> Byte, pos: nat, window: seq<Byte>, len: nat)
    requires |window| == WINDOW && 256 < len <= 512
    ensures ReadBack(source, pos, window, len, 512) == Stream(source, pos, 256) + window[256..len]
  {
    var w := Received(source, pos, BUF_SIZE, window);
    ReadBackStep(source, pos, window, len, BUF_SIZE_V5);
    assert w[..len] + [] == w[..len];
  }

  lemma ReadBackStep(source: nat -> Byte, pos: nat, window: seq<Byte>, len: nat, size: nat)
    requires |window| == WINDOW && 0 < size <= WINDOW && len > 0
    ensures
      var w := Received(source, pos, Min(len, BUF_SIZE), window);
      ReadBack(source, pos, window, len, size)
      == w[..Min(len, size)] + ReadBack(source, pos + Min(len, BUF_SIZE), w, len - Min(len, size), size)
  {
    hide Received;
  }

  lemma {:induction false} ReadBackLength(source: nat -> Byte, pos: nat, window: seq<Byte>, len: nat, size: nat)
    requires |window| == WINDOW && 0 < size <= WINDOW
    ensures |ReadBack(source, pos, window, len, size)| == len
    decreases len
  {
    hide Received;
    if len > 0 {
      var asked := Min(len, BUF_SIZE);
      ReadBackLength(source, pos + asked, Received(source, pos, asked, window), len - Min(len, size), size);
    }
  }
}
