/**
 The register trace buffer: variable-length records in a byte ring that wraps
 anywhere, inside headers and payloads too, with one byte always left free.
 */
module RegTrace {
  import opened Options
  import opened Bytes

  const HDR_SIZE: nat := 24
  const LEN_LIMIT: nat := 0x1_0000

  /** reg_trace_hdr_t: 16 bytes of time stamp, two 16-bit fields, 4 bytes of padding. */
  datatype Header = Header(ts: seq<Byte>, op: nat, len: nat, pad: seq<Byte>) {
    predicate Valid() {
      |ts| == 16 && op < LEN_LIMIT && len < LEN_LIMIT && |pad| == 4
    }

    function Encode(): (bs: seq<Byte>)
      requires Valid()
      ensures |bs| == HDR_SIZE
    {
      ts + [op % 0x100, op / 0x100, len % 0x100, len / 0x100] + pad
    }
  }

  function Decode(bs: seq<Byte>): (h: Header)
    requires |bs| == HDR_SIZE
    ensures h.Valid() && h.Encode() == bs
  {
    Header(bs[..16], ByteAt(bs, 16) + 0x100 * ByteAt(bs, 17), ByteAt(bs, 18) + 0x100 * ByteAt(bs, 19), bs[20..])
  }

  lemma DecodeEncode(h: Header)
    requires h.Valid()
    ensures Decode(h.Encode()) == h
  {
    var bs := h.Encode();
    assert bs[..16] == h.ts && bs[20..] == h.pad;
  }

  /** Where the fields stand: the time stamp first, then the two 16-bit numbers, low byte
      first, in bytes 16 and 17 and in bytes 18 and 19. */
  lemma HeaderLayout(h: Header)
    requires h.Valid()
    ensures var bs := h.Encode();
            && bs[..16] == h.ts && bs[20..] == h.pad
            && ByteAt(bs, 16) + 0x100 * ByteAt(bs, 17) == h.op && ByteAt(bs, 18) + 0x100 * ByteAt(bs, 19) == h.len
  {
    var bs := h.Encode();
    assert bs[..16] == h.ts && bs[20..] == h.pad;
  }

  datatype Record = Record(hdr: Header, payload: seq<Byte>) {
    function Encode(): seq<Byte>
      requires hdr.Valid()
    {
      hdr.Encode() + payload
    }
  }

  /** The header's length field is the payload length stored in 16 bits. */
  predicate Traced(r: Record) {
    r.hdr.Valid() && r.hdr.len == |r.payload| % LEN_LIMIT
  }

  predicate AllTraced(rs: seq<Record>) {
    forall i :: 0 <= i < |rs| ==> Traced(rs[i])
  }

  /** The bytes of a list of records. */
  function Flatten(rs: seq<Record>): seq<Byte>
    requires AllTraced(rs)
  {
    if rs == [] then [] else rs[0].Encode() + Flatten(rs[1..])
  }

  lemma {:induction false} FlattenAppend(rs: seq<Record>, r: Record)
    requires AllTraced(rs) && Traced(r)
    ensures Flatten(rs + [r]) == Flatten(rs) + r.Encode()
  {
    if rs == [] {
      assert [r][1..] == [];
    } else {
      assert (rs + [r])[1..] == rs[1..] + [r];
      FlattenAppend(rs[1..], r);
    }
  }

  /** What a walk makes of the stored bytes: the records it delivers and the bytes it
      leaves when it breaks off. */
  function Parse(bs: seq<Byte>, size: nat): (seq<Record>, seq<Byte>)
    decreases |bs|
  {
    if |bs| < HDR_SIZE then ([], bs)
    else
      var h := Decode(bs[..HDR_SIZE]);
      var body := bs[HDR_SIZE..];
      if h.len > size || |body| < h.len then ([], body)
      else
        var (rs, rest) := Parse(body[h.len..], size);
        ([Record(h, body[..h.len])] + rs, rest)
  }

  lemma ParseStep(bs: seq<Byte>, size: nat)
    ensures |bs| < HDR_SIZE ==> Parse(bs, size) == ([], bs)
    ensures |bs| >= HDR_SIZE ==>
              var h, body := Decode(bs[..HDR_SIZE]), bs[HDR_SIZE..];
              if h.len > size || |body| < h.len then Parse(bs, size) == ([], body)
              else Parse(bs, size) ==
                   ([Record(h, body[..h.len])] + Parse(body[h.len..], size).0,
                   Parse(body[h.len..], size).1)
  {
    hide Decode;
  }

  /** A delivered record carries as many bytes as its header says. */
  lemma {:induction false} DeliveredFit(bs: seq<Byte>, size: nat)
    ensures forall r :: r in Parse(bs, size).0 ==> |r.payload| == r.hdr.len < LEN_LIMIT
    decreases |bs|
  {
    if |bs| >= HDR_SIZE {
      var h := Decode(bs[..HDR_SIZE]);
      var body := bs[HDR_SIZE..];
      if h.len <= size && h.len <= |body| {
        DeliveredFit(body[h.len..], size);
      }
    }
  }

  lemma {:induction false} ParseFlatten(rs: seq<Record>, size: nat)
    requires AllTraced(rs) && |Flatten(rs)| <= size
    requires forall r :: r in rs ==> |r.payload| < LEN_LIMIT
    ensures Parse(Flatten(rs), size) == (rs, [])
  {
    if rs != [] {
      var r, rest, bs := rs[0], Flatten(rs[1..]), Flatten(rs);
      assert bs[..HDR_SIZE] == r.hdr.Encode();
      DecodeEncode(r.hdr);
      var body := bs[HDR_SIZE..];
      assert body == r.payload + rest;
      assert body[..r.hdr.len] == r.payload && body[r.hdr.len..] == rest;
      ParseFlatten(rs[1..], size);
      assert [r] + rs[1..] == rs;
    }
  }

  /** A walk gives back exactly the stored records, and nothing is left, if and only if
      every payload length fits the 16-bit field of its header. */
  lemma WalkGivesBackRecords(rs: seq<Record>, size: nat)
    requires AllTraced(rs) && |Flatten(rs)| <= size
    ensures Parse(Flatten(rs), size) == (rs, []) <==> forall r :: r in rs ==> |r.payload| < LEN_LIMIT
  {
    if forall r :: r in rs ==> |r.payload| < LEN_LIMIT {
      ParseFlatten(rs, size);
    }
    DeliveredFit(Flatten(rs), size);
  }

  // ------------------------------------------------- index arithmetic

  predicate IsEmpty(readHead: nat, writeTail: nat) {
    readHead == writeTail
  }

  function WriteSpace(readHead: nat, writeTail: nat, size: nat): int {
    if writeTail < readHead then readHead - writeTail - 1 else size - writeTail + readHead - 1
  }

  function WriteSpaceNowrap(readHead: nat, writeTail: nat, size: nat): int {
    if writeTail < readHead then readHead - writeTail - 1 else size - writeTail
  }

  function ReadSpace(readHead: nat, writeTail: nat, size: nat): int {
    if writeTail >= readHead then writeTail - readHead else size - readHead + writeTail
  }

  function ReadSpaceNowrap(readHead: nat, writeTail: nat, size: nat): int {
    if writeTail >= readHead then writeTail - readHead else size - readHead
  }

  /** One byte is never used; the contiguous space exceeds the true space in exactly one
      situation, and a write that used all of it there would make the ring look empty. */
  lemma Spaces(readHead: nat, writeTail: nat, size: nat)
    requires readHead < size && writeTail < size
    ensures ReadSpace(readHead, writeTail, size) + WriteSpace(readHead, writeTail, size) == size - 1
    ensures IsEmpty(readHead, writeTail) <==> ReadSpace(readHead, writeTail, size) == 0
    ensures WriteSpaceNowrap(readHead, writeTail, size) > WriteSpace(readHead, writeTail, size) <==> readHead == 0
    ensures readHead == 0 ==>
              IsEmpty(0, (writeTail + WriteSpaceNowrap(readHead, writeTail, size)) % size)
  {
  }

  lemma WrapOnce(x: nat, size: nat)
    requires size > 0 && x < 2 * size
    ensures x % size == if x < size then x else x - size
  {
    if x >= size {
      assert x == 1 * size + (x - size);
    }
  }

  /** The unread part of the buffer contents. */
  ghost function Unread(buf: seq<Byte>, readHead: nat, writeTail: nat): (bs: seq<Byte>)
    requires readHead < |buf| && writeTail < |buf|
    ensures |bs| == ReadSpace(readHead, writeTail, |buf|)
  {
    if writeTail >= readHead then buf[readHead..writeTail] else buf[readHead..] + buf[..writeTail]
  }

  /** What is contiguous from the read position, up to len. */
  function Contiguous(readHead: nat, writeTail: nat, size: nat, len: nat): (n: nat)
    requires readHead < size && writeTail < size && len <= ReadSpace(readHead, writeTail, size)
    ensures n <= len && readHead + n <= size && len - n <= size
  {
    var space := ReadSpaceNowrap(readHead, writeTail, size);
    if len < space then len else space
  }

  lemma ContiguousIs(readHead: nat, writeTail: nat, size: nat, len: nat, space: int)
    requires readHead < size && writeTail < size && len <= ReadSpace(readHead, writeTail, size)
    requires space == ReadSpaceNowrap(readHead, writeTail, size) || len < ReadSpaceNowrap(readHead, writeTail, size)
    requires len < ReadSpaceNowrap(readHead, writeTail, size) ==> space == len
    ensures space == Contiguous(readHead, writeTail, size, len)
  {
  }

  /** The first len unread bytes lie in at most two pieces. */
  lemma SliceInPieces(buf: seq<Byte>, readHead: nat, writeTail: nat, len: nat)
    requires readHead < |buf| && writeTail < |buf| && len <= ReadSpace(readHead, writeTail, |buf|)
    ensures var n := Contiguous(readHead, writeTail, |buf|, len);
            Unread(buf, readHead, writeTail)[..len] == buf[readHead..readHead + n] + buf[..len - n]
  {
  }

  /** Skipping len unread bytes moves the read position, modulo the size. */
  lemma SkippedStored(buf: seq<Byte>, readHead: nat, writeTail: nat, len: nat)
    requires readHead < |buf| && writeTail < |buf| && len <= ReadSpace(readHead, writeTail, |buf|)
    ensures var end := readHead + len;
            Unread(buf, readHead, writeTail)[len..] == Unread(buf, if end < |buf| then end else end - |buf|, writeTail)
  {
  }

  /** A contiguous copy within the true space appends to the unread bytes. */
  lemma AppendStored(buf: seq<Byte>, readHead: nat, writeTail: nat, src: seq<Byte>)
    requires readHead < |buf| && writeTail < |buf|
    requires |src| <= WriteSpace(readHead, writeTail, |buf|) && |src| <= WriteSpaceNowrap(readHead, writeTail, |buf|)
    ensures var buf' := buf[..writeTail] + src + buf[writeTail + |src|..];
            var end := writeTail + |src|;
            Unread(buf', readHead, if end == |buf| then 0 else end) == Unread(buf, readHead, writeTail) + src
  {
    var n := |src|;
    var buf' := buf[..writeTail] + src + buf[writeTail + n..];
    assert buf'[writeTail..writeTail + n] == src;
    if writeTail >= readHead {
      assert buf'[readHead..writeTail + n] == buf[readHead..writeTail] + src;
      assert buf'[..0] == [];
    } else {
      assert buf'[..writeTail + n] == buf[..writeTail] + src;
      assert buf'[readHead..] == buf[readHead..];
    }
  }

  lemma EmptyStored(readHead: nat, writeTail: nat, size: nat)
    requires readHead < size && writeTail < size
    ensures IsEmpty(readHead, writeTail) <==> ReadSpace(readHead, writeTail, size) == 0
  {
  }

  // ---------------------------------------------------------- the ring

  class Ring {
    const size: nat
    const data: array<Byte>
    var readHead: nat
    var writeTail: nat
    var overflow: bool
    var maxSize: nat

    ghost predicate Valid()
      reads this
    {
      data.Length == size && readHead < size && writeTail < size
    }

    /** The unread bytes, oldest first. */
    ghost function Stored(): (bs: seq<Byte>)
      requires Valid()
      reads this, data
      ensures |bs| == ReadSpace(readHead, writeTail, size)
    {
      Unread(data[..], readHead, writeTail)
    }

    /** reg_trace_init */
    constructor (size: nat)
      requires size > 0
      ensures Valid() && fresh(data) && Stored() == []
      ensures this.size == size && !overflow && maxSize == 0
    {
      this.size := size;
      data := new Byte[size](_ => 0);
      readHead, writeTail, overflow, maxSize := 0, 0, false, 0;
    }

    /** _reg_trace_fill: one contiguous copy.  The caller has checked the true space. */
    method Fill(src: seq<Byte>) returns (avail: nat)
      requires Valid() && |src| <= WriteSpace(readHead, writeTail, size)
      modifies `writeTail, data
      ensures Valid()
      ensures avail == if WriteSpaceNowrap(readHead, old(writeTail), size) < |src|
                       then WriteSpaceNowrap(readHead, old(writeTail), size) else |src|
      ensures Stored() == old(Stored()) + src[..avail]
      ensures avail < |src| ==> writeTail == 0 < readHead
    {
      hide Unread, ReadSpace;
      avail := WriteSpaceNowrap(readHead, writeTail, size);
      if |src| < avail { avail := |src|; }
      ghost var was := data[..];
      forall i | 0 <= i < avail {
        data[writeTail + i] := src[i];
      }
      assert data[..] == was[..writeTail] + src[..avail] + was[writeTail + avail..];
      AppendStored(was, readHead, writeTail, src[..avail]);
      writeTail := writeTail + avail;
      if writeTail == size {
        writeTail := 0;
      }
    }

    /** _reg_trace_write: at most two fills. */
    method Write(src: seq<Byte>)
      requires Valid() && |src| <= WriteSpace(readHead, writeTail, size)
      modifies `writeTail, data
      ensures Valid() && Stored() == old(Stored()) + src
    {
      if |src| > 0 {
        var wrote := Fill(src);
        if wrote != |src| {
          var rest := Fill(src[wrote..]);
          assert src[..wrote] + src[wrote..][..rest] == src;
        }
      }
    }

    /** reg_trace */
    method Trace(op: nat, ts: seq<Byte>, pad: seq<Byte>, payload: seq<Byte>) returns (accepted: bool)
      requires Valid() && op < LEN_LIMIT && |ts| == 16 && |pad| == 4
      modifies `writeTail, `overflow, data
      ensures Valid()
      ensures accepted <==> HDR_SIZE + |payload| + |old(Stored())| < size
      ensures accepted ==>
                Stored() == old(Stored())
                + Record(Header(ts, op, |payload| % LEN_LIMIT, pad), payload).Encode()
                           && overflow == old(overflow)
      ensures !accepted ==> overflow && writeTail == old(writeTail) && data[..] == old(data[..])
    {
      if HDR_SIZE + |payload| > WriteSpace(readHead, writeTail, size) {
        overflow := true;
        accepted := false;
      } else {
        var hdr := Header(ts, op, |payload| % LEN_LIMIT, pad);
        Write(hdr.Encode());
        Write(payload);
        accepted := true;
      }
    }

    /** _reg_trace_read_skip */
    method Skip(len: nat)
      requires Valid()
      modifies `readHead
      ensures Valid() && readHead == (old(readHead) + len) % size
    {
      readHead := (readHead + len) % size;
    }

    /** The copy of _extract, in at most two pieces. */
    method Peek(len: nat) returns (dst: seq<Byte>)
      requires Valid() && len <= |Stored()|
      ensures dst == Stored()[..len]
    {
      var space := ReadSpaceNowrap(readHead, writeTail, size);
      if len < space { space := len; }
      ContiguousIs(readHead, writeTail, size, len, space);
      hide Unread, ReadSpace, ReadSpaceNowrap, Contiguous;
      ghost var buf := data[..];
      SliceInPieces(buf, readHead, writeTail, len);
      dst := data[readHead..readHead + space];
      if space < len {
        dst := dst + data[..len - space];
      }
      assert dst == buf[readHead..readHead + space] + buf[..len - space];
    }

    /** _extract */
    method Extract(len: nat) returns (ok: bool, dst: seq<Byte>)
      requires Valid()
      modifies `readHead
      ensures Valid() && ok == (len <= |old(Stored())|)
      ensures ok ==> dst == old(Stored())[..len] && Stored() == old(Stored())[len..]
      ensures !ok ==> dst == [] && readHead == old(readHead)
    {
      if ReadSpace(readHead, writeTail, size) < len {
        return false, [];
      }
      dst := Peek(len);
      WrapOnce(readHead + len, size);
      hide Unread, ReadSpace;
      SkippedStored(data[..], readHead, writeTail, len);
      Skip(len);
      ok := true;
    }

    /** One round of the walk: a record for the callback, or the break that ends it. */
    method WalkRecord() returns (r: Option<Record>)
      requires Valid()
      modifies `readHead
      ensures Valid()
      ensures r.Some? ==>
                && |Stored()| < |old(Stored())|
                && Parse(old(Stored()), size) == ([r.value] + Parse(Stored(), size).0, Parse(Stored(), size).1)
      ensures r.None? ==> Parse(old(Stored()), size) == ([], Stored())
    {
      hide Parse, Decode, Unread, ReadSpace;
      ghost var bs := Stored();
      ParseStep(bs, size);
      var ok, raw := Extract(HDR_SIZE);
      if !ok {
        return None;
      }
      var hdr := Decode(raw);
      if hdr.len > size {
        return None;
      }
      var payload;
      ok, payload := Extract(hdr.len);
      if !ok {
        return None;
      }
      r := Some(Record(hdr, payload));
    }

    /** reg_trace_walk; the callback's arguments are collected in order. */
    method Walk(haveBuffer: bool) returns (out: seq<Record>)
      requires Valid()
      modifies `readHead
      ensures Valid()
      ensures haveBuffer ==> out == Parse(old(Stored()), size).0 && Stored() == Parse(old(Stored()), size).1
      ensures !haveBuffer ==> out == [] && Stored() == old(Stored())
    {
      hide Parse, Decode, Unread, ReadSpace;
      out := [];
      if !haveBuffer {
        return;
      }
      ghost var all := Parse(Stored(), size);
      assert [] + all.0 == all.0;
      while !IsEmpty(readHead, writeTail)
        invariant Valid()
        invariant out + Parse(Stored(), size).0 == all.0 && Parse(Stored(), size).1 == all.1
        decreases |Stored()|
      {
        var r := WalkRecord();
        if r.None? {
          assert out + [] == out;
          return;
        }
        assert out + ([r.value] + Parse(Stored(), size).0) == (out + [r.value]) + Parse(Stored(), size).0;
        out := out + [r.value];
      }
      EmptyStored(readHead, writeTail, size);
      ParseStep(Stored(), size);
      assert out + [] == out;
    }

    /** reg_trace_reset; cur_size counts the byte that is never used. */
    method Reset()
      requires Valid()
      modifies `readHead, `writeTail, `overflow, `maxSize
      ensures Valid() && Stored() == [] && !overflow
      ensures maxSize == if |old(Stored())| + 1 > old(maxSize) then |old(Stored())| + 1 else old(maxSize)
    {
      var curSize := size - WriteSpace(readHead, writeTail, size);
      if curSize > maxSize {
        maxSize := curSize;
      }
      readHead, writeTail, overflow := 0, 0, false;
    }
  }
}
