/**
 String attributes kept in scratch RAM: _scratch_store_str and _scratch_show_str move text
 through 32-bit registers of an overlay that they share with other fields.
 */
module ScratchStrings {
  import opened Options
  import opened Bytes

  const NEWLINE: Byte := 10

  /** A field of the overlay, by byte offset and size. */
  datatype Field = Field(off: nat, size: nat) {
    predicate Words() {
      off % 4 == 0 && size % 4 == 0 && size > 0
    }

    predicate Apart(other: Field) {
      off + size <= other.off || other.off + other.size <= off
    }
  }

  const SCRATCHRAM := 0x100

  /** The named fields of the overlay, the five strings last. */
  const OVERLAY: seq<Field> := [
    Field(SCRATCHRAM + 0x0, 4), Field(SCRATCHRAM + 0x4, 4), Field(SCRATCHRAM + 0x8, 4), Field(SCRATCHRAM + 0xc, 4),
    Field(SCRATCHRAM + 0x30, 4), Field(SCRATCHRAM + 0x34, 4), Field(SCRATCHRAM + 0x38, 4),
    Field(SCRATCHRAM + 0x3a0, 4), Field(SCRATCHRAM + 0x3a4, 4),
    Field(SCRATCHRAM + 0x3a8, 4), Field(SCRATCHRAM + 0x3ac, 4),
    Field(SCRATCHRAM + 0x3d0, 4),
    Field(SCRATCHRAM + 0x10, 20), Field(SCRATCHRAM + 0x24, 12),
    Field(SCRATCHRAM + 0x3b0, 20), Field(SCRATCHRAM + 0x3c4, 12),
    Field(SCRATCHRAM + 0x3d4, 12)]

  // ------------------------------------------------------------------ words and bytes

  function BytesOf(ws: seq<Word>): (bs: seq<Byte>)
    ensures |bs| == 4 * |ws|
  {
    if ws == [] then [] else Unpack(ws[0]) + BytesOf(ws[1..])
  }

  function WordsOf(bs: seq<Byte>): (ws: seq<Word>)
    requires |bs| % 4 == 0
    ensures |ws| == |bs| / 4
  {
    if bs == [] then [] else [Pack(bs[..4])] + WordsOf(bs[4..])
  }

  lemma {:induction false} BytesOfWordsOf(bs: seq<Byte>)
    requires |bs| % 4 == 0
    ensures BytesOf(WordsOf(bs)) == bs
  {
    hide Pack, Unpack;
    if bs != [] {
      UnpackPack(bs[..4]);
      BytesOfWordsOf(bs[4..]);
      assert WordsOf(bs)[1..] == WordsOf(bs[4..]);
    }
  }

  lemma WordsOfTail(bs: seq<Byte>)
    requires |bs| % 4 == 0 && bs != []
    ensures |bs[4..]| % 4 == 0 && WordsOf(bs) == [Pack(bs[..4])] + WordsOf(bs[4..])
  {
    hide Pack;
  }

  lemma {:induction false} WordAt(bs: seq<Byte>, k: nat)
    requires |bs| % 4 == 0 && 4 * k < |bs|
    ensures WordsOf(bs)[k] == Pack(bs[4 * k..4 * k + 4])
  {
    hide Pack, WordsOf;
    WordsOfTail(bs);
    if k > 0 {
      var rest := bs[4..];
      WordAt(rest, k - 1);
      assert WordsOf(bs)[k] == WordsOf(rest)[k - 1];
      assert rest[4 * (k - 1)..4 * (k - 1) + 4] == bs[4 * k..4 * k + 4];
    }
  }

  lemma {:induction false} BytesOfSnoc(ws: seq<Word>, w: Word)
    ensures BytesOf(ws + [w]) == BytesOf(ws) + Unpack(w)
  {
    hide Unpack;
    if ws == [] {
      assert [] + [w] == [w];
    } else {
      assert (ws + [w])[1..] == ws[1..] + [w];
      BytesOfSnoc(ws[1..], w);
    }
  }

  // ----------------------------------------------------------------- C strings

  /** The first position of c, or the length. */
  function FirstOf(bs: seq<Byte>, c: Byte): (k: nat)
    ensures k <= |bs| && (forall i :: 0 <= i < k ==> bs[i] != c) && (k < |bs| ==> bs[k] == c)
  {
    if bs == [] || bs[0] == c then 0 else 1 + FirstOf(bs[1..], c)
  }

  lemma FirstOfIs(bs: seq<Byte>, c: Byte, k: nat)
    requires k <= |bs| && (forall i :: 0 <= i < k ==> bs[i] != c) && (k < |bs| ==> bs[k] == c)
    ensures FirstOf(bs, c) == k
  {
    hide FirstOf;
    var f := FirstOf(bs, c);
    assert f < |bs| ==> bs[f] == c;
    assert k <= f;
  }

  /** Up to the first NUL. */
  function CString(bs: seq<Byte>): seq<Byte> {
    bs[..FirstOf(bs, 0)]
  }

  function Padded(text: seq<Byte>, n: nat): (bs: seq<Byte>)
    requires |text| <= n
    ensures |bs| == n
  {
    text + Zeros(n - |text|)
  }

  lemma CStringPadded(text: seq<Byte>, n: nat)
    requires |text| <= n && 0 !in text
    ensures CString(Padded(text, n)) == text
  {
    hide FirstOf;
    var bs := Padded(text, n);
    assert bs[..|text|] == text;
    FirstOfIs(bs, 0, |text|);
  }

  // -------------------------------------------------------------- what store keeps

  /** The text that store keeps: up to the first NUL or newline. */
  function Text(buf: seq<Byte>): (text: seq<Byte>)
    ensures |text| <= |buf| && 0 !in text && NEWLINE !in text && text == buf[..|text|]
  {
    var s := CString(buf);
    var text := s[..FirstOf(s, NEWLINE)];
    assert forall i :: 0 <= i < |text| ==> text[i] == s[i];
    text
  }

  /** It fits, and a newline before the first NUL can only be the last character. */
  predicate Accepted(buf: seq<Byte>, n: nat) {
    |buf| <= n && (|Text(buf)| == |CString(buf)| || |Text(buf)| + 1 == |buf|)
  }

  /** For text without NUL: accepted exactly when the whole buffer, newline included, fits
      and a newline appears only last; and then nothing but that newline is dropped. */
  lemma AcceptedExactly(buf: seq<Byte>, n: nat)
    requires 0 !in buf
    ensures Accepted(buf, n) <==> |buf| <= n && forall i :: 0 <= i < |buf| - 1 ==> buf[i] != 10
    ensures Accepted(buf, n) ==> buf == Text(buf) || buf == Text(buf) + [10]
  {
    hide FirstOf;
    assert buf[..|buf|] == buf;
    FirstOfIs(buf, 0, |buf|);
    var k := |Text(buf)|;
    assert CString(buf) == buf && k == FirstOf(buf, NEWLINE);
    assert k < |buf| ==> buf[k] == NEWLINE;
    if forall i :: 0 <= i < |buf| - 1 ==> buf[i] != NEWLINE {
      assert k >= |buf| - 1;
    }
    assert forall i :: 0 <= i < k ==> buf[i] == Text(buf)[i];
  }

  /** A NUL is accepted and cuts the text: an accepted buffer is kept whole, up to a last
      newline, exactly when it has no NUL. */
  lemma KeptWholeExactly(buf: seq<Byte>, n: nat)
    requires Accepted(buf, n)
    ensures buf == Text(buf) || buf == Text(buf) + [NEWLINE] <==> 0 !in buf
  {
    if 0 !in buf {
      AcceptedExactly(buf, n);
    } else {
      var i :| 0 <= i < |buf| && buf[i] == 0;
      if buf == Text(buf) + [NEWLINE] && i == |buf| - 1 {
        assert false;
      }
    }
  }

  lemma TextOfCopy(buf: seq<Byte>, n: nat, m: nat, copied: nat)
    requires m == (if |buf| > n then n else |buf|) && copied == FirstOf(buf[..m], 0)
    ensures 0 !in buf[..copied]
    ensures |buf| <= n ==> CString(buf) == buf[..copied] && |Text(buf)| == FirstOf(buf[..copied], NEWLINE)
    ensures |buf| <= n ==> Text(buf) == buf[..copied][..FirstOf(buf[..copied], NEWLINE)]
  {
    hide FirstOf;
    assert forall i :: 0 <= i < copied ==> buf[..m][i] == buf[i];
    if |buf| <= n {
      assert buf[..m] == buf;
    }
  }

  lemma PaddedZero(text: seq<Byte>, n: nat)
    requires |text| < n
    ensures 0 in Padded(text, n)
  {
    assert Padded(text, n)[|text|] == 0;
  }

  lemma PaddedPrefix(text: seq<Byte>, n: nat)
    requires |text| <= n
    ensures Padded(text, n + 8)[..n] == Padded(text, n)
  {
  }

  /** Zeroing from p on leaves the text up to p, padded. */
  lemma ClearedIs(text: seq<Byte>, p: nat, m: nat, n: nat)
    requires p <= |text| <= m <= n
    ensures Padded(text, n)[..p] + Zeros(m - p) + Padded(text, n)[m..] == Padded(text[..p], n)
    ensures p == |text| ==> text[..p] == text
  {
  }

  // ----------------------------------------------------------- the register block

  function Splice(ws: seq<Word>, at: nat, patch: seq<Word>): (r: seq<Word>)
    requires at + |patch| <= |ws|
    ensures |r| == |ws|
  {
    ws[..at] + patch + ws[at + |patch|..]
  }

  lemma SpliceNext(ws: seq<Word>, at: nat, patch: seq<Word>, k: nat)
    requires at + |patch| <= |ws| && k < |patch|
    ensures Splice(ws, at, patch[..k])[at + k := patch[k]] == Splice(ws, at, patch[..k + 1])
    ensures Splice(ws, at, patch[..0]) == ws
  {
  }

  function FieldWords(ws: seq<Word>, f: Field): (r: seq<Word>)
    requires f.Words() && f.off + f.size <= 4 * |ws|
    ensures |r| == f.size / 4
  {
    ws[f.off / 4..f.off / 4 + f.size / 4]
  }

  /** What show prints: the bytes up to the first NUL, and a newline. */
  function Shown(ws: seq<Word>, f: Field): seq<Byte>
    requires f.Words() && f.off + f.size <= 4 * |ws|
  {
    CString(BytesOf(FieldWords(ws, f))) + [NEWLINE]
  }

  /** The registers after the first k words of a store. */
  function Stored(ws: seq<Word>, f: Field, buf: seq<Byte>, k: nat): (r: seq<Word>)
    requires f.Words() && f.off + f.size <= 4 * |ws| && |Text(buf)| <= f.size && k <= f.size / 4
    ensures |r| == |ws|
  {
    Splice(ws, f.off / 4, WordsOf(Padded(Text(buf), f.size))[..k])
  }

  /** Store, then show: the text without its newline, and one newline. */
  lemma StoreThenShow(ws: seq<Word>, f: Field, buf: seq<Byte>)
    requires f.Words() && f.off + f.size <= 4 * |ws| && Accepted(buf, f.size)
    ensures Shown(Stored(ws, f, buf, f.size / 4), f) == Text(buf) + [10]
  {
    hide FirstOf, BytesOf, WordsOf, Text, CString;
    var bs := Padded(Text(buf), f.size);
    assert FieldWords(Stored(ws, f, buf, f.size / 4), f) == WordsOf(bs);
    BytesOfWordsOf(bs);
    CStringPadded(Text(buf), f.size);
  }

  lemma SpliceElsewhere(ws: seq<Word>, at: nat, patch: seq<Word>, from: nat, n: nat)
    requires at + |patch| <= |ws| && from + n <= |ws| && (from + n <= at || at + |patch| <= from)
    ensures Splice(ws, at, patch)[from..from + n] == ws[from..from + n]
  {
    var r := Splice(ws, at, patch);
    assert forall i :: from <= i < from + n ==> r[i] == ws[i];
  }

  /** A store, complete or cut short, changes no field apart from its own. */
  lemma OthersUntouched(ws: seq<Word>, f: Field, g: Field, buf: seq<Byte>, k: nat)
    requires f.Words() && g.Words() && f.Apart(g)
    requires f.off + f.size <= 4 * |ws| && g.off + g.size <= 4 * |ws|
    requires |Text(buf)| <= f.size && k <= f.size / 4
    ensures FieldWords(Stored(ws, f, buf, k), g) == FieldWords(ws, g)
  {
    hide Text, WordsOf, Splice;
    SpliceElsewhere(ws, f.off / 4, WordsOf(Padded(Text(buf), f.size))[..k], g.off / 4, g.size / 4);
  }

  lemma OverlayIsSound()
    ensures forall i :: 0 <= i < |OVERLAY| ==> OVERLAY[i].Words() && OVERLAY[i].off + OVERLAY[i].size <= 0x500
    ensures forall i, j :: 0 <= i < j < |OVERLAY| ==> OVERLAY[i].Apart(OVERLAY[j])
  {
  }

  /** So a string stored in one overlay field leaves every other overlay field alone. */
  lemma OverlayFieldsIndependent(ws: seq<Word>, i: nat, j: nat, buf: seq<Byte>, k: nat)
    requires |ws| == 0x500 / 4 && i < |OVERLAY| && j < |OVERLAY| && i != j
    requires |Text(buf)| <= OVERLAY[i].size && k <= OVERLAY[i].size / 4 && OVERLAY[i].Words()
    requires OVERLAY[i].off + OVERLAY[i].size <= 0x500
    ensures OVERLAY[j].Words() && OVERLAY[j].off + OVERLAY[j].size <= 0x500
    ensures FieldWords(Stored(ws, OVERLAY[i], buf, k), OVERLAY[j]) == FieldWords(ws, OVERLAY[j])
  {
    OverlayIsSound();
    var f, g := OVERLAY[i], OVERLAY[j];
    assert f.Apart(g);
    OthersUntouched(ws, f, g, buf, k);
  }

  /** The register block; the code addresses it through a regmap whose accesses may fail. */
  class RegisterBlock {
    const words: array<Word>

    constructor (n: nat)
      ensures fresh(words) && words.Length == n
    {
      words := new Word[n](_ => 0);
    }

    /** One regmap_write. */
    method Write(at: nat, v: Word, fails: bool) returns (ok: bool)
      requires at < words.Length
      modifies words
      ensures ok == !fails && words[..] == if ok then old(words[..])[at := v] else old(words[..])
    {
      if !fails {
        words[at] := v;
      }
      ok := !fails;
    }

    /** strncpy into a zeroed buffer. */
    static method CopyText(buf: seq<Byte>, bufp: array<Byte>, n: nat) returns (ghost copied: nat)
      requires n <= |buf| && n <= bufp.Length && bufp[..] == Zeros(bufp.Length)
      modifies bufp
      ensures copied == FirstOf(buf[..n], 0) && bufp[..] == Padded(buf[..copied], bufp.Length)
    {
      hide FirstOf;
      var i := 0;
      while i < n && buf[i] != 0
        invariant 0 <= i <= n && forall k :: 0 <= k < i ==> buf[k] != 0
        invariant bufp[..] == Padded(buf[..i], bufp.Length)
      {
        bufp[i] := buf[i];
        i := i + 1;
      }
      copied := i;
      FirstOfIs(buf[..n], 0, i);
    }

    /** memset to zero. */
    static method Clear(bufp: array<Byte>, from: nat, to: nat)
      requires from <= to <= bufp.Length
      modifies bufp
      ensures bufp[..] == old(bufp[..])[..from] + Zeros(to - from) + old(bufp[..])[to..]
    {
      var j := from;
      while j < to
        invariant from <= j <= to
        invariant bufp[..] == old(bufp[..])[..from] + Zeros(j - from) + old(bufp[..])[j..]
      {
        bufp[j] := 0;
        j := j + 1;
      }
    }

    /** The copy and the newline: what is left of the text in the zeroed buffer, and how
        much of the caller's text that accounts for. */
    static method Prepare(buf: seq<Byte>, bufp: array<Byte>, n: nat) returns (consumed: nat)
      requires bufp.Length == n + 8 && bufp[..] == Zeros(n + 8)
      modifies bufp
      ensures consumed == |buf| <==> Accepted(buf, n)
      ensures consumed == |buf| ==> bufp[..] == Padded(Text(buf), n + 8)
    {
      hide FirstOf, Text, CString, Padded;
      var newLen := if |buf| > n then n else |buf|;
      ghost var copied := CopyText(buf, bufp, newLen);
      ghost var s := buf[..copied];
      TextOfCopy(buf, n, newLen, copied);
      CStringPadded(s, n + 8);
      PaddedZero(s, n + 8);
      var nl := StrChr(bufp, NEWLINE);
      ClearedIs(s, FirstOf(s, NEWLINE), newLen, n + 8);
      consumed := 0;
      if nl.Some? {
        Clear(bufp, nl.value, newLen);
        newLen := nl.value;
        consumed := 1;
      }
      consumed := consumed + newLen;
    }

    /** strchr: the first c before the first NUL. */
    static method StrChr(bufp: array<Byte>, c: Byte) returns (at: Option<nat>)
      requires c != 0 && 0 in bufp[..]
      ensures
        var s := CString(bufp[..]);
        at == if FirstOf(s, c) < |s| then Some(FirstOf(s, c)) else None
    {
      hide FirstOf;
      var i := 0;
      while bufp[i] != 0 && bufp[i] != c
        invariant 0 <= i < bufp.Length && 0 in bufp[i..]
        invariant forall k :: 0 <= k < i ==> bufp[k] != 0 && bufp[k] != c
        decreases bufp.Length - i
      {
        i := i + 1;
      }
      at := if bufp[i] == c then Some(i) else None;
      var s := CString(bufp[..]);
      FirstOfIs(s, c, i);
    }

    /** _scratch_store_str; None is -EINVAL.  The failAt-th write fails, if any does, and the
        loop stops there, but the length is returned as for a complete store. */
    method StoreStr(f: Field, buf: seq<Byte>, failAt: Option<nat>) returns (err: Option<nat>)
      requires f.Words() && f.off + f.size <= 4 * words.Length
      modifies words
      ensures err == if Accepted(buf, f.size) then Some(|buf|) else None
      ensures err.None? ==> words[..] == old(words[..])
      ensures err.Some? ==>
                var n := if failAt.Some? && failAt.value < f.size / 4 then failAt.value else f.size / 4;
                words[..] == Stored(old(words[..]), f, buf, n)
    {
      hide Text, WordsOf, FirstOf, Pack, Splice, Padded;
      var bufp := new Byte[f.size + 8](_ => 0);
      assert bufp[..] == Zeros(f.size + 8);
      var consumed := Prepare(buf, bufp, f.size);
      if consumed != |buf| {
        return None;
      }
      ghost var text := WordsOf(Padded(Text(buf), f.size));
      PaddedPrefix(Text(buf), f.size);
      SpliceNext(words[..], f.off / 4, text, 0);
      var len, ok := 0, true;
      while len < f.size && ok
        invariant 0 <= len <= f.size && len % 4 == 0
        invariant bufp[..f.size] == Padded(Text(buf), f.size)
        invariant ok && failAt.Some? ==> len / 4 <= failAt.value
        invariant !ok ==> failAt == Some(len / 4 - 1)
        invariant words[..] == Splice(old(words[..]), f.off / 4, text[..if ok then len / 4 else len / 4 - 1])
        decreases f.size - len, ok
      {
        WordAt(Padded(Text(buf), f.size), len / 4);
        SpliceNext(old(words[..]), f.off / 4, text, len / 4);
        assert bufp[len..len + 4] == Padded(Text(buf), f.size)[len..len + 4];
        ok := Write(f.off / 4 + len / 4, Pack(bufp[len..len + 4]), failAt == Some(len / 4));
        len := len + 4;
      }
      err := Some(|buf|);
    }

    /** _scratch_show_str; None is the error of a failed read. */
    method ShowStr(f: Field, failAt: Option<nat>) returns (out: Option<seq<Byte>>)
      requires f.Words() && f.off + f.size <= 4 * words.Length
      ensures out == if failAt.Some? && failAt.value < f.size / 4 then None else Some(Shown(words[..], f))
    {
      hide FirstOf, Unpack;
      var bytes: seq<Byte>, k := [], 0;
      while k < f.size / 4
        invariant 0 <= k <= f.size / 4 && (failAt.Some? ==> k <= failAt.value)
        invariant bytes == BytesOf(FieldWords(words[..], f)[..k])
      {
        if failAt == Some(k) {
          return None;
        }
        var v := words[f.off / 4 + k];
        BytesOfSnoc(FieldWords(words[..], f)[..k], v);
        assert FieldWords(words[..], f)[..k + 1] == FieldWords(words[..], f)[..k] + [v];
        bytes := bytes + Unpack(v);
        k := k + 1;
      }
      assert FieldWords(words[..], f)[..k] == FieldWords(words[..], f);
      out := Some(CString(bytes) + [NEWLINE]);
    }
  }
}
