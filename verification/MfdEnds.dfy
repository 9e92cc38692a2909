/**
 How the two scans over the block table end, said from the headers alone: which header makes
 the walk fail, hit a second interrupt block or stop, and what the pre-scan finds.
 */
module MfdEnds {
  import opened Options
  import opened Mfd

  /** A tail block: good magic and its id. */
  predicate IsTail(f: Fpga, b: nat)
    requires |f.sizes| == 256 && b < 255
  {
    var h := f.read(Addr(f, b));
    h.Some? && h.value.magic == 0xc15c_0595 && h.value.id == 255
  }

  /** An interrupt block: good magic and its id, or bad magic at the one trusted address. */
  predicate IsIntr(f: Fpga, b: nat)
    requires |f.sizes| == 256 && b < 255
  {
    var h := f.read(Addr(f, b));
    h.Some? && if h.value.magic == 0xc15c_0595 then h.value.id == 38 else Addr(f, b) == 0x2_0000
  }

  /** Some block from the second on and before b is an interrupt block. */
  ghost predicate IntrBefore(f: Fpga, b: nat)
    requires |f.sizes| == 256 && b <= 255
  {
    exists i :: 1 <= i < b && IsIntr(f, i)
  }

  /** The walk cannot go past block b: its header cannot be read, or is a tail, or is an
      interrupt block after another one. */
  ghost predicate Stops(f: Fpga, b: nat)
    requires |f.sizes| == 256 && b < 255
  {
    f.read(Addr(f, b)).None? || IsTail(f, b) || (IsIntr(f, b) && IntrBefore(f, b))
  }

  /** Nothing before block b stops the walk. */
  ghost predicate GetsTo(f: Fpga, b: nat)
    requires |f.sizes| == 256 && b <= 255
  {
    forall i :: 1 <= i < b ==> !Stops(f, i)
  }

  lemma VerdictKinds(f: Fpga, b: nat)
    requires f.Valid() && 1 <= b < 255
    ensures VerdictOf(f, b).ReadError? <==> f.read(Addr(f, b)).None?
    ensures VerdictOf(f, b).Tail? <==> IsTail(f, b)
    ensures VerdictOf(f, b).Interrupt? <==> IsIntr(f, b)
  {
    hide Addr, Refused;
  }

  /** How the walk over the first n blocks has ended: at block b, or not yet. */
  ghost predicate EndsAt(f: Fpga, w: Walk, n: nat, b: nat)
    requires |f.sizes| == 256 && n <= 255
  {
    if b == n then w.Going? && (w.v.intr.Some? <==> IntrBefore(f, n))
    else
      && 1 <= b < n && Stops(f, b)
      && (w.Failed? <==> f.read(Addr(f, b)).None?) && (w.Ended? <==> IsTail(f, b))
      && (w.Bug? <==> IsIntr(f, b) && IntrBefore(f, b))
  }

  lemma {:induction false} WalkEndsAt(f: Fpga, maxIrqs: nat, n: nat) returns (b: nat)
    requires f.Valid() && 1 <= n <= 255
    ensures b <= n && GetsTo(f, b) && EndsAt(f, WalkTo(f, maxIrqs, n), n, b)
  {
    hide VerdictOf, IsTail, IsIntr, Addr;
    if n == 1 {
      FirstIsNoInterrupt(f);
      assert WalkTo(f, maxIrqs, 1) == AfterBlock(f, maxIrqs, WalkTo(f, maxIrqs, 0).v, 0);
      b := 1;
    } else {
      b := WalkEndsAt(f, maxIrqs, n - 1);
      VerdictKinds(f, n - 1);
      Exclusive(f, b);
      Exclusive(f, n - 1);
      if b == n - 1 && !Stops(f, b) {
        b := n;
      }
    }
  }

  lemma Exclusive(f: Fpga, b: nat)
    requires |f.sizes| == 256 && b < 255
    ensures f.read(Addr(f, b)).None? ==> !IsTail(f, b) && !IsIntr(f, b)
    ensures !(IsTail(f, b) && IsIntr(f, b))
  {
    hide Addr;
  }

  /** Every outcome of the walk, exactly: it fails at an unreadable header, crashes at a second
      interrupt block, and ends at a tail block, if nothing before that block stops it; and it
      goes through all blocks when nothing does. */
  lemma WalkEndsExactly(f: Fpga, maxIrqs: nat)
    requires f.Valid() && Blocks(f) <= 255
    ensures var w, n := WalkTo(f, maxIrqs, Blocks(f)), Blocks(f);
            && (w.Failed? <==> exists b :: 1 <= b < n && GetsTo(f, b) && f.read(Addr(f, b)).None?)
            && (w.Ended? <==> exists b :: 1 <= b < n && GetsTo(f, b) && IsTail(f, b))
            && (w.Bug? <==> exists b :: 1 <= b < n && GetsTo(f, b) && IsIntr(f, b) && IntrBefore(f, b))
            && (w.Going? <==> GetsTo(f, n))
  {
    hide IsTail, IsIntr, IntrBefore, Addr, WalkTo;
    var n := Blocks(f);
    var b := WalkEndsAt(f, maxIrqs, n);
    forall c | 1 <= c < n && GetsTo(f, c) && Stops(f, c)
      ensures c == b
    {
    }
    if b < n {
      Exclusive(f, b);
    }
  }

  /** The header of block b tells the number of interrupt lines, if nothing before it ends the
      pre-scan, which believes every header. */
  ghost predicate Tells(f: Fpga, b: nat, lines: nat)
    requires f.Valid() && b < f.numBlocks
  {
    var h := f.read(Addr(f, b));
    h.Some? && h.value.id == 38 && lines == if h.value.maj < 8 then 10 else 12
  }

  /** The pre-scan gets to block b. */
  ghost predicate Scanned(f: Fpga, i: nat, b: nat)
    requires f.Valid() && b <= f.numBlocks
  {
    forall k :: i <= k < b ==> f.read(Addr(f, k)).Some? && f.read(Addr(f, k)).value.id !in {38, 255}
  }

  /** What the pre-scan finds from block i on, exactly: nothing if a header it gets to cannot be
      read, the lines that the first interrupt header tells, or none. */
  lemma {:induction false} MaxIrqsExactly(f: Fpga, i: nat)
    requires f.Valid() && i <= f.numBlocks
    ensures MaxIrqs(f, i).None? <==> exists b :: i <= b < f.numBlocks && Scanned(f, i, b) && f.read(Addr(f, b)).None?
    ensures forall x: nat :: x > 0 ==>
              (MaxIrqs(f, i) == Some(x) <==> exists b :: i <= b < f.numBlocks && Scanned(f, i, b) && Tells(f, b, x))
    decreases f.numBlocks - i
  {
    hide Addr;
    if i < f.numBlocks {
      assert Scanned(f, i, i);
      var h := f.read(Addr(f, i));
      if h.Some? && h.value.id !in {38, 255} {
        MaxIrqsExactly(f, i + 1);
        forall b | i + 1 <= b <= f.numBlocks
          ensures Scanned(f, i, b) <==> Scanned(f, i + 1, b)
        {
        }
      } else {
        forall b | i < b <= f.numBlocks
          ensures !Scanned(f, i, b)
        {
        }
      }
    }
  }
}
