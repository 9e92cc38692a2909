/**
 What cisco_fpga_mfd_cells builds from the block table of an FPGA, as values:
 four parallel lists (cells, matches, resources, names) that only grow.
 */
module Mfd {
  import opened Options
  import opened MfdBlocks

  const MAGIC: nat := 0xc15c_0595
  const AUTO: int := -2
  const NAME_SIZE: nat := 20
  const TWO_32: int := 0x1_0000_0000
  const TWO_64: int := 0x1_0000_0000_0000_0000

  /** The parts of a block header that matter here. */
  datatype BlkHdr = BlkHdr(id: nat, maj: nat, magic: nat)

  /** What the firmware says about one child device. */
  datatype Child = Child(adr: nat, id: int, name: Option<string>, suffix: Option<string>,
                         ignoreCell: bool, blockId: Option<nat>)

  /** An FPGA: number of blocks, their sizes in units of 256 bytes, the header read at an
      address (None: the read fails), the firmware's children, and the table row for each
      block id under the caller's filter. */
  datatype Fpga = Fpga(numBlocks: nat, sizes: seq<nat>, read: nat -> Option<BlkHdr>,
                       children: seq<Child>, rows: nat -> Blk)
  {
    /** The size table as the hardware gives it: 256 entries of 16 bits. */
    predicate Shaped() {
      |sizes| == 256 && forall i :: 0 <= i < 256 ==> sizes[i] < 0x1_0000
    }

    ghost predicate Valid() {
      Shaped() && numBlocks <= 254 && SoundRows(rows)
    }
  }

  datatype Resource = Unset | Mem(start: nat, end: nat) | Irq(line: nat)

  /** An MFD cell; its resources are res[first..first + num]. */
  datatype Cell = Cell(name: string, id: int, adr: nat, first: nat, num: nat)

  /** The used parts of the four arenas, and the interrupt block's resource. */
  datatype Image = Image(cells: seq<Cell>, matches: seq<nat>, res: seq<Resource>, names: seq<string>,
                         intr: Option<nat>)
  {
    function Taken(): nat {
      if intr.Some? then 1 else 0
    }
  }

  // ------------------------------------------------------------ one block

  function FirstChild(children: seq<Child>, adr: nat): Option<Child> {
    if children == [] then None
    else if children[0].adr == adr then Some(children[0])
    else FirstChild(children[1..], adr)
  }

  /** The firmware refuses the block: it ignores the address or expects another block. */
  predicate Refused(children: seq<Child>, adr: nat, blkId: nat) {
    var c := FirstChild(children, adr);
    c.Some? && (c.value.ignoreCell || (c.value.blockId.Some? && c.value.blockId.value != blkId))
  }

  function Truncated(name: string): string {
    if |name| < NAME_SIZE then name else name[..NAME_SIZE - 1]
  }

  predicate Contains(s: string, sub: string) {
    sub <= s || (s != "" && Contains(s[1..], sub))
  }

  /** The name that needs a slot in the name arena. */
  function SuffixedName(children: seq<Child>, adr: nat, blkName: string): Option<string> {
    var c := FirstChild(children, adr);
    if c.Some? && c.value.name.None? && c.value.suffix.Some? then Some(Truncated(blkName + c.value.suffix.value))
    else None
  }

  function CellName(children: seq<Child>, adr: nat, blkName: string): string {
    var c := FirstChild(children, adr);
    if c.Some? && c.value.name.Some? then c.value.name.value
    else
      var s := SuffixedName(children, adr, blkName);
      if s.Some? then s.value else blkName
  }

  predicate AlwaysAuto(blk: Blk) {
    blk.id == 0 || (blk.name.Some? && Contains(blk.name.value, "-uio"))
  }

  function CellId(children: seq<Child>, adr: nat, blk: Blk): int {
    var c := FirstChild(children, adr);
    if AlwaysAuto(blk) || c.None? then AUTO else c.value.id
  }

  lemma {:induction false} LeastExists(s: set<nat>) returns (m: nat)
    requires s != {}
    ensures m in s && forall x :: x in s ==> m <= x
  {
    var a :| a in s;
    m := a;
    assert forall x :: x in s ==> x == a || x in s - {a};
    if s - {a} != {} {
      var least := LeastExists(s - {a});
      if least < a { m := least; }
    }
  }

  /** The position of the lowest set bit. */
  ghost function Least(s: set<nat>): (m: nat)
    requires s != {}
    ensures m in s && forall x :: x in s ==> m <= x
  {
    assert exists m :: m in s && forall x :: x in s ==> m <= x by { var least := LeastExists(s); }
    var m :| m in s && forall x :: x in s ==> m <= x;
    m
  }

  /** The interrupt lines handed to a cell. */
  ghost function Lines(s: set<nat>, num: nat, max: nat): (lines: seq<nat>)
    ensures |lines| <= num
    ensures forall i :: 0 <= i < |lines| ==> lines[i] in s && lines[i] < max
    ensures forall i, j :: 0 <= i < j < |lines| ==> lines[i] < lines[j]
  {
    if num == 0 || s == {} || Least(s) >= max then []
    else
      var rest := Lines(s - {Least(s)}, num - 1, max);
      assert forall i :: 0 <= i < |rest| ==> rest[i] in s && Least(s) != rest[i];
      [Least(s)] + rest
  }

  /** Every line of a table row is handed out as soon as there are any lines at all. */
  lemma AllLines(blk: Blk, max: nat)
    requires Sound(blk) && max >= 10
    ensures |Lines(blk.irqSet, blk.numIrqs, max)| == blk.numIrqs
  {
    if blk.numIrqs == 1 {
      assert blk.irqSet != {};
    }
  }

  ghost function Irqs(lines: seq<nat>): (r: seq<Resource>)
    ensures |r| == |lines| && forall i :: 0 <= i < |r| ==> r[i] == Irq(lines[i])
  {
    seq(|lines|, i requires 0 <= i < |lines| => Irq(lines[i]))
  }

  function MemOf(adr: nat, next: nat): Resource {
    Mem(adr, (next + TWO_64 - 1) % TWO_64)
  }

  /** The cell made of a block whose resources start at `first`. */
  ghost function CellOf(children: seq<Child>, blk: Blk, adr: nat, maxIrqs: nat, first: nat): Cell
    requires blk.name.Some?
  {
    Cell(CellName(children, adr, blk.name.value), CellId(children, adr, blk), adr, first,
         1 + |Lines(blk.irqSet, blk.numIrqs, maxIrqs)|)
  }

  /** Its resources: the address range, then one per interrupt line. */
  ghost function ResOf(blk: Blk, adr: nat, next: nat, maxIrqs: nat): seq<Resource> {
    [MemOf(adr, next)] + Irqs(Lines(blk.irqSet, blk.numIrqs, maxIrqs))
  }

  /** A block becomes a cell. */
  ghost function AddCell(v: Image, children: seq<Child>, blk: Blk, adr: nat, next: nat, maxIrqs: nat): Image
    requires blk.name.Some?
  {
    var slot := SuffixedName(children, adr, blk.name.value);
    Image(v.cells + [CellOf(children, blk, adr, maxIrqs, |v.res|)],
          v.matches + [adr],
          v.res + ResOf(blk, adr, next, maxIrqs),
          if slot.Some? then v.names + [slot.value] else v.names,
          v.intr)
  }

  /** The interrupt block takes a resource and no cell. */
  function AddIntr(v: Image, adr: nat, next: nat): Image {
    v.(res := v.res + [MemOf(adr, next)], intr := Some(|v.res|))
  }

  // ------------------------------------------------------- the whole walk

  /** The address of block i: the sizes of the blocks before it. */
  function Addr(f: Fpga, i: nat): (adr: nat)
    requires |f.sizes| == 256 && i <= 256
  {
    if i == 0 then 0 else Addr(f, i - 1) + f.sizes[i - 1] * 256
  }

  datatype Verdict = ReadError | Ignored | Tail | Interrupt | CellFor(blk: Blk)

  /** What the header at block i calls for. */
  ghost function VerdictOf(f: Fpga, i: nat): (v: Verdict)
    requires f.Valid() && i < 255
    ensures v.CellFor? ==> v.blk.name.Some? && Sound(v.blk)
  {
    var adr := Addr(f, i);
    if i == 0 then
      if Refused(f.children, 0, INFO_ID) then Ignored else CellFor(f.rows(INFO_ID))
    else
      match f.read(adr)
      case None => ReadError
      case Some(hdr) =>
        if hdr.magic != MAGIC then (if adr == 0x2_0000 then Interrupt else Ignored)
        else if hdr.id == TAIL_ID then Tail
        else if hdr.id == INTR_ID then Interrupt
        else
          var blk := f.rows(hdr.id);
          if blk.name.None? || Refused(f.children, adr, hdr.id) then Ignored else CellFor(blk)
  }

  datatype Walk = Going(v: Image) | Ended(v: Image) | Failed | Bug

  /** The state after blocks 0 to i - 1. */
  ghost function WalkTo(f: Fpga, maxIrqs: nat, i: nat): Walk
    requires f.Valid() && i <= 255
  {
    if i == 0 then Going(Image([], [], [], [], None))
    else
      match WalkTo(f, maxIrqs, i - 1)
      case Going(v) => AfterBlock(f, maxIrqs, v, i - 1)
      case stopped => stopped
  }

  ghost function AfterBlock(f: Fpga, maxIrqs: nat, v: Image, i: nat): Walk
    requires f.Valid() && i < 255
  {
    match VerdictOf(f, i)
    case ReadError => Failed
    case Ignored => Going(v)
    case Tail => Ended(v)
    case Interrupt => if v.intr.Some? then Bug else Going(AddIntr(v, Addr(f, i), Addr(f, i + 1)))
    case CellFor(blk) => Going(AddCell(v, f.children, blk, Addr(f, i), Addr(f, i + 1), maxIrqs))
  }

  /** The running u32 address never wraps for any table the size check admits. */
  lemma {:induction false} AddrBound(f: Fpga, i: nat)
    requires f.Valid() && i <= 255
    ensures Addr(f, i) <= i * 0xff_ff00 < TWO_32
  {
    if i > 0 {
      AddrBound(f, i - 1);
    }
  }

  lemma {:induction false} AddrMonotone(f: Fpga, i: nat, j: nat)
    requires f.Valid() && i <= j <= 255
    ensures Addr(f, i) <= Addr(f, j)
    decreases j - i
  {
    if i < j {
      AddrMonotone(f, i, j - 1);
    }
  }

  /** Arena safety: after i blocks, cells and interrupt block together number at most i,
      resources at most two per cell plus the interrupt block's, names at most one per cell. */
  lemma {:induction false} ArenaBounds(f: Fpga, maxIrqs: nat, i: nat)
    requires f.Valid() && i <= 255
    ensures var w := WalkTo(f, maxIrqs, i);
            w.Going? || w.Ended? ==>
              && |w.v.cells| + w.v.Taken() <= i
              && |w.v.matches| == |w.v.cells|
              && |w.v.res| <= 2 * |w.v.cells| + w.v.Taken()
              && |w.v.names| <= |w.v.cells|
  {
    if i > 0 {
      ArenaBounds(f, maxIrqs, i - 1);
    }
  }

  /** Block b is the source of cell k. */
  ghost predicate From(f: Fpga, maxIrqs: nat, v: Image, k: nat, b: nat)
    requires f.Valid()
  {
    && k < |v.cells| == |v.matches| && b < 255 && VerdictOf(f, b).CellFor?
    && var c := v.cells[k];
       var blk := VerdictOf(f, b).blk;
    && c == CellOf(f.children, blk, Addr(f, b), maxIrqs, c.first)
    && v.matches[k] == Addr(f, b)
    && c.first + c.num <= |v.res|
    && v.res[c.first..c.first + c.num] == ResOf(blk, Addr(f, b), Addr(f, b + 1), maxIrqs)
  }

  /** The blocks that became cells, in order: exactly those whose header and firmware
      entry call for a cell. */
  ghost predicate Sources(f: Fpga, maxIrqs: nat, v: Image, src: seq<nat>, i: nat)
    requires f.Valid() && i <= 255
  {
    && |src| == |v.cells| == |v.matches|
    && (forall k :: 0 <= k < |src| ==> src[k] < i && From(f, maxIrqs, v, k, src[k]))
    && (forall k, l :: 0 <= k < l < |src| ==> src[k] < src[l])
    && (forall b :: 0 <= b < i && VerdictOf(f, b).CellFor? ==> b in src)
  }

  /** Resource slices of different cells do not meet, and none contains the interrupt
      block's resource. */
  ghost predicate SlicesDisjoint(v: Image) {
    && (forall k, l :: 0 <= k < l < |v.cells| ==> v.cells[k].first + v.cells[k].num <= v.cells[l].first)
    && (forall k :: 0 <= k < |v.cells| ==> v.cells[k].first + v.cells[k].num <= |v.res|)
    && (v.intr.Some? ==> v.intr.value < |v.res|
                         && forall k :: 0 <= k < |v.cells| ==>
                              v.intr.value < v.cells[k].first || v.cells[k].first + v.cells[k].num <= v.intr.value)
  }

  ghost predicate Grows(v: Image, v': Image) {
    v.cells <= v'.cells && v.matches <= v'.matches && v.res <= v'.res && |v'.cells| == |v'.matches|
  }

  lemma FromKept(f: Fpga, maxIrqs: nat, v: Image, v': Image, k: nat, b: nat)
    requires f.Valid() && From(f, maxIrqs, v, k, b) && Grows(v, v')
    ensures From(f, maxIrqs, v', k, b)
  {
    var c := v.cells[k];
    assert v'.res[c.first..c.first + c.num] == v.res[c.first..c.first + c.num];
  }

  lemma FromAdded(f: Fpga, maxIrqs: nat, v: Image, b: nat)
    requires f.Valid() && b < 255 && VerdictOf(f, b).CellFor? && |v.cells| == |v.matches|
    ensures From(f, maxIrqs, AddCell(v, f.children, VerdictOf(f, b).blk, Addr(f, b), Addr(f, b + 1), maxIrqs),
                     |v.cells|, b)
  {
    var v' := AddCell(v, f.children, VerdictOf(f, b).blk, Addr(f, b), Addr(f, b + 1), maxIrqs);
    var c := v'.cells[|v.cells|];
    assert v'.res[c.first..c.first + c.num] == ResOf(VerdictOf(f, b).blk, Addr(f, b), Addr(f, b + 1), maxIrqs);
  }

  /** Where the walk stops: at the first tail block, or after the last block. */
  ghost predicate StopsAt(f: Fpga, w: Walk, i: nat, stop: nat)
    requires f.Valid() && i <= 255
  {
    && stop <= i && (w.Going? ==> stop == i) && (w.Ended? ==> stop < i && VerdictOf(f, stop).Tail?)
    && forall b :: 0 <= b < stop ==> !VerdictOf(f, b).Tail?
  }

  /** The walk commits exactly the blocks before its stop that ask for a cell, in order, each
      with its address range and its interrupt lines. */
  lemma {:induction false} WalkSources(f: Fpga, maxIrqs: nat, i: nat) returns (src: seq<nat>, stop: nat)
    requires f.Valid() && i <= 255 && (WalkTo(f, maxIrqs, i).Going? || WalkTo(f, maxIrqs, i).Ended?)
    ensures StopsAt(f, WalkTo(f, maxIrqs, i), i, stop)
    ensures Sources(f, maxIrqs, WalkTo(f, maxIrqs, i).v, src, stop)
  {
    hide VerdictOf, From, AddCell, AddIntr, Addr, Sources;
    if i == 0 {
      NoSources(f, maxIrqs, WalkTo(f, maxIrqs, 0).v);
      src, stop := [], 0;
    } else {
      src, stop := WalkSources(f, maxIrqs, i - 1);
      var before := WalkTo(f, maxIrqs, i - 1);
      if before.Going? {
        if WalkTo(f, maxIrqs, i).Going? {
          src := SourcesStep(f, maxIrqs, before.v, src, i - 1);
          stop := i;
        }
      }
    }
  }

  lemma NoSources(f: Fpga, maxIrqs: nat, v: Image)
    requires f.Valid() && v.cells == [] && v.matches == []
    ensures Sources(f, maxIrqs, v, [], 0)
  {
  }

  lemma SourcesStep(f: Fpga, maxIrqs: nat, v: Image, src: seq<nat>, b: nat) returns (src': seq<nat>)
    requires f.Valid() && b < 255 && Sources(f, maxIrqs, v, src, b) && AfterBlock(f, maxIrqs, v, b).Going?
    ensures Sources(f, maxIrqs, AfterBlock(f, maxIrqs, v, b).v, src', b + 1)
  {
    hide From, VerdictOf, Addr;
    var v' := AfterBlock(f, maxIrqs, v, b).v;
    assert Grows(v, v');
    forall k | 0 <= k < |src|
      ensures From(f, maxIrqs, v', k, src[k])
    {
      FromKept(f, maxIrqs, v, v', k, src[k]);
    }
    src' := src;
    if VerdictOf(f, b).CellFor? {
      FromAdded(f, maxIrqs, v, b);
      src' := src + [b];
    }
  }

  /** Over the whole walk the cells own disjoint resource slices. */
  lemma {:induction false} WalkSlices(f: Fpga, maxIrqs: nat, i: nat)
    requires f.Valid() && i <= 255
    ensures var w := WalkTo(f, maxIrqs, i); w.Going? || w.Ended? ==> SlicesDisjoint(w.v)
  {
    hide Addr, VerdictOf, Lines;
    if i > 0 {
      WalkSlices(f, maxIrqs, i - 1);
    }
  }

  /** The address range of cell k. */
  function Range(v: Image, k: nat): Resource {
    if k < |v.cells| && v.cells[k].first < |v.res| then v.res[v.cells[k].first] else Unset
  }

  /** Each cell starts at the sum of the sizes of the earlier blocks and ends before the
      next block, unless no block up to it has a size. */
  lemma RangeOf(f: Fpga, maxIrqs: nat, v: Image, k: nat, b: nat)
    requires f.Valid() && From(f, maxIrqs, v, k, b)
    ensures Range(v, k) == MemOf(Addr(f, b), Addr(f, b + 1))
    ensures Range(v, k).start == Addr(f, b)
    ensures Range(v, k).end == if Addr(f, b + 1) > 0 then Addr(f, b + 1) - 1 else TWO_64 - 1
  {
    hide VerdictOf, Addr;
    CellResources(v.res, v.cells[k], f.children, VerdictOf(f, b).blk, Addr(f, b), Addr(f, b + 1), maxIrqs);
    MemEnd(f, b);
  }

  lemma MemEnd(f: Fpga, b: nat)
    requires f.Valid() && b < 255
    ensures MemOf(Addr(f, b), Addr(f, b + 1)).end == if Addr(f, b + 1) > 0 then Addr(f, b + 1) - 1 else TWO_64 - 1
  {
    hide Addr;
    AddrBound(f, b + 1);
    if Addr(f, b + 1) > 0 {
      NoWrap(Addr(f, b + 1));
    }
  }

  lemma NoWrap(x: nat)
    requires 0 < x < TWO_64
    ensures (x + TWO_64 - 1) % TWO_64 == x - 1
  {
    assert x + TWO_64 - 1 == TWO_64 * 1 + (x - 1);
  }

  /** The resources of one committed cell. */
  lemma CellResources(res: seq<Resource>, c: Cell, children: seq<Child>, blk: Blk, adr: nat, next: nat, max: nat)
    requires blk.name.Some? && Sound(blk) && c == CellOf(children, blk, adr, max, c.first)
    requires c.first + c.num <= |res| && res[c.first..c.first + c.num] == ResOf(blk, adr, next, max)
    ensures res[c.first] == MemOf(adr, next)
    ensures res[c.first + 1..c.first + c.num] == Irqs(Lines(blk.irqSet, blk.numIrqs, max))
  {
    var slice := res[c.first..c.first + c.num];
    assert res[c.first] == slice[0];
    assert res[c.first + 1..c.first + c.num] == slice[1..];
    assert ResOf(blk, adr, next, max)[1..] == Irqs(Lines(blk.irqSet, blk.numIrqs, max));
  }

  /** Address carving: two cells' ranges ascend and are disjoint exactly when some block up
      to the first of the two has a size. */
  lemma RangesDisjoint(f: Fpga, maxIrqs: nat, v: Image, src: seq<nat>, i: nat, k: nat, l: nat)
    requires f.Valid() && i <= 255
    requires Sources(f, maxIrqs, v, src, i) && k < l < |src|
    ensures Range(v, k).Mem? && Range(v, l).Mem?
    ensures Range(v, k).end < Range(v, l).start <==> Addr(f, src[k] + 1) > 0
  {
    hide Addr, From, Range;
    var a, b := src[k], src[l];
    assert From(f, maxIrqs, v, k, a) && From(f, maxIrqs, v, l, b);
    RangeOf(f, maxIrqs, v, k, a);
    RangeOf(f, maxIrqs, v, l, b);
    AddrMonotone(f, a + 1, b);
    AddrBound(f, b);
  }

  // ------------------------------------------------- the two interrupt scans

  /** _setup_max_irqs from block i on; None: a read failed. */
  ghost function MaxIrqs(f: Fpga, i: nat): Option<nat>
    requires f.Valid() && i <= f.numBlocks
    decreases f.numBlocks - i
  {
    if i == f.numBlocks then Some(0)
    else
      match f.read(Addr(f, i))
      case None => None
      case Some(hdr) =>
        if hdr.id == TAIL_ID then Some(0)
        else if hdr.id == INTR_ID then Some(if hdr.maj < 8 then 10 else 12)
        else MaxIrqs(f, i + 1)
  }

  /** Every header carries the magic number and every read succeeds. */
  ghost predicate AllGood(f: Fpga)
    requires f.Valid()
  {
    forall i :: 0 <= i < f.numBlocks ==> f.read(Addr(f, i)).Some? && f.read(Addr(f, i)).value.magic == MAGIC
  }

  ghost predicate Starts(f: Fpga) {
    f.read(0).Some? && f.read(0).value.magic == MAGIC && f.read(0).value.id == INFO_ID
  }

  function Blocks(f: Fpga): nat {
    if f.numBlocks == 0 then 1 else f.numBlocks
  }

  lemma {:induction false} WalkStaysStopped(f: Fpga, maxIrqs: nat, i: nat, j: nat)
    requires f.Valid() && i <= j <= 255 && !WalkTo(f, maxIrqs, i).Going?
    ensures WalkTo(f, maxIrqs, j) == WalkTo(f, maxIrqs, i)
    decreases j - i
  {
    if i < j {
      WalkStaysStopped(f, maxIrqs, i, j - 1);
    }
  }

  lemma {:induction false} IntrStays(f: Fpga, maxIrqs: nat, i: nat, j: nat)
    requires f.Valid() && i <= j <= 255 && WalkTo(f, maxIrqs, i).Going? && WalkTo(f, maxIrqs, i).v.intr.Some?
    ensures var w := WalkTo(f, maxIrqs, j); w.Going? || w.Ended? ==> w.v.intr.Some?
    decreases j - i
  {
    if i < j {
      IntrStays(f, maxIrqs, i, j - 1);
    }
  }

  lemma {:induction false} ScansAgreeFrom(f: Fpga, maxIrqs: nat, i: nat)
    requires f.Valid() && Starts(f) && AllGood(f) && 1 <= i <= f.numBlocks
    requires WalkTo(f, maxIrqs, i).Going? && WalkTo(f, maxIrqs, i).v.intr.None?
    ensures MaxIrqs(f, i).Some?
    ensures var w := WalkTo(f, maxIrqs, f.numBlocks);
            w.Going? || w.Ended? ==> (w.v.intr.Some? <==> MaxIrqs(f, i).value > 0)
    ensures WalkTo(f, maxIrqs, f.numBlocks) == Bug ==> MaxIrqs(f, i).value > 0
    decreases f.numBlocks - i
  {
    if i < f.numBlocks {
      var hdr := f.read(Addr(f, i)).value;
      if hdr.id == TAIL_ID {
        WalkStaysStopped(f, maxIrqs, i + 1, f.numBlocks);
      } else if hdr.id == INTR_ID {
        IntrStays(f, maxIrqs, i + 1, f.numBlocks);
      } else {
        ScansAgreeFrom(f, maxIrqs, i + 1);
      }
    }
  }

  /** Two-scan agreement: with good headers, the pre-scan finds interrupt lines exactly when
      the main walk records an interrupt block. */
  lemma ScansAgree(f: Fpga, maxIrqs: nat)
    requires f.Valid() && Starts(f) && AllGood(f)
    ensures MaxIrqs(f, 0).Some?
    ensures var w := WalkTo(f, maxIrqs, Blocks(f));
            w.Going? || w.Ended? ==> (w.v.intr.Some? <==> MaxIrqs(f, 0).value > 0)
  {
    assert WalkTo(f, maxIrqs, 1) == AfterBlock(f, maxIrqs, WalkTo(f, maxIrqs, 0).v, 0);
    if f.numBlocks > 0 {
      assert Addr(f, 0) == 0;
      ScansAgreeFrom(f, maxIrqs, 1);
    }
  }

  /** Without the magic number the scans can disagree: the pre-scan trusts the id of a
      header whose magic is bad, the main walk skips it. */
  lemma BadMagicSplitsTheScans() returns (f: Fpga)
    ensures f.Valid() && Starts(f) && MaxIrqs(f, 0) == Some(10)
    ensures WalkTo(f, 10, Blocks(f)).Going? && WalkTo(f, 10, Blocks(f)).v.intr.None?
  {
    var sizes := seq(256, _ => 1);
    var read := (adr: nat) => Some(if adr == 0 then BlkHdr(INFO_ID, 6, MAGIC) else BlkHdr(INTR_ID, 6, 0));
    RowsAreSound(REGMAP);
    f := Fpga(2, sizes, read, [], Rows(REGMAP));
    assert Addr(f, 0) == 0 && Addr(f, 1) == 256;
    assert MaxIrqs(f, 1) == Some(10);
    assert VerdictOf(f, 0).CellFor? && VerdictOf(f, 1) == Ignored;
    assert WalkTo(f, 10, 0).v.intr.None?;
    assert WalkTo(f, 10, 1).Going? && WalkTo(f, 10, 1).v.intr.None?;
  }

  /** Block j makes the pre-scan find lines: the first header with the interrupt block's id,
      before any with the tail's id, whatever the magic numbers. */
  ghost predicate Announces(f: Fpga, j: nat)
    requires f.Valid() && AllRead(f)
  {
    && j < f.numBlocks && f.read(Addr(f, j)).value.id == INTR_ID
    && forall i :: 0 <= i < j ==> f.read(Addr(f, i)).value.id !in {INTR_ID, TAIL_ID}
  }

  /** Block j makes the main walk record an interrupt block: one with good magic and that id,
      or with bad magic at the one address that is trusted, before any good tail. */
  ghost predicate Records(f: Fpga, j: nat)
    requires f.Valid()
  {
    1 <= j < Blocks(f) <= 255 && VerdictOf(f, j).Interrupt? && forall i :: 1 <= i < j ==> !VerdictOf(f, i).Tail?
  }

  ghost predicate AllRead(f: Fpga)
    requires f.Valid()
  {
    forall i :: 0 <= i < f.numBlocks ==> f.read(Addr(f, i)).Some?
  }

  lemma {:induction false} AnnouncedExactly(f: Fpga, i: nat)
    requires f.Valid() && AllRead(f) && i <= f.numBlocks
    requires forall k :: 0 <= k < i ==> f.read(Addr(f, k)).value.id !in {INTR_ID, TAIL_ID}
    ensures MaxIrqs(f, i).Some? && (MaxIrqs(f, i).value > 0 <==> exists j: nat :: Announces(f, j))
    decreases f.numBlocks - i
  {
    hide Addr;
    if i < f.numBlocks {
      var hdr := f.read(Addr(f, i)).value;
      if hdr.id == INTR_ID {
        assert Announces(f, i);
      } else if hdr.id != TAIL_ID {
        AnnouncedExactly(f, i + 1);
      }
    }
  }

  /** Among the first i blocks. */
  ghost predicate RecordsBefore(f: Fpga, i: nat)
    requires f.Valid()
  {
    exists j: nat :: j < i && Records(f, j)
  }

  ghost predicate TailBefore(f: Fpga, i: nat)
    requires f.Valid() && i <= 255
  {
    exists j :: 1 <= j < i && VerdictOf(f, j).Tail?
  }

  lemma {:induction false} RecordedExactly(f: Fpga, maxIrqs: nat, i: nat)
    requires f.Valid() && 1 <= i <= Blocks(f)
    ensures var w := WalkTo(f, maxIrqs, i);
            && (w.Going? ==> !TailBefore(f, i)) && (w.Ended? ==> TailBefore(f, i))
            && (w.Going? || w.Ended? ==> (w.v.intr.Some? <==> RecordsBefore(f, i)))
  {
    hide VerdictOf;
    if i == 1 {
      FirstIsNoInterrupt(f);
      assert WalkTo(f, maxIrqs, 1) == AfterBlock(f, maxIrqs, WalkTo(f, maxIrqs, 0).v, 0);
    } else {
      RecordedExactly(f, maxIrqs, i - 1);
      assert VerdictOf(f, i - 1).Interrupt? && !TailBefore(f, i - 1) ==> Records(f, i - 1);
      assert RecordsBefore(f, i) <==> RecordsBefore(f, i - 1) || Records(f, i - 1);
    }
  }

  lemma FirstIsNoInterrupt(f: Fpga)
    requires f.Valid()
    ensures !VerdictOf(f, 0).Interrupt? && !VerdictOf(f, 0).Tail? && !VerdictOf(f, 0).ReadError?
  {
  }

  /** What each scan finds, whatever the magic numbers. */
  lemma ScansFind(f: Fpga, maxIrqs: nat)
    requires f.Valid() && AllRead(f)
    ensures MaxIrqs(f, 0).Some? && (MaxIrqs(f, 0).value > 0 <==> exists j: nat :: Announces(f, j))
    ensures var w := WalkTo(f, maxIrqs, Blocks(f));
            w.Going? || w.Ended? ==> (w.v.intr.Some? <==> exists j: nat :: Records(f, j))
  {
    AnnouncedExactly(f, 0);
    RecordedExactly(f, maxIrqs, Blocks(f));
    hide Records;
    assert RecordsBefore(f, Blocks(f)) <==> exists j: nat :: Records(f, j) by {
      forall j: nat | Records(f, j)
        ensures j < Blocks(f)
      {
        RecordInside(f, j);
      }
    }
  }

  /** The header of block b, its magic number good or bad. */
  ghost function Header(f: Fpga, b: nat): BlkHdr
    requires f.Valid() && AllRead(f) && b < f.numBlocks
  {
    f.read(Addr(f, b)).value
  }

  ghost predicate Good(f: Fpga, b: nat)
    requires f.Valid() && AllRead(f) && b < f.numBlocks
  {
    Header(f, b).magic == MAGIC
  }

  /** The first block from i on whose header has the id of an interrupt or a tail block. */
  ghost function Mark(f: Fpga, i: nat): (p: nat)
    requires f.Valid() && AllRead(f) && i <= 255
    ensures i < f.numBlocks ==> i <= p <= f.numBlocks
    ensures forall b :: i <= b < p ==> b < f.numBlocks && Header(f, b).id !in {INTR_ID, TAIL_ID}
    ensures p < f.numBlocks ==> Header(f, p).id in {INTR_ID, TAIL_ID}
    ensures i >= f.numBlocks ==> p == f.numBlocks
    decreases 255 - i
  {
    if i >= f.numBlocks then f.numBlocks
    else if Header(f, i).id in {INTR_ID, TAIL_ID} then i
    else Mark(f, i + 1)
  }

  /** What to look at in the table: the first interrupt or tail header.
      An interrupt header must have good magic or stand at the trusted address, or else some
      other block must be recorded.  A good tail header, or none at all, must have no bad
      header before it at the trusted address.  After a bad tail header, which only the
      pre-scan believes, nothing may be recorded. */
  ghost predicate Agreeable(f: Fpga)
    requires f.Valid() && AllRead(f)
  {
    var p := Mark(f, 1);
    if p < f.numBlocks && Header(f, p).id == INTR_ID then
      Good(f, p) || Addr(f, p) == 0x2_0000 || exists q: nat :: q != p && Records(f, q)
    else if p < f.numBlocks && !Good(f, p) then
      !exists q: nat :: Records(f, q)
    else
      forall q :: 1 <= q < p ==> Good(f, q) || Addr(f, q) != 0x2_0000
  }

  lemma NoTailBeforeMark(f: Fpga, q: nat)
    requires f.Valid() && AllRead(f) && 1 <= q <= Mark(f, 1) && q < f.numBlocks
    ensures forall i :: 1 <= i < q ==> !VerdictOf(f, i).Tail?
    ensures Records(f, q) <==> VerdictOf(f, q).Interrupt?
    ensures VerdictOf(f, q).Interrupt? <==> if Good(f, q) then Header(f, q).id == INTR_ID else Addr(f, q) == 0x2_0000
  {
    hide Addr, Refused, Mark;
    forall i | 1 <= i < q
      ensures !VerdictOf(f, i).Tail?
    {
      assert Header(f, i).id != TAIL_ID;
    }
  }

  lemma NothingPastGoodTail(f: Fpga, q: nat)
    requires f.Valid() && AllRead(f) && Records(f, q)
    ensures var p := Mark(f, 1);
            p < f.numBlocks && Header(f, p).id == TAIL_ID && Good(f, p) ==> q < p
    ensures q < f.numBlocks
  {
    hide Addr, Refused, Mark;
    var p := Mark(f, 1);
    if p < f.numBlocks && Header(f, p).id == TAIL_ID && Good(f, p) {
      assert VerdictOf(f, p).Tail?;
    }
  }

  lemma MarkAnnounces(f: Fpga, j: nat)
    requires f.Valid() && AllRead(f) && Starts(f)
    ensures Announces(f, j) <==> j == Mark(f, 1) && j < f.numBlocks && Header(f, j).id == INTR_ID
  {
    hide Mark;
    assert Addr(f, 0) == 0;
    hide Addr;
    var p := Mark(f, 1);
    if j == p && j < f.numBlocks && Header(f, j).id == INTR_ID {
      forall i | 0 <= i < j
        ensures f.read(Addr(f, i)).value.id !in {INTR_ID, TAIL_ID}
      {
        assert i > 0 ==> Header(f, i).id !in {INTR_ID, TAIL_ID};
      }
    }
    if Announces(f, j) {
      assert j > 0;
      assert p < f.numBlocks ==> Header(f, p).id in {INTR_ID, TAIL_ID};
      assert j < p ==> Header(f, j).id !in {INTR_ID, TAIL_ID};
    }
  }

  /** Exactly when the two scans agree, for every table whose headers can be read and whose
      first block is the information block. */
  lemma ScansAgreeExactly(f: Fpga, maxIrqs: nat)
    requires f.Valid() && AllRead(f) && Starts(f)
    ensures MaxIrqs(f, 0).Some?
    ensures var w := WalkTo(f, maxIrqs, Blocks(f));
            w.Going? || w.Ended? ==> ((w.v.intr.Some? <==> MaxIrqs(f, 0).value > 0) <==> Agreeable(f))
  {
    ScansFind(f, maxIrqs);
    AgreeableExactly(f);
  }

  lemma AgreeableExactly(f: Fpga)
    requires f.Valid() && AllRead(f) && Starts(f)
    ensures Agreeable(f) <==> ((exists j: nat :: Announces(f, j)) <==> (exists q: nat :: Records(f, q)))
  {
    hide Mark, Announces, Records, Addr, VerdictOf, Good;
    var p := Mark(f, 1);
    forall j: nat
      ensures Announces(f, j) <==> j == p && j < f.numBlocks && Header(f, j).id == INTR_ID
    {
      MarkAnnounces(f, j);
    }
    if p < f.numBlocks && Header(f, p).id == INTR_ID {
      assert Announces(f, p);
      NoTailBeforeMark(f, p);
    } else if p == f.numBlocks || Good(f, p) {
      forall q: nat
        ensures Records(f, q) <==> 1 <= q < p && !Good(f, q) && Addr(f, q) == 0x2_0000
      {
        RecordedBeforeMark(f, q);
      }
    }
  }

  lemma RecordedBeforeMark(f: Fpga, q: nat)
    requires f.Valid() && AllRead(f)
    requires var p := Mark(f, 1); p < f.numBlocks ==> Header(f, p).id == TAIL_ID && Good(f, p)
    ensures Records(f, q) <==> 1 <= q < Mark(f, 1) && !Good(f, q) && Addr(f, q) == 0x2_0000
  {
    hide Mark, Addr, VerdictOf;
    if Records(f, q) {
      NothingPastGoodTail(f, q);
    }
    if 1 <= q < Mark(f, 1) {
      NoTailBeforeMark(f, q);
      assert Header(f, q).id != INTR_ID;
    }
  }

  lemma RecordInside(f: Fpga, j: nat)
    requires f.Valid() && Records(f, j)
    ensures j < Blocks(f)
  {
  }

  /** Every interrupt resource handed out is a line of its block and below max_irqs, and the
      lines of one cell differ; with any lines at all every wanted line is handed out, before
      the interrupt block as after it. */
  lemma LinesHandedOut(f: Fpga, v: Image, src: seq<nat>, i: nat, k: nat)
    requires f.Valid() && i <= 255 && MaxIrqs(f, 0).Some?
    requires Sources(f, MaxIrqs(f, 0).value, v, src, i) && k < |src|
    ensures var c, blk, max := v.cells[k], VerdictOf(f, src[k]).blk, MaxIrqs(f, 0).value;
            && c.first + 1 <= c.first + c.num <= |v.res|
            && var irqs := v.res[c.first + 1..c.first + c.num];
            && (forall j :: 0 <= j < |irqs| ==> irqs[j].Irq? && irqs[j].line in blk.irqSet && irqs[j].line < max)
            && (forall j, j' :: 0 <= j < j' < |irqs| ==> irqs[j] != irqs[j'])
            && |irqs| == if max > 0 then blk.numIrqs else 0
  {
    var max := MaxIrqs(f, 0).value;
    assert From(f, max, v, k, src[k]);
    var c, blk := v.cells[k], VerdictOf(f, src[k]).blk;
    var lines := Lines(blk.irqSet, blk.numIrqs, max);
    CellResources(v.res, c, f.children, blk, Addr(f, src[k]), Addr(f, src[k] + 1), max);
    MaxIrqsValues(f, 0);
    if max > 0 {
      AllLines(blk, max);
    }
  }

  lemma {:induction false} MaxIrqsValues(f: Fpga, i: nat)
    requires f.Valid() && i <= f.numBlocks && MaxIrqs(f, i).Some?
    ensures MaxIrqs(f, i).value in {0, 10, 12}
    decreases f.numBlocks - i
  {
    if i < f.numBlocks && f.read(Addr(f, i)).Some? && f.read(Addr(f, i)).value.id !in {TAIL_ID, INTR_ID} {
      MaxIrqsValues(f, i + 1);
    }
  }

  // ----------------------------------------------------------- size check

  /** The check on the u32 block count, made after it was incremented. */
  predicate CountAccepted(numBlocks: nat) {
    (numBlocks + 1) % TWO_32 < 256
  }

  /** It admits exactly the counts up to 254, and the one count whose increment wraps. */
  lemma CountAcceptedExactly(numBlocks: nat)
    requires numBlocks < TWO_32
    ensures CountAccepted(numBlocks) <==> numBlocks <= 254 || numBlocks == TWO_32 - 1
  {
  }

  // ---------------------------------------------------------- duplicates

  /** Cell k shares its name and its id with another cell. */
  ghost predicate Clashes(cells: seq<Cell>, k: nat)
    requires k < |cells|
  {
    exists j :: 0 <= j < |cells| && j != k && cells[j].name == cells[k].name && cells[j].id == cells[k].id
  }

  ghost function Resolved(cells: seq<Cell>): (r: seq<Cell>)
    ensures |r| == |cells|
    ensures forall k :: 0 <= k < |cells| ==> r[k] == cells[k].(id := if Clashes(cells, k) then AUTO else cells[k].id)
  {
    seq(|cells|, k requires 0 <= k < |cells| => cells[k].(id := if Clashes(cells, k) then AUTO else cells[k].id))
  }

  /** After resolution no two cells share a name and a fixed id. */
  lemma ResolvedIsUnambiguous(cells: seq<Cell>, k: nat, l: nat)
    requires k < l < |cells|
    ensures var r := Resolved(cells);
            r[k].name == r[l].name && r[k].id == r[l].id ==> r[k].id == AUTO
  {
    if cells[k].name == cells[l].name && cells[k].id == cells[l].id {
      assert Clashes(cells, k) && Clashes(cells, l);
    }
  }

  /** A fixed id survives resolution exactly when no other cell had the same name and id. */
  lemma ResolvedKeepsExactly(cells: seq<Cell>, k: nat)
    requires k < |cells| && cells[k].id != AUTO
    ensures Resolved(cells)[k].id == cells[k].id <==>
            forall j :: 0 <= j < |cells| && j != k ==> cells[j].name != cells[k].name || cells[j].id != cells[k].id
  {
    var r := Resolved(cells)[k];
    assert r.id == if Clashes(cells, k) then AUTO else cells[k].id;
  }
}
