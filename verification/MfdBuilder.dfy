/**
 The builder itself: four arenas of fixed size, bump cursors, and the in-place
 resolution of duplicate ids.
 */
module MfdBuilder {
  import opened Options
  import opened MfdBlocks
  import opened Mfd
  import opened MfdResult
  import opened MfdIdentity

  datatype Config = Accepted | Rejected | Crash

  datatype Errno = EIO | ENODEV | EINVAL | ENXIO

  /** OutOfTable: the code would read its size table past the end. */
  datatype Result = Built(meta: Meta) | Error(code: Errno) | Crashed | OutOfTable

  class Meta {
    const maxCells: nat
    const cells: array<Cell>
    const matches: array<nat>
    const res: array<Resource>
    const names: array<string>
    var ncells: nat
    var nmatches: nat
    var nres: nat
    var nnames: nat
    var intr: Option<nat>
    var maxIrqs: nat

    ghost predicate Valid()
      reads this
    {
      && cells.Length == matches.Length == names.Length == maxCells && res.Length == 2 * maxCells
      && nmatches == ncells <= maxCells
      && nres <= 2 * ncells + Taken()
      && nnames <= ncells
      && nres <= 2 * maxCells
    }

    function Taken(): nat
      reads this
    {
      if intr.Some? then 1 else 0
    }

    /** There is a cell left even if the interrupt block took one. */
    ghost predicate Room()
      reads this
    {
      ncells + Taken() < maxCells
    }

    ghost function View(): Image
      requires Valid()
      reads this, cells, matches, res, names
    {
      Image(cells[..ncells], matches[..nmatches], res[..nres], names[..nnames], intr)
    }

    /** The arenas of _init_metadata: room for that many cells, two resources per cell. */
    constructor (maxCells: nat)
      ensures Valid() && this.maxCells == maxCells && maxIrqs == 0
      ensures View() == Image([], [], [], [], None)
      ensures fresh(cells) && fresh(matches) && fresh(res) && fresh(names)
    {
      this.maxCells := maxCells;
      cells := new Cell[maxCells](_ => Cell("", 0, 0, 0, 0));
      matches := new nat[maxCells](_ => 0);
      res := new Resource[2 * maxCells](_ => Unset);
      names := new string[maxCells](_ => "");
      ncells, nmatches, nres, nnames, intr, maxIrqs := 0, 0, 0, 0, None, 0;
    }

    /** _fwnode_config */
    method Configure(blk: Blk, adr: nat, next: nat, children: seq<Child>, blkId: nat) returns (r: Config)
      requires Valid() && Sound(blk) && (blk.id != INTR_ID ==> blk.name.Some?)
      // the slots that the block walk has left
      requires ncells < maxCells ==> Room()
      modifies `ncells, `nmatches, `nres, `nnames, `intr, cells, matches, res, names
      ensures Valid()
      ensures r == Rejected <==> old(ncells) >= maxCells || (blk.id != INTR_ID && Refused(children, adr, blkId))
      ensures r == Crash <==> old(ncells) < maxCells && blk.id == INTR_ID && old(intr).Some?
      ensures r != Accepted ==> View() == old(View())
      ensures r == Accepted && blk.id == INTR_ID ==> View() == AddIntr(old(View()), adr, next)
      ensures r == Accepted && blk.id != INTR_ID ==>
                View() == AddCell(old(View()), children, blk, adr, next, maxIrqs)
                && Becomes(children, blk, adr, cells[old(ncells)])
    {
      hide FirstChild, Lines, Becomes, Refused, CellName, SuffixedName, CellOf, ResOf, MemOf;
      if ncells >= maxCells {
        return Rejected;
      }
      ghost var v := View();
      res[nres] := MemOf(adr, next);
      if blk.id == INTR_ID {
        if intr.Some? { return Crash; }
        intr := Some(nres);
        nres := nres + 1;
        assert res[..nres] == v.res + [MemOf(adr, next)];
        return Accepted;
      }
      matches[nmatches] := adr;
      var ok := Identify(blk, adr, children, blkId);
      if !ok {
        return Rejected;
      }
      assert res[..nres] == v.res && cells[..ncells] == v.cells && matches[..nmatches] == v.matches;
      Commit(blk, adr, next, children, v);
      CellBecomes(children, blk, adr, maxIrqs, |v.res|);
      assert cells[old(ncells)] == cells[..ncells][|v.cells|] == CellOf(children, blk, adr, maxIrqs, |v.res|);
      r := Accepted;
    }

    /** The part of _fwnode_config that names the new cell, or refuses it. */
    method Identify(blk: Blk, adr: nat, children: seq<Child>, blkId: nat) returns (ok: bool)
      requires Valid() && ncells < maxCells && blk.name.Some?
      modifies `nnames, cells, names
      ensures ok == !Refused(children, adr, blkId)
      ensures cells[..ncells] == old(cells[..ncells])
      ensures !ok ==> nnames == old(nnames) && names[..nnames] == old(names[..nnames])
      ensures ok ==>
                var c := FirstChild(children, adr);
                var slot := SuffixedName(children, adr, blk.name.value);
                && cells[ncells] == Cell(CellName(children, adr, blk.name.value),
                                           if c.Some? then c.value.id else AUTO, adr, nres, 1)
                && nnames == old(nnames) + (if slot.Some? then 1 else 0)
                && names[..nnames] == old(names[..nnames]) + if slot.Some? then [slot.value] else []
    {
      cells[ncells] := Cell(blk.name.value, AUTO, adr, nres, 1);
      ok := true;
      var child := FindChild(children, adr);
      if child.Some? {
        var c := child.value;
        if c.ignoreCell || (c.blockId.Some? && c.blockId.value != blkId) {
          return false;
        }
        cells[ncells] := cells[ncells].(id := c.id);
        if c.name.Some? {
          cells[ncells] := cells[ncells].(name := c.name.value);
        } else if c.suffix.Some? {
          names[nnames] := Truncated(blk.name.value + c.suffix.value);
          cells[ncells] := cells[ncells].(name := names[nnames]);
          nnames := nnames + 1;
        }
      }
    }

    /** The end of _fwnode_config: interrupt lines, automatic ids, and the cursors. */
    method Commit(blk: Blk, adr: nat, next: nat, children: seq<Child>, ghost v: Image)
      requires Sound(blk) && blk.name.Some? && ncells < maxCells
      requires cells.Length == matches.Length == maxCells && res.Length == 2 * maxCells
      requires ncells == nmatches == |v.cells| && nres == |v.res| && nres + 1 < 2 * maxCells
      requires cells[..ncells] == v.cells && matches[..ncells] == v.matches && res[..nres] == v.res
      requires res[nres] == MemOf(adr, next) && matches[ncells] == adr
      requires var c := FirstChild(children, adr);
               cells[ncells] == Cell(CellName(children, adr, blk.name.value),
                                          if c.Some? then c.value.id else AUTO, adr, nres, 1)
      modifies `ncells, `nmatches, `nres, cells, res
      ensures ncells == old(ncells) + 1 && nmatches == old(nmatches) + 1
      ensures nres == old(nres) + 1 + |Lines(blk.irqSet, blk.numIrqs, maxIrqs)|
      ensures cells[..ncells] == v.cells + [CellOf(children, blk, adr, maxIrqs, |v.res|)]
      ensures matches[..nmatches] == v.matches + [adr]
      ensures res[..nres] == v.res + ResOf(blk, adr, next, maxIrqs)
    {
      ghost var lines := Lines(blk.irqSet, blk.numIrqs, maxIrqs);
      assert res[..nres + 1] == v.res + [MemOf(adr, next)];
      AddIrqs(blk);
      assert res[..nres + 1] == v.res + ([MemOf(adr, next)] + Irqs(lines));
      if AlwaysAuto(blk) {
        cells[ncells] := cells[ncells].(id := AUTO);
      }
      assert cells[..ncells] == v.cells;
      nmatches := nmatches + 1;
      nres := nres + 1;
      ncells := ncells + 1;
    }

    /** The first child at an address. */
    method FindChild(children: seq<Child>, adr: nat) returns (c: Option<Child>)
      ensures c == FirstChild(children, adr)
    {
      var i := 0;
      while i < |children|
        invariant i <= |children| && FirstChild(children, adr) == FirstChild(children[i..], adr)
      {
        if children[i].adr == adr {
          return Some(children[i]);
        }
        i := i + 1;
      }
      c := None;
    }

    /** One more interrupt resource for the cell being built. */
    method GiveLine(line: nat)
      requires ncells < cells.Length && nres + 1 < res.Length
      modifies `nres, res, cells
      ensures nres == old(nres) + 1 && res[..nres + 1] == old(res[..nres + 1]) + [Irq(line)]
      ensures cells[..] == old(cells[..])[ncells := old(cells[ncells]).(num := old(cells[ncells].num) + 1)]
    {
      cells[ncells] := cells[ncells].(num := cells[ncells].num + 1);
      nres := nres + 1;
      res[nres] := Irq(line);
    }

    /** ffs, counting from 0. */
    static method FirstSet(s: set<nat>) returns (bit: nat)
      requires s != {}
      ensures bit in s && forall x :: x in s ==> bit <= x
    {
      assert Least(s) in s;
      bit :| bit in s && forall x :: x in s ==> bit <= x;
    }

    /** The interrupt loop of _fwnode_config; the cell's memory resource is at nres. */
    method AddIrqs(blk: Blk)
      requires Sound(blk) && ncells < cells.Length && nres + blk.numIrqs < res.Length
      modifies `nres, res, cells
      ensures var lines := Lines(blk.irqSet, blk.numIrqs, maxIrqs);
              && nres == old(nres) + |lines|
              && res[..nres + 1] == old(res[..nres + 1]) + Irqs(lines)
              && cells[ncells] == old(cells[ncells]).(num := old(cells[ncells].num) + |lines|)
              && cells[..ncells] == old(cells[..ncells])
    {
      hide Lines, Irqs, Sound;
      ghost var lines := Lines(blk.irqSet, blk.numIrqs, maxIrqs);
      ghost var done: seq<nat> := [];
      var irqSet := blk.irqSet;
      var irq := 0;
      NoIrqs(old(res[..nres + 1]));
      while irq < blk.numIrqs
        invariant 0 <= irq <= blk.numIrqs && |done| == irq
        invariant done + Lines(irqSet, blk.numIrqs - irq, maxIrqs) == lines
        invariant nres == old(nres) + irq
        invariant res[..nres + 1] == old(res[..nres + 1]) + Irqs(done)
        invariant cells[ncells] == old(cells[ncells]).(num := old(cells[ncells].num) + irq)
        invariant cells[..ncells] == old(cells[..ncells])
      {
        if irqSet == {} {
          NoLines(irqSet, blk.numIrqs - irq, maxIrqs);
          break;
        }
        var hwirq := FirstSet(irqSet);
        if hwirq >= maxIrqs {
          NoLinesBelow(irqSet, blk.numIrqs - irq, maxIrqs, hwirq);
          break;
        }
        GiveLine(hwirq);
        MoreIrqs(old(res[..nres + 1]), done, hwirq);
        LinesTaken(done, irqSet, hwirq, blk.numIrqs - irq, maxIrqs);
        irqSet := irqSet - {hwirq};
        irq := irq + 1;
        done := done + [hwirq];
      }
      if irq == blk.numIrqs {
        NoLines(irqSet, 0, maxIrqs);
      }
      assert done + [] == done;
    }

    /** The duplicate loop at the end of cisco_fpga_mfd_cells. */
    method ResolveDuplicates()
      requires Valid()
      modifies cells
      ensures View() == old(View()).(cells := Resolved(old(View()).cells))
    {
      ghost var was := cells[..ncells];
      var i := 0;
      while i < ncells
        invariant i <= ncells && Partly(was, cells[..ncells], i)
      {
        ResolveOne(i, was);
        i := i + 1;
      }
      assert cells[..ncells] == Resolved(was) by {
        AllClashesSeen(was, cells[..ncells]);
      }
    }

    /** One round of the duplicate loop: cell i against all later cells. */
    method ResolveOne(i: nat, ghost was: seq<Cell>)
      requires Valid() && i < ncells && Partly(was, cells[..ncells], i)
      modifies cells
      ensures Partly(was, cells[..ncells], i + 1)
    {
      ghost var cur := cells[..ncells];
      var id := cells[i].id;
      if id == AUTO {
        NothingNew(was, cur, i);
        return;
      }
      var j := i + 1;
      while j < ncells
        invariant i < j <= ncells && cells[i] == cur[i]
        invariant id == if exists k :: i < k < j && Same(was, i, k) then AUTO else cur[i].id
        invariant forall k :: 0 <= k < ncells && k != i ==>
                    cells[k] == if i < k < j && Same(was, i, k) then cur[k].(id := AUTO) else cur[k]
      {
        SameSoFar(was, cur, i, j);
        if cells[i].name == cells[j].name {
          if cells[i].id == cells[j].id {
            id := AUTO;
            cells[j] := cells[j].(id := id);
          }
        }
        j := j + 1;
      }
      if cells[i].id != id {
        cells[i] := cells[i].(id := id);
      }
      RoundDone(was, cur, cells[..ncells], i);
    }
  }

  lemma LinesTaken(done: seq<nat>, s: set<nat>, bit: nat, num: nat, max: nat)
    requires bit in s && (forall x :: x in s ==> bit <= x) && bit < max && num > 0
    ensures done + Lines(s, num, max) == (done + [bit]) + Lines(s - {bit}, num - 1, max)
  {
    assert Least(s) == bit;
    assert done + ([bit] + Lines(s - {bit}, num - 1, max)) == (done + [bit]) + Lines(s - {bit}, num - 1, max);
  }

  lemma NoIrqs(res: seq<Resource>)
    ensures res + Irqs([]) == res
  {
  }

  lemma MoreIrqs(res: seq<Resource>, done: seq<nat>, line: nat)
    ensures (res + Irqs(done)) + [Irq(line)] == res + Irqs(done + [line])
  {
  }

  lemma NoLines(s: set<nat>, num: nat, max: nat)
    requires num == 0 || s == {}
    ensures Lines(s, num, max) == []
  {
  }

  lemma NoLinesBelow(s: set<nat>, num: nat, max: nat, bit: nat)
    requires bit in s && bit >= max && forall x :: x in s ==> bit <= x
    ensures Lines(s, num, max) == []
  {
  }

  /** _setup_max_irqs; the magic number it tests is the info block's, tested before. */
  method SetupMaxIrqs(f: Fpga, meta: Meta) returns (ok: bool)
    requires f.Valid() && meta.maxIrqs == 0
    modifies meta`maxIrqs
    ensures ok <==> MaxIrqs(f, 0).Some?
    ensures ok ==> meta.maxIrqs == MaxIrqs(f, 0).value
  {
    var nxtoff := 0;
    var i := 0;
    while i < f.numBlocks
      invariant i <= f.numBlocks && nxtoff == Addr(f, i)
      invariant MaxIrqs(f, i) == MaxIrqs(f, 0)
    {
      NextAddr(f, i);
      var absoff := nxtoff;
      nxtoff := (absoff + f.sizes[i] * 256) % TWO_32;
      var hdr := f.read(absoff);
      if hdr.None? {
        return false;
      }
      if hdr.value.id == TAIL_ID { break; }
      if hdr.value.id == INTR_ID {
        meta.maxIrqs := if hdr.value.maj < 8 then 10 else 12;
        return true;
      }
      i := i + 1;
    }
    meta.maxIrqs := 0;
    ok := true;
  }

  datatype Outcome = Done | ReadFailed | TwoIntr

  /** The outcome and the arenas are those of a walk state. */
  predicate Reports(r: Outcome, w: Walk, v: Image) {
    match r
    case ReadFailed => w.Failed?
    case TwoIntr => w.Bug?
    case Done => w == Going(v) || w == Ended(v)
  }

  /** The block walk of cisco_fpga_mfd_cells, the info block first. */
  method WalkBlocks(f: Fpga, meta: Meta) returns (r: Outcome)
    requires f.Valid() && meta.Valid() && meta.maxCells == f.numBlocks + 1
    requires meta.View() == Image([], [], [], [], None)
    modifies meta`ncells, meta`nmatches, meta`nres, meta`nnames, meta`intr,
             meta.cells, meta.matches, meta.res, meta.names
    ensures meta.Valid()
    ensures Reports(r, WalkTo(f, meta.maxIrqs, Blocks(f)), meta.View())
  {
    hide VerdictOf, AfterBlock;
    ghost var max := meta.maxIrqs;
    var nxtoff := f.sizes[0] * 256;
    assert Addr(f, 1) == Addr(f, 0) + nxtoff;
    var i := InfoBlock(f, meta, nxtoff);
    while i < f.numBlocks
      invariant 1 <= i <= Blocks(f) && nxtoff == Addr(f, i) && meta.maxIrqs == max
      invariant meta.Valid() && WalkTo(f, max, i) == Going(meta.View())
    {
      NextAddr(f, i);
      StillRoom(f, meta, i);
      var absoff := nxtoff;
      nxtoff := (absoff + f.sizes[i] * 256) % TWO_32;
      var go;
      go, r := Step(f, meta, i, absoff, nxtoff);
      if go != Accepted {
        WalkStaysStopped(f, max, i + 1, Blocks(f));
        return;
      }
      i := i + 1;
    }
    assert i == Blocks(f);
    r := Done;
  }

  /** The u32 sum of the walk is the true sum. */
  lemma NextAddr(f: Fpga, i: nat)
    requires f.Valid() && i < 255
    ensures (Addr(f, i) + f.sizes[i] * 256) % TWO_32 == Addr(f, i + 1)
  {
    AddrBound(f, i + 1);
  }

  /** Before block i the walk has filled less than the arenas hold. */
  lemma StillRoom(f: Fpga, meta: Meta, i: nat)
    requires f.Valid() && meta.Valid() && meta.maxCells == f.numBlocks + 1 && i <= f.numBlocks
    requires WalkTo(f, meta.maxIrqs, i) == Going(meta.View())
    ensures meta.Room()
  {
    ArenaBounds(f, meta.maxIrqs, i);
    assert |meta.View().cells| == meta.ncells;
  }

  lemma NextWalk(f: Fpga, max: nat, i: nat, v: Image)
    requires f.Valid() && i < 255 && WalkTo(f, max, i) == Going(v)
    ensures WalkTo(f, max, i + 1) == AfterBlock(f, max, v, i)
  {
  }

  /** The info block, whose result the walk ignores. */
  method InfoBlock(f: Fpga, meta: Meta, nxtoff: nat) returns (next: nat)
    requires f.Valid() && nxtoff == Addr(f, 1)
    requires meta.Valid() && meta.maxCells == f.numBlocks + 1
    requires meta.View() == Image([], [], [], [], None)
    modifies meta`ncells, meta`nmatches, meta`nres, meta`nnames, meta`intr,
             meta.cells, meta.matches, meta.res, meta.names
    ensures next == 1 && meta.Valid() && WalkTo(f, meta.maxIrqs, next) == Going(meta.View())
  {
    assert meta.View().intr.None? && |meta.View().cells| == 0;
    assert WalkTo(f, meta.maxIrqs, 0) == Going(meta.View());
    assert WalkTo(f, meta.maxIrqs, 1) == AfterBlock(f, meta.maxIrqs, meta.View(), 0);
    assert Addr(f, 0) == 0;
    var blk := f.rows(INFO_ID);
    var c := meta.Configure(blk, 0, nxtoff, f.children, blk.id);
    next := 1;
  }

  /** One round of the block walk; anything but Accepted ends it with outcome r. */
  method Step(f: Fpga, meta: Meta, i: nat, absoff: nat, nxtoff: nat) returns (go: Config, r: Outcome)
    requires f.Valid() && 1 <= i < f.numBlocks && absoff == Addr(f, i) && nxtoff == Addr(f, i + 1)
    requires meta.Valid() && meta.Room() && WalkTo(f, meta.maxIrqs, i) == Going(meta.View())
    modifies meta`ncells, meta`nmatches, meta`nres, meta`nnames, meta`intr,
             meta.cells, meta.matches, meta.res, meta.names
    ensures meta.Valid()
    ensures var w := WalkTo(f, meta.maxIrqs, i + 1);
            if go == Accepted then w == Going(meta.View()) else !w.Going? && Reports(r, w, meta.View())
  {
    NextWalk(f, meta.maxIrqs, i, meta.View());
    go, r := Accepted, Done;
    var read := f.read(absoff);
    if read.None? {
      return Rejected, ReadFailed;
    }
    var hdr := read.value;
    var intr := false;
    if hdr.magic != MAGIC {
      if absoff != 0x2_0000 { return; }
      intr := true;
    } else if hdr.id == TAIL_ID {
      return Rejected, Done;
    } else if hdr.id == INTR_ID {
      intr := true;
    }
    if intr {
      go := meta.Configure(IRQ_BLK, absoff, nxtoff, f.children, INTR_ID);
      r := TwoIntr;
    } else {
      var blk := f.rows(hdr.id);
      if blk.name.Some? {
        var c := meta.Configure(blk, absoff, nxtoff, f.children, hdr.id);
      }
    }
  }

  // ------------------------------------- the block count whose increment wraps

  /** How a scan over the headers of a table with no end in sight ends. */
  datatype LongScan = BadRead | Ends | PastTable

  /** The pre-scan from block i on: it ends at an interrupt or a tail header. */
  function LongPreScan(f: Fpga, i: nat): LongScan
    requires f.Shaped() && i <= 256
    decreases 256 - i
  {
    if i == 256 then PastTable
    else
      match f.read(Addr(f, i))
      case None => BadRead
      case Some(hdr) => if hdr.id in {TAIL_ID, INTR_ID} then Ends else LongPreScan(f, i + 1)
  }

  /** The main walk from block i on: it ends at a tail header with good magic. */
  function LongWalk(f: Fpga, i: nat): LongScan
    requires f.Shaped() && i <= 256
    decreases 256 - i
  {
    if i == 256 then PastTable
    else
      match f.read(Addr(f, i))
      case None => BadRead
      case Some(hdr) => if hdr.magic == MAGIC && hdr.id == TAIL_ID then Ends else LongWalk(f, i + 1)
  }

  /** Both scans, one after the other. */
  function LongScans(f: Fpga): LongScan
    requires f.Shaped()
  {
    if LongPreScan(f, 0) != Ends then LongPreScan(f, 0) else LongWalk(f, 1)
  }

  /** Each scan reads past the size table exactly when all its 256 headers can be read and
      none of them ends it. */
  lemma {:induction false} PastTableExactly(f: Fpga, i: nat)
    requires f.Shaped() && i <= 256
    ensures LongPreScan(f, i) == PastTable <==>
              forall b :: i <= b < 256 ==> HeaderAt(f, b).Some? && HeaderAt(f, b).value.id !in {TAIL_ID, INTR_ID}
    ensures LongWalk(f, i) == PastTable <==>
              forall b :: i <= b < 256 ==>
                HeaderAt(f, b).Some?
                && !(HeaderAt(f, b).value.magic == MAGIC && HeaderAt(f, b).value.id == TAIL_ID)
    decreases 256 - i
  {
    hide Addr;
    if i < 256 {
      PastTableExactly(f, i + 1);
      assert HeaderAt(f, i) == f.read(Addr(f, i));
    }
  }

  function HeaderAt(f: Fpga, b: nat): Option<BlkHdr>
    requires f.Shaped() && b < 256
  {
    f.read(Addr(f, b))
  }

  lemma {:induction false} ShapedAddr(f: Fpga, i: nat)
    requires f.Shaped() && i <= 256
    ensures Addr(f, i) <= i * 0xff_ff00 < TWO_32
  {
    if i > 0 {
      ShapedAddr(f, i - 1);
    }
  }

  /** The pre-scan when the count has wrapped. */
  method PreScanLong(f: Fpga) returns (r: LongScan)
    requires f.Shaped()
    ensures r == LongPreScan(f, 0)
  {
    hide Addr;
    ShapedAddr(f, 0);
    var nxtoff, i := Addr(f, 0), 0;
    while i < 256
      invariant i <= 256 && nxtoff == Addr(f, i) && LongPreScan(f, i) == LongPreScan(f, 0)
    {
      NextLongAddr(f, i);
      var absoff := nxtoff;
      nxtoff := (absoff + f.sizes[i] * 256) % TWO_32;
      var hdr := f.read(absoff);
      if hdr.None? {
        return BadRead;
      }
      if hdr.value.id == TAIL_ID || hdr.value.id == INTR_ID {
        return Ends;
      }
      i := i + 1;
    }
    r := PastTable;
  }

  lemma NextLongAddr(f: Fpga, i: nat)
    requires f.Shaped() && i < 256
    ensures (Addr(f, i) + f.sizes[i] * 256) % TWO_32 == Addr(f, i + 1)
  {
    ShapedAddr(f, i + 1);
  }

  /** The block walk when the count has wrapped: with no room for any cell, every block is
      rejected. */
  method WalkLong(f: Fpga, meta: Meta) returns (r: LongScan)
    requires f.Shaped() && SoundRows(f.rows) && meta.Valid() && meta.maxCells == 0
    requires meta.View() == Image([], [], [], [], None)
    modifies meta`ncells, meta`nmatches, meta`nres, meta`nnames, meta`intr,
             meta.cells, meta.matches, meta.res, meta.names
    ensures r == LongWalk(f, 1) && meta.Valid() && meta.View() == Image([], [], [], [], None)
  {
    hide Addr;
    FirstLongAddr(f);
    var nxtoff, i := f.sizes[0] * 256, 1;
    while i < 256
      invariant 1 <= i <= 256 && nxtoff == Addr(f, i) && LongWalk(f, i) == LongWalk(f, 1)
      invariant meta.Valid() && meta.View() == Image([], [], [], [], None)
    {
      NextLongAddr(f, i);
      var absoff := nxtoff;
      nxtoff := (absoff + f.sizes[i] * 256) % TWO_32;
      var read := f.read(absoff);
      if read.None? {
        return BadRead;
      }
      var hdr := read.value;
      if hdr.magic == MAGIC && hdr.id == TAIL_ID {
        return Ends;
      }
      RejectsAll(meta);
      if (hdr.magic == MAGIC && hdr.id == INTR_ID) || (hdr.magic != MAGIC && absoff == 0x2_0000) {
        var c := meta.Configure(IRQ_BLK, absoff, nxtoff, f.children, INTR_ID);
      } else if hdr.magic == MAGIC {
        var blk := f.rows(hdr.id);
        if blk.name.Some? {
          var c := meta.Configure(blk, absoff, nxtoff, f.children, hdr.id);
        }
      }
      i := i + 1;
    }
    r := PastTable;
  }

  lemma FirstLongAddr(f: Fpga)
    requires f.Shaped()
    ensures Addr(f, 1) == f.sizes[0] * 256
  {
    assert Addr(f, 0) == 0;
  }

  lemma RejectsAll(meta: Meta)
    requires meta.Valid() && meta.maxCells == 0
    ensures meta.ncells >= meta.maxCells
  {
  }

  /** The builder when the count has wrapped. */
  method BuildLong(f: Fpga) returns (r: Result)
    requires f.Shaped() && SoundRows(f.rows)
    ensures IsLongResult(f, r)
    ensures r.Built? ==> fresh(r.meta)
  {
    var meta := new Meta(0);
    var scan := PreScanLong(f);
    if scan == Ends {
      var blk := f.rows(INFO_ID);
      if blk.name.Some? {
        var c := meta.Configure(blk, 0, f.sizes[0] * 256, f.children, blk.id);
      }
      scan := WalkLong(f, meta);
    }
    match scan {
      case BadRead => r := Error(EIO);
      case PastTable => r := OutOfTable;
      case Ends => r := Built(meta);
    }
  }

  /** With no room for cells the builder hands out nothing, or does not get that far. */
  ghost predicate IsLongResult(f: Fpga, r: Result)
    requires f.Shaped()
    reads if r.Built? then {r.meta, r.meta.cells, r.meta.matches, r.meta.res, r.meta.names} else {}
  {
    match LongScans(f)
    case BadRead => r == Error(EIO)
    case PastTable => r == OutOfTable
    case Ends => r.Built? && r.meta.Valid() && r.meta.View() == Image([], [], [], [], None)
  }

  // ------------------------------------------------------------ the builder

  /** The block count wraps when it is incremented; the size check lets it pass. */
  predicate Wraps(f: Fpga, major: nat) {
    major >= 6 && f.numBlocks == TWO_32 - 1
  }

  /** What the builder hands out is the walk's image with its duplicates resolved, sound, and
      for the table under any filter with every cell as its block asks. */
  ghost predicate IsResult(f: Fpga, meta: Meta)
    requires f.Valid()
    reads meta, meta.cells, meta.matches, meta.res, meta.names
  {
    && MaxIrqs(f, 0).Some? && meta.Valid()
    && var w := WalkTo(f, MaxIrqs(f, 0).value, Blocks(f));
    && (w.Going? || w.Ended?) && meta.View() == Final(w)
    && exists src, stop ::
         && StopsAt(f, w, Blocks(f), stop) && ImageSound(f, MaxIrqs(f, 0).value, meta.View(), src, stop)
         && forall filter :: f.rows == Rows(filter) ==>
              AllIdentified(f, filter, MaxIrqs(f, 0).value, meta.View(), src, stop)
  }

  /** The builder when the count fits the size table. */
  method BuildShort(f: Fpga) returns (r: Result)
    requires f.Valid()
    ensures MaxIrqs(f, 0).None? ==> r == Error(EIO)
    ensures MaxIrqs(f, 0).Some? ==>
              match WalkTo(f, MaxIrqs(f, 0).value, Blocks(f))
              case Failed => r == Error(EIO)
              case Bug => r == Crashed
              case _ => r.Built? && IsResult(f, r.meta)
  {
    hide MaxIrqs, WalkTo, ImageSound, StopsAt, AllIdentified, Rows;
    var meta := new Meta(f.numBlocks + 1);
    var ok := SetupMaxIrqs(f, meta);
    if !ok {
      return Error(EIO);
    }
    var walked := WalkBlocks(f, meta);
    match walked {
      case ReadFailed => return Error(EIO);
      case TwoIntr => return Crashed;
      case Done =>
        meta.ResolveDuplicates();
        ghost var src, stop := ResultIsSound(f);
        forall filter | f.rows == Rows(filter)
          ensures AllIdentified(f, filter, MaxIrqs(f, 0).value, meta.View(), src, stop)
        {
          ResultIsIdentified(f, filter, MaxIrqs(f, 0).value, meta.View(), src, stop);
        }
        return Built(meta);
    }
  }

  /** cisco_fpga_mfd_cells.  `major` is the version of the info block; before version 6 the
      block count is not in the hardware and is taken to be 255.  `tableOk` tells whether
      the read of the size table succeeds. */
  method BuildCells(f: Fpga, major: nat, tableOk: bool) returns (r: Result)
    requires f.Shaped() && SoundRows(f.rows) && f.numBlocks < TWO_32
    ensures !Starts(f) || !tableOk || major < 6 ==> r.Error?
    ensures Starts(f) && tableOk && Wraps(f, major) ==> IsLongResult(f, r)
    ensures 254 < f.numBlocks < TWO_32 - 1 ==> r.Error?
    ensures r.OutOfTable? ==> Wraps(f, major)
    ensures f.Valid() && major >= 6 && tableOk && Starts(f) ==>
              if MaxIrqs(f, 0).None? then r == Error(EIO)
              else
                match WalkTo(f, MaxIrqs(f, 0).value, Blocks(f))
                case Failed => r == Error(EIO)
                case Bug => r == Crashed
                case _ => r.Built? && IsResult(f, r.meta)
  {
    hide MaxIrqs, WalkTo, IsResult, IsLongResult;
    var info := f.read(0);
    if info.None? { return Error(EIO); }
    if info.value.magic != MAGIC { return Error(ENODEV); }
    var count := if major < 6 then 255 else f.numBlocks;
    var max := (count + 1) % TWO_32;
    if max >= 256 { return Error(EINVAL); }
    if !tableOk { return Error(EIO); }
    if info.value.id != INFO_ID { return Error(ENXIO); }
    if max != count + 1 {
      r := BuildLong(f);
    } else {
      r := BuildShort(f);
    }
  }

  /** Two cells with the same name and id. */
  predicate Same(cells: seq<Cell>, j: nat, k: nat)
    requires j < |cells| && k < |cells|
  {
    cells[j].name == cells[k].name && cells[j].id == cells[k].id
  }

  /** Cell k clashes in some pair whose lower position is below i. */
  ghost predicate ClashBelow(cells: seq<Cell>, k: nat, i: nat)
    requires k < |cells|
  {
    exists j :: 0 <= j < |cells| && j != k && (j < i || k < i) && Same(cells, j, k)
  }

  /** The ids after rounds 0 to i - 1. */
  ghost predicate Partly(was: seq<Cell>, cur: seq<Cell>, i: nat) {
    |cur| == |was|
    && forall k :: 0 <= k < |was| ==> cur[k] == was[k].(id := if ClashBelow(was, k, i) then AUTO else was[k].id)
  }

  lemma ClashTransfers(was: seq<Cell>, i: nat, j: nat)
    requires i < j < |was| && Same(was, i, j) && ClashBelow(was, j, i)
    ensures ClashBelow(was, i, i)
  {
    var m :| 0 <= m < |was| && m != j && (m < i || j < i) && Same(was, m, j);
    assert Same(was, m, i);
  }

  /** While cell i still has its id, the current ids of cells i and j agree exactly when
      the original ones did. */
  lemma SameSoFar(was: seq<Cell>, cur: seq<Cell>, i: nat, j: nat)
    requires i < j < |was| && Partly(was, cur, i) && cur[i].id != AUTO
    ensures Same(cur, i, j) <==> Same(was, i, j)
  {
    if Same(was, i, j) && ClashBelow(was, j, i) {
      ClashTransfers(was, i, j);
    }
  }

  /** What round i adds to the known clashes. */
  lemma ClashStep(was: seq<Cell>, k: nat, i: nat)
    requires k < |was| && i < |was|
    ensures k != i ==> (ClashBelow(was, k, i + 1) <==> ClashBelow(was, k, i) || (i < k && Same(was, i, k)))
    ensures ClashBelow(was, i, i + 1) <==> ClashBelow(was, i, i) || exists l :: i < l < |was| && Same(was, i, l)
  {
    if k != i && i < k && Same(was, i, k) {
      assert ClashBelow(was, k, i + 1);
    }
    if exists l :: i < l < |was| && Same(was, i, l) {
      var l :| i < l < |was| && Same(was, i, l);
      assert Same(was, l, i);
      assert ClashBelow(was, i, i + 1);
    }
    if ClashBelow(was, i, i + 1) && !ClashBelow(was, i, i) {
      var l :| 0 <= l < |was| && l != i && Same(was, l, i);
      assert Same(was, i, l);
    }
  }

  /** A cell that is already AUTO adds no clash that is not known. */
  lemma NothingNew(was: seq<Cell>, cur: seq<Cell>, i: nat)
    requires i < |was| && Partly(was, cur, i) && cur[i].id == AUTO
    ensures Partly(was, cur, i + 1)
  {
    forall k | 0 <= k < |was|
      ensures cur[k] == was[k].(id := if ClashBelow(was, k, i + 1) then AUTO else was[k].id)
    {
      ClashStep(was, k, i);
      if was[i].id != AUTO {
        var m :| 0 <= m < |was| && m != i && m < i && Same(was, m, i);
        if i < k && Same(was, i, k) {
          assert Same(was, m, k);
        }
      }
    }
  }

  lemma RoundDone(was: seq<Cell>, cur: seq<Cell>, now: seq<Cell>, i: nat)
    requires i < |was| == |now| && Partly(was, cur, i)
    requires now[i] == if exists k :: i < k < |was| && Same(was, i, k) then cur[i].(id := AUTO) else cur[i]
    requires forall k :: 0 <= k < |was| && k != i ==>
               now[k] == if i < k && Same(was, i, k) then cur[k].(id := AUTO) else cur[k]
    ensures Partly(was, now, i + 1)
  {
    forall k | 0 <= k < |was|
      ensures now[k] == was[k].(id := if ClashBelow(was, k, i + 1) then AUTO else was[k].id)
    {
      ClashStep(was, k, i);
    }
  }

  lemma AllClashesSeen(was: seq<Cell>, cur: seq<Cell>)
    requires Partly(was, cur, |was|)
    ensures cur == Resolved(was)
  {
    forall k | 0 <= k < |was|
      ensures ClashBelow(was, k, |was|) <==> Clashes(was, k)
    {
      if Clashes(was, k) {
        var j :| 0 <= j < |was| && j != k && was[j].name == was[k].name && was[j].id == was[k].id;
        assert Same(was, j, k);
      }
    }
  }
}
