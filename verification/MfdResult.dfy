/** What holds of everything that the cell builder hands out, however the walk ended. */
module MfdResult {
  import opened Options
  import opened MfdBlocks
  import opened Mfd

  /** The interrupt resources of cell k. */
  function Interrupts(v: Image, k: nat): seq<Resource>
    requires k < |v.cells| && v.cells[k].first + 1 <= v.cells[k].first + v.cells[k].num <= |v.res|
  {
    v.res[v.cells[k].first + 1..v.cells[k].first + v.cells[k].num]
  }

  /** They are different lines of the block's set, below the limit, and all that it wants
      when there are lines at all. */
  predicate LinesOf(blk: Blk, irqs: seq<Resource>, max: nat) {
    && (forall j :: 0 <= j < |irqs| ==> irqs[j].Irq? && irqs[j].line in blk.irqSet && irqs[j].line < max)
    && (forall j, j' :: 0 <= j < j' < |irqs| ==> irqs[j] != irqs[j'])
    && |irqs| == if max > 0 then blk.numIrqs else 0
  }

  /** Cell k is the cell of block b: its address, its match, its name, its range from the sum
      of the sizes before the block to the next block, and its interrupt lines. */
  ghost predicate CellSound(f: Fpga, max: nat, v: Image, k: nat, b: nat)
    requires f.Valid() && k < |v.cells| == |v.matches|
  {
    && b < 255 && VerdictOf(f, b).CellFor?
    && var c := v.cells[k];
       var blk := VerdictOf(f, b).blk;
    && c.adr == v.matches[k] == Addr(f, b) && c.name == CellName(f.children, Addr(f, b), blk.name.value)
    && 1 <= c.num && c.first + c.num <= |v.res|
    && Range(v, k) == MemOf(Addr(f, b), Addr(f, b + 1))
    && LinesOf(blk, Interrupts(v, k), max)
  }

  /** Cell k's range lies before cell l's, unless no block up to that of cell k has a size. */
  ghost predicate Ascend(f: Fpga, v: Image, src: seq<nat>, k: nat, l: nat)
    requires f.Valid() && k < |src| && src[k] < 255
  {
    && Range(v, k).Mem? && Range(v, l).Mem?
    && (Range(v, k).end < Range(v, l).start <==> Addr(f, src[k] + 1) > 0)
  }

  /** The ranges ascend and are disjoint, from the first block with a size on. */
  ghost predicate RangesAscend(f: Fpga, v: Image, src: seq<nat>)
    requires f.Valid() && forall k :: 0 <= k < |src| ==> src[k] < 255
  {
    forall k, l :: 0 <= k < l < |src| ==> Ascend(f, v, src, k, l)
  }

  /** The id that block b asks for. */
  ghost function AskedId(f: Fpga, b: nat): int
    requires f.Valid() && b < 255 && VerdictOf(f, b).CellFor?
  {
    CellId(f.children, Addr(f, b), VerdictOf(f, b).blk)
  }

  /** Another cell has the name of cell k, and its block asks for the same id. */
  ghost predicate Rivalled(f: Fpga, v: Image, src: seq<nat>, k: nat)
    requires f.Valid() && k < |src| == |v.cells|
    requires forall l :: 0 <= l < |src| ==> src[l] < 255 && VerdictOf(f, src[l]).CellFor?
  {
    exists l :: 0 <= l < |src| && l != k && v.cells[l].name == v.cells[k].name
                && AskedId(f, src[l]) == AskedId(f, src[k])
  }

  /** Each cell has the id that its block asks for, or AUTO if it has a rival for that. */
  ghost predicate IdsAsAsked(f: Fpga, v: Image, src: seq<nat>)
    requires f.Valid() && |src| == |v.cells|
    requires forall l :: 0 <= l < |src| ==> src[l] < 255 && VerdictOf(f, src[l]).CellFor?
  {
    forall k :: 0 <= k < |src| ==> v.cells[k].id == if Rivalled(f, v, src, k) then AUTO else AskedId(f, src[k])
  }

  /** No two cells share a name and a fixed id. */
  predicate Unambiguous(cells: seq<Cell>) {
    forall k, l :: 0 <= k < l < |cells| ==>
      cells[k].name == cells[l].name && cells[k].id == cells[l].id ==> cells[k].id == AUTO
  }

  /** The cells are those of the blocks src, which are exactly the blocks before the stop that
      ask for one. */
  ghost predicate ImageSound(f: Fpga, max: nat, v: Image, src: seq<nat>, stop: nat)
    requires f.Valid()
  {
    && stop <= 255 && |src| == |v.cells| == |v.matches|
    && (forall k :: 0 <= k < |src| ==> src[k] < stop && CellSound(f, max, v, k, src[k]))
    && (forall k, l :: 0 <= k < l < |src| ==> src[k] < src[l])
    && (forall b :: 0 <= b < stop && VerdictOf(f, b).CellFor? ==> b in src)
    && IdsAsAsked(f, v, src)
    && RangesAscend(f, v, src) && SlicesDisjoint(v) && Unambiguous(v.cells)
  }

  /** What the builder returns: the walk's image with duplicate ids resolved. */
  ghost function Final(w: Walk): Image
    requires w.Going? || w.Ended?
  {
    w.v.(cells := Resolved(w.v.cells))
  }

  lemma SourceIsSound(f: Fpga, v: Image, src: seq<nat>, stop: nat, k: nat)
    requires f.Valid() && stop <= 255 && MaxIrqs(f, 0).Some? && k < |src|
    requires Sources(f, MaxIrqs(f, 0).value, v, src, stop)
    ensures CellSound(f, MaxIrqs(f, 0).value, v.(cells := Resolved(v.cells)), k, src[k])
  {
    hide Addr, VerdictOf, MaxIrqs, MemOf, CellName, CellId, Clashes;
    var max := MaxIrqs(f, 0).value;
    var v' := v.(cells := Resolved(v.cells));
    assert From(f, max, v, k, src[k]);
    LinesHandedOut(f, v, src, stop, k);
    RangeOf(f, max, v, k, src[k]);
    assert v'.cells[k] == v.cells[k].(id := v'.cells[k].id);
  }

  /** Before the resolution every cell has the id asked for. */
  lemma AskedBefore(f: Fpga, max: nat, v: Image, src: seq<nat>, stop: nat, k: nat)
    requires f.Valid() && stop <= 255 && Sources(f, max, v, src, stop) && k < |src|
    ensures VerdictOf(f, src[k]).CellFor? && v.cells[k].id == AskedId(f, src[k])
  {
    hide Addr, VerdictOf, CellName, CellId;
    assert From(f, max, v, k, src[k]);
  }

  lemma IdsFinally(f: Fpga, max: nat, v: Image, src: seq<nat>, stop: nat)
    requires f.Valid() && stop <= 255 && Sources(f, max, v, src, stop)
    ensures forall l :: 0 <= l < |src| ==> src[l] < 255 && VerdictOf(f, src[l]).CellFor?
    ensures IdsAsAsked(f, v.(cells := Resolved(v.cells)), src)
  {
    hide VerdictOf, AskedId, From;
    forall k | 0 <= k < |src|
      ensures src[k] < 255 && VerdictOf(f, src[k]).CellFor? && v.cells[k].id == AskedId(f, src[k])
    {
      AskedBefore(f, max, v, src, stop, k);
    }
    var v' := v.(cells := Resolved(v.cells));
    forall k | 0 <= k < |src|
      ensures Clashes(v.cells, k) <==> Rivalled(f, v', src, k)
    {
    }
    hide Clashes, Rivalled;
  }

  lemma RangesKept(v: Image, k: nat)
    requires k < |v.cells|
    ensures Range(v.(cells := Resolved(v.cells)), k) == Range(v, k)
  {
    hide Clashes;
  }

  lemma SlicesKept(v: Image)
    requires SlicesDisjoint(v)
    ensures SlicesDisjoint(v.(cells := Resolved(v.cells)))
  {
    hide Clashes;
  }

  lemma ResolvedUnambiguous(cells: seq<Cell>)
    ensures Unambiguous(Resolved(cells))
  {
    hide Clashes, Resolved;
    forall k, l | 0 <= k < l < |cells|
      ensures Resolved(cells)[k].name == Resolved(cells)[l].name && Resolved(cells)[k].id == Resolved(cells)[l].id
              ==> Resolved(cells)[k].id == AUTO
    {
      ResolvedIsUnambiguous(cells, k, l);
    }
  }

  lemma RangesAscendFinally(f: Fpga, max: nat, v: Image, src: seq<nat>, stop: nat)
    requires f.Valid() && stop <= 255 && Sources(f, max, v, src, stop)
    ensures RangesAscend(f, v.(cells := Resolved(v.cells)), src)
  {
    hide Addr, Range, Resolved, Clashes, From;
    var v' := v.(cells := Resolved(v.cells));
    forall k, l | 0 <= k < l < |src|
      ensures Ascend(f, v', src, k, l)
    {
      RangesKept(v, k);
      RangesKept(v, l);
      RangesDisjoint(f, max, v, src, stop, k, l);
    }
  }

  /** Of every image that the builder returns, for a table ended by a tail block as for one
      that runs to its last block. */
  lemma ResultIsSound(f: Fpga) returns (src: seq<nat>, stop: nat)
    requires f.Valid() && MaxIrqs(f, 0).Some?
    requires var w := WalkTo(f, MaxIrqs(f, 0).value, Blocks(f)); w.Going? || w.Ended?
    ensures var w := WalkTo(f, MaxIrqs(f, 0).value, Blocks(f));
            && StopsAt(f, w, Blocks(f), stop)
            && ImageSound(f, MaxIrqs(f, 0).value, Final(w), src, stop)
  {
    hide CellSound, IdsAsAsked, RangesAscend, SlicesDisjoint, Unambiguous;
    hide MaxIrqs, WalkTo, VerdictOf, StopsAt, Clashes, From;
    var max := MaxIrqs(f, 0).value;
    var w := WalkTo(f, max, Blocks(f));
    src, stop := WalkSources(f, max, Blocks(f));
    StopInside(f, w, Blocks(f), stop);
    WalkSlices(f, max, Blocks(f));
    SlicesKept(w.v);
    ResolvedUnambiguous(w.v.cells);
    RangesAscendFinally(f, max, w.v, src, stop);
    IdsFinally(f, max, w.v, src, stop);
    forall k | 0 <= k < |src|
      ensures CellSound(f, max, Final(w), k, src[k])
    {
      SourceIsSound(f, w.v, src, stop, k);
    }
  }

  lemma StopInside(f: Fpga, w: Walk, i: nat, stop: nat)
    requires f.Valid() && i <= 255 && StopsAt(f, w, i, stop)
    ensures stop <= i
  {
  }
}
