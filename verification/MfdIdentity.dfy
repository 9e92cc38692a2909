/**
 Which blocks become cells, and which name, id and place each returned cell has, said from
 what is in front of the builder: block headers and sizes, the table of known blocks under
 the caller's filter, and the firmware's children.
 */
module MfdIdentity {
  import opened Options
  import opened MfdBlocks
  import opened Mfd
  import opened MfdResult

  // -------------------------------------------------- the firmware's child

  ghost predicate FirstAt(children: seq<Child>, adr: nat, j: nat) {
    j < |children| && children[j].adr == adr && forall i :: 0 <= i < j ==> children[i].adr != adr
  }

  ghost predicate NoneAt(children: seq<Child>, adr: nat) {
    forall i :: 0 <= i < |children| ==> children[i].adr != adr
  }

  lemma {:induction false} FirstChildIs(children: seq<Child>, adr: nat) returns (j: nat)
    ensures match FirstChild(children, adr)
            case None => NoneAt(children, adr)
            case Some(c) => FirstAt(children, adr, j) && children[j] == c
  {
    j := 0;
    if children != [] && children[0].adr != adr {
      j := FirstChildIs(children[1..], adr);
      j := j + 1;
    }
  }

  // ------------------------------------------------------ names for user space

  /** An `u` before an `i`. */
  ghost predicate HasUi(s: string) {
    exists j :: 0 <= j < |s| - 1 && s[j] == 'u' && s[j + 1] == 'i'
  }

  /** sub stands in s at position i. */
  predicate StandsAt(s: string, sub: string, i: nat) {
    i + |sub| <= |s| && s[i..i + |sub|] == sub
  }

  lemma {:induction false} ContainsAt(s: string, sub: string) returns (j: nat)
    requires Contains(s, sub)
    ensures StandsAt(s, sub, j)
  {
    j := 0;
    if !(sub <= s) {
      j := ContainsAt(s[1..], sub);
      j := j + 1;
    }
  }

  lemma {:induction false} ContainsIfAt(s: string, sub: string, j: nat)
    requires StandsAt(s, sub, j)
    ensures Contains(s, sub)
  {
    if j > 0 {
      assert s[1..][j - 1..j - 1 + |sub|] == sub;
      ContainsIfAt(s[1..], sub, j - 1);
    }
  }

  lemma NoUiEarly(k: nat)
    requires k < 17 <= |KNOWN| && KNOWN[k].name.Some?
    ensures !HasUi(KNOWN[k].name.value)
  {
  }

  lemma NoUiLate(k: nat)
    requires 17 <= k < |KNOWN| && KNOWN[k].name.Some?
    ensures !HasUi(KNOWN[k].name.value)
  {
  }

  lemma UioHasUi(s: string)
    requires Contains(s, "-uio")
    ensures HasUi(s)
  {
    var j := ContainsAt(s, "-uio");
    assert s[j..j + 4][1] == s[j + 1] && s[j..j + 4][2] == s[j + 1 + 1];
  }

  lemma FallbackUio(k: nat) returns (j: nat)
    requires k < |FALLBACK| && FALLBACK[k].name.Some?
    ensures StandsAt(FALLBACK[k].name.value, "-uio", j)
  {
    j := if k == 1 then 10 else if k == 2 then 9 else 13;
  }

  /** The known rows allow a fixed id, and no fallback row with a name does. */
  lemma AutoExactly(id: nat, filter: bv32)
    requires MatchOf(id, filter).name.Some?
    ensures AlwaysAuto(MatchOf(id, filter)) <==> !Listed(KNOWN, id, filter)
  {
    hide HasUi, Contains, Listed;
    TableIsSound();
    var k, b := FirstFit(id, filter, 0), FirstFallback(filter, 0);
    FirstIsFound(KNOWN, id, filter, k);
    if k < |KNOWN| {
      if k < 17 { NoUiEarly(k); } else { NoUiLate(k); }
      if Contains(KNOWN[k].name.value, "-uio") {
        UioHasUi(KNOWN[k].name.value);
      }
    } else {
      var j := FallbackUio(b);
      ContainsIfAt(FALLBACK[b].name.value, "-uio", j);
    }
  }

  // ---------------------------------------------------------- one block

  /** The id that the walk reads for block b; the first block is the information block. */
  function IdOf(f: Fpga, b: nat): nat
    requires |f.sizes| == 256 && b < 256
    requires b > 0 ==> f.read(Addr(f, b)).Some?
  {
    if b == 0 then 35 else f.read(Addr(f, b)).value.id
  }

  /** Block b has to become a cell: its header is good and neither that of the interrupt nor
      that of the tail block, the table knows it or the filter does not skip unknown blocks,
      and the first child at its address, if there is one, neither is to be ignored nor
      expects another block. */
  ghost predicate Asks(f: Fpga, filter: bv32, b: nat)
    requires |f.sizes| == 256 && b < 255
  {
    && (b > 0 ==> f.read(Addr(f, b)).Some? && f.read(Addr(f, b)).value.magic == 0xc15c_0595 && IdOf(f, b) !in {38, 255})
    && (Listed(KNOWN, IdOf(f, b), filter) || !Share(PASSIVE, filter))
    && forall j: nat :: FirstAt(f.children, Addr(f, b), j) ==>
         !f.children[j].ignoreCell && f.children[j].blockId in {None, Some(IdOf(f, b))}
  }

  /** x is the id for the cell of block b: that of the first child at its address, but AUTO
      without one, and for a block that the table does not know. */
  ghost predicate OwnId(f: Fpga, filter: bv32, b: nat, x: int)
    requires |f.sizes| == 256 && b < 255 && (b > 0 ==> f.read(Addr(f, b)).Some?)
  {
    if !Listed(KNOWN, IdOf(f, b), filter) || NoneAt(f.children, Addr(f, b)) then x == AUTO
    else exists j: nat :: FirstAt(f.children, Addr(f, b), j) && x == f.children[j].id
  }

  /** n is the name for a cell at adr of a row with the given name: the first child's, or the
      row's followed by the child's suffix, cut to 19 characters, or the row's alone. */
  ghost predicate OwnName(children: seq<Child>, adr: nat, row: string, n: string) {
    if NoneAt(children, adr) then n == row
    else
      exists j: nat :: FirstAt(children, adr, j) && n ==
        if children[j].name.Some? then children[j].name.value
        else if children[j].suffix.None? then row
        else if |row + children[j].suffix.value| <= 19 then row + children[j].suffix.value
        else (row + children[j].suffix.value)[..19]
  }

  /** Cell c is what block blk at adr becomes: AUTO for a block without an id of its own, or
      with a name for user space, or without a child; else with the first child's id. */
  ghost predicate Becomes(children: seq<Child>, blk: Blk, adr: nat, c: Cell)
    requires blk.name.Some?
  {
    var name := blk.name.value;
    && c.adr == adr && OwnName(children, adr, name, c.name)
    && if blk.id == 0 || (exists i: nat :: StandsAt(name, "-uio", i)) || NoneAt(children, adr)
       then c.id == AUTO
       else exists j: nat :: FirstAt(children, adr, j) && c.id == children[j].id
  }

  lemma CellBecomes(children: seq<Child>, blk: Blk, adr: nat, max: nat, first: nat)
    requires blk.name.Some?
    ensures Becomes(children, blk, adr, CellOf(children, blk, adr, max, first))
  {
    var j := FirstChildIs(children, adr);
    NameIsOwn(children, adr, blk.name.value);
    UioAt(blk.name.value);
    hide FirstChild, Contains, StandsAt, CellName, OwnName, Lines, FirstAt;
  }

  lemma UioAt(s: string)
    ensures Contains(s, "-uio") <==> exists i: nat :: StandsAt(s, "-uio", i)
  {
    if Contains(s, "-uio") {
      var i := ContainsAt(s, "-uio");
    }
    if exists i: nat :: StandsAt(s, "-uio", i) {
      var i: nat :| StandsAt(s, "-uio", i);
      ContainsIfAt(s, "-uio", i);
    }
  }

  lemma NameIsOwn(children: seq<Child>, adr: nat, row: string)
    ensures OwnName(children, adr, row, CellName(children, adr, row))
  {
    var j := FirstChildIs(children, adr);
    hide FirstChild;
    if FirstChild(children, adr).Some? {
      assert FirstAt(children, adr, j);
    }
  }

  lemma OnlyFirst(children: seq<Child>, adr: nat, j: nat, k: nat)
    requires FirstAt(children, adr, j) && FirstAt(children, adr, k)
    ensures j == k
  {
  }

  lemma RefusedExactly(children: seq<Child>, adr: nat, id: nat)
    ensures Refused(children, adr, id) <==>
            exists j: nat ::
              FirstAt(children, adr, j) && (children[j].ignoreCell || children[j].blockId !in {None, Some(id)})
  {
    var i := FirstChildIs(children, adr);
    hide FirstChild;
    forall j: nat | FirstAt(children, adr, j)
      ensures FirstChild(children, adr) == Some(children[j])
    {
      if FirstChild(children, adr).Some? { OnlyFirst(children, adr, i, j); }
    }
  }

  lemma NamedExactly(id: nat, filter: bv32)
    ensures MatchOf(id, filter).name.Some? <==> Listed(KNOWN, id, filter) || !Share(PASSIVE, filter)
  {
    hide Listed, Fits;
    NamelessExactly(id, filter);
    FirstIsFound(KNOWN, id, filter, FirstFit(id, filter, 0));
    FallbackNames(0);
  }

  lemma AsksExactly(f: Fpga, filter: bv32, b: nat)
    requires f.Valid() && f.rows == Rows(filter) && b < 255
    ensures VerdictOf(f, b).CellFor? <==> Asks(f, filter, b)
  {
    hide Listed, Share, MatchOf, Refused, FirstAt;
    assert Addr(f, 0) == 0;
    hide Addr;
    if b > 0 ==> f.read(Addr(f, b)).Some? {
      NamedExactly(IdOf(f, b), filter);
      RefusedExactly(f.children, Addr(f, b), IdOf(f, b));
    }
    InfoHasName(filter);
    assert b == 0 ==> (VerdictOf(f, b).CellFor? <==> !Refused(f.children, 0, 35));
  }

  /** The row that block b is matched with. */
  lemma RowOf(f: Fpga, filter: bv32, b: nat)
    requires f.Valid() && f.rows == Rows(filter) && b < 255 && VerdictOf(f, b).CellFor?
    ensures b > 0 ==> f.read(Addr(f, b)).Some?
    ensures VerdictOf(f, b).blk == MatchOf(IdOf(f, b), filter) && VerdictOf(f, b).blk.name.Some?
    ensures IsMatch(IdOf(f, b), filter, VerdictOf(f, b).blk)
  {
    hide MatchOf, IsMatch, Refused, Addr;
    MatchIsFound(IdOf(f, b), filter);
  }

  lemma OwnIdExactly(f: Fpga, filter: bv32, b: nat, x: int)
    requires f.Valid() && f.rows == Rows(filter) && b < 255 && VerdictOf(f, b).CellFor?
    ensures b > 0 ==> f.read(Addr(f, b)).Some?
    ensures OwnId(f, filter, b, x) <==> x == AskedId(f, b)
  {
    RowOf(f, filter, b);
    AutoExactly(IdOf(f, b), filter);
    hide Listed, MatchOf, IsMatch, AlwaysAuto, Addr, VerdictOf, FirstChild, IdOf;
    var j := FirstChildIs(f.children, Addr(f, b));
    forall k: nat | FirstAt(f.children, Addr(f, b), k)
      ensures FirstChild(f.children, Addr(f, b)) == Some(f.children[k])
    {
      if FirstChild(f.children, Addr(f, b)).Some? { OnlyFirst(f.children, Addr(f, b), j, k); }
    }
  }

  // -------------------------------------------------------- the whole table

  /** The sum of the sizes. */
  function Total(sizes: seq<nat>): nat {
    if sizes == [] then 0 else sizes[0] + Total(sizes[1..])
  }

  lemma {:induction false} TotalAppend(sizes: seq<nat>, x: nat)
    ensures Total(sizes + [x]) == Total(sizes) + x
  {
    if sizes != [] {
      TotalAppend(sizes[1..], x);
      assert (sizes + [x])[1..] == sizes[1..] + [x];
    }
  }

  /** A block starts where the sizes before it, in units of 256 bytes, add up to. */
  lemma {:induction false} AddrIsTotal(f: Fpga, b: nat)
    requires |f.sizes| == 256 && b <= 256
    ensures Addr(f, b) == 256 * Total(f.sizes[..b])
  {
    if b > 0 {
      AddrIsTotal(f, b - 1);
      TotalAppend(f.sizes[..b - 1], f.sizes[b - 1]);
      assert f.sizes[..b] == f.sizes[..b - 1] + [f.sizes[b - 1]];
    }
  }

  /** Cell k stands where block b does and covers exactly its size; a block without a size at
      the very start covers everything. */
  ghost predicate Placed(f: Fpga, v: Image, k: nat, b: nat)
    requires |f.sizes| == 256 && b < 255 && k < |v.cells| == |v.matches|
  {
    var start, size := 256 * Total(f.sizes[..b]), 256 * f.sizes[b];
    && v.cells[k].adr == v.matches[k] == start
    && Range(v, k) == Mem(start, if start + size > 0 then start + size - 1 else 0xffff_ffff_ffff_ffff)
  }

  /** Another cell has the name of cell k and the same own id. */
  ghost predicate Twin(f: Fpga, filter: bv32, v: Image, src: seq<nat>, k: nat, own: int)
    requires |f.sizes| == 256 && k < |src| == |v.cells|
    requires forall l :: 0 <= l < |src| ==> src[l] < 255 && (src[l] > 0 ==> f.read(Addr(f, src[l])).Some?)
  {
    exists l :: 0 <= l < |src| && l != k && v.cells[l].name == v.cells[k].name && OwnId(f, filter, src[l], own)
  }

  /** Cell k is named, numbered, placed and given interrupt lines as its block asks: it has its
      own id, but AUTO if another cell of that name has the same own id. */
  ghost predicate Identified(f: Fpga, filter: bv32, max: nat, v: Image, src: seq<nat>, k: nat)
    requires |f.sizes| == 256 && k < |src| == |v.cells| == |v.matches|
    requires forall l :: 0 <= l < |src| ==> src[l] < 255 && (src[l] > 0 ==> f.read(Addr(f, src[l])).Some?)
    requires 1 <= v.cells[k].num && v.cells[k].first + v.cells[k].num <= |v.res|
  {
    && (exists blk ::
          IsMatch(IdOf(f, src[k]), filter, blk) && blk.name.Some?
          && OwnName(f.children, Addr(f, src[k]), blk.name.value, v.cells[k].name)
          && LinesOf(blk, Interrupts(v, k), max))
    && (exists own: int ::
          OwnId(f, filter, src[k], own) && v.cells[k].id == if Twin(f, filter, v, src, k, own) then AUTO else own)
    && Placed(f, v, k, src[k])
  }

  /** The cells are those of the blocks before the stop that ask for one, each identified. */
  ghost predicate AllIdentified(f: Fpga, filter: bv32, max: nat, v: Image, src: seq<nat>, stop: nat) {
    && |f.sizes| == 256 && stop <= 255 && |src| == |v.cells| == |v.matches|
    && (forall b :: 0 <= b < stop ==> (b in src <==> Asks(f, filter, b)))
    && (forall l :: 0 <= l < |src| ==> src[l] < stop && (src[l] > 0 ==> f.read(Addr(f, src[l])).Some?))
    && forall k :: 0 <= k < |src| ==>
         1 <= v.cells[k].num && v.cells[k].first + v.cells[k].num <= |v.res| && Identified(f, filter, max, v, src, k)
  }

  lemma CellIsPlaced(f: Fpga, max: nat, v: Image, k: nat, b: nat)
    requires f.Valid() && k < |v.cells| == |v.matches| && CellSound(f, max, v, k, b)
    ensures Placed(f, v, k, b)
  {
    hide VerdictOf, CellName, LinesOf, Interrupts;
    AddrIsTotal(f, b);
    AddrIsTotal(f, b + 1);
    assert f.sizes[..b + 1] == f.sizes[..b] + [f.sizes[b]];
    TotalAppend(f.sizes[..b], f.sizes[b]);
    hide Total, Addr;
    MemEnd(f, b);
  }

  lemma CellIsNamed(f: Fpga, filter: bv32, max: nat, v: Image, k: nat, b: nat)
    requires f.Valid() && f.rows == Rows(filter)
    requires k < |v.cells| == |v.matches| && CellSound(f, max, v, k, b)
    ensures b > 0 ==> f.read(Addr(f, b)).Some?
    ensures exists blk ::
              IsMatch(IdOf(f, b), filter, blk) && blk.name.Some?
              && OwnName(f.children, Addr(f, b), blk.name.value, v.cells[k].name)
              && LinesOf(blk, Interrupts(v, k), max)
  {
    RowOf(f, filter, b);
    hide VerdictOf, CellName, LinesOf, Interrupts, OwnName, IsMatch, Addr, Range, MatchOf;
    NameIsOwn(f.children, Addr(f, b), VerdictOf(f, b).blk.name.value);
  }

  lemma TwinIsRival(f: Fpga, filter: bv32, v: Image, src: seq<nat>, k: nat)
    requires f.Valid() && f.rows == Rows(filter) && k < |src| == |v.cells|
    requires forall l :: 0 <= l < |src| ==> src[l] < 255 && VerdictOf(f, src[l]).CellFor?
    ensures forall l :: 0 <= l < |src| ==> src[l] > 0 ==> f.read(Addr(f, src[l])).Some?
    ensures OwnId(f, filter, src[k], AskedId(f, src[k]))
    ensures Twin(f, filter, v, src, k, AskedId(f, src[k])) <==> Rivalled(f, v, src, k)
  {
    hide VerdictOf, OwnId, AskedId, Addr;
    var own := AskedId(f, src[k]);
    forall l | 0 <= l < |src|
      ensures src[l] > 0 ==> f.read(Addr(f, src[l])).Some?
      ensures OwnId(f, filter, src[l], own) <==> own == AskedId(f, src[l])
    {
      OwnIdExactly(f, filter, src[l], own);
    }
  }

  lemma CellIsIdentified(f: Fpga, filter: bv32, max: nat, v: Image, src: seq<nat>, stop: nat, k: nat)
    requires f.Valid() && f.rows == Rows(filter) && ImageSound(f, max, v, src, stop) && k < |src|
    ensures forall l :: 0 <= l < |src| ==> src[l] < 255 && (src[l] > 0 ==> f.read(Addr(f, src[l])).Some?)
    ensures 1 <= v.cells[k].num && v.cells[k].first + v.cells[k].num <= |v.res|
    ensures Identified(f, filter, max, v, src, k)
  {
    hide VerdictOf, OwnId, AskedId, Addr, Placed, LinesOf, Interrupts, OwnName, IsMatch, Twin, Rivalled,
         RangesAscend, SlicesDisjoint, Unambiguous, Range, CellName;
    CellIsNamed(f, filter, max, v, k, src[k]);
    CellIsPlaced(f, max, v, k, src[k]);
    TwinIsRival(f, filter, v, src, k);
  }

  lemma SourcesAsk(f: Fpga, filter: bv32, max: nat, v: Image, src: seq<nat>, stop: nat)
    requires f.Valid() && f.rows == Rows(filter) && ImageSound(f, max, v, src, stop)
    ensures forall b :: 0 <= b < stop ==> (b in src <==> Asks(f, filter, b))
  {
    hide VerdictOf, Asks, IdsAsAsked, RangesAscend, SlicesDisjoint, Unambiguous, CellName, LinesOf;
    forall b | 0 <= b < stop
      ensures b in src <==> Asks(f, filter, b)
    {
      AsksExactly(f, filter, b);
    }
  }

  /** Of every image that the builder returns under a filter. */
  lemma ResultIsIdentified(f: Fpga, filter: bv32, max: nat, v: Image, src: seq<nat>, stop: nat)
    requires f.Valid() && f.rows == Rows(filter) && ImageSound(f, max, v, src, stop)
    ensures AllIdentified(f, filter, max, v, src, stop)
  {
    SourcesAsk(f, filter, max, v, src, stop);
    forall k | 0 <= k < |src|
      ensures src[k] > 0 ==> f.read(Addr(f, src[k])).Some?
      ensures 1 <= v.cells[k].num && v.cells[k].first + v.cells[k].num <= |v.res|
    {
      hide VerdictOf, Addr, CellName, LinesOf, RangesAscend, SlicesDisjoint, Unambiguous;
      RowOf(f, filter, src[k]);
    }
    hide CellSound, IdsAsAsked, RangesAscend, SlicesDisjoint, Unambiguous, Identified, Asks, VerdictOf;
    forall k | 0 <= k < |src|
      ensures Identified(f, filter, max, v, src, k)
    {
      CellIsIdentified(f, filter, max, v, src, stop, k);
    }
  }
}
