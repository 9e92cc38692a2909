/** The table of known IP blocks and the search in it. */
module MfdBlocks {
  import opened Options

  /** One table row.  The interrupt lines are the bit positions set in irq_set. */
  datatype Blk = Blk(id: nat, name: Option<string>, numIrqs: nat, irqSet: set<nat>, filter: bv32)

  const PCI: bv32 := 1
  const REGMAP: bv32 := 2
  const PASSIVE: bv32 := 4

  const INFO_ID: nat := 35
  const INTR_ID: nat := 38
  const TAIL_ID: nat := 255

  /** Rows with an id, then the fallback rows, the last of which has no filter. */
  const KNOWN: seq<Blk> := [
    Blk(7, Some("mdio"), 0, {}, PCI | REGMAP),
    Blk(8, Some("i2c-pex"), 0, {}, REGMAP),
    Blk(11, Some("spi"), 1, {0}, PCI),
    Blk(25, Some("led-ng"), 0, {}, REGMAP),
    Blk(33, Some("wdt"), 1, {1}, PCI),
    Blk(33, Some("wdt"), 0, {}, REGMAP),
    Blk(34, Some("uxbar"), 1, {2}, REGMAP | PASSIVE),
    Blk(35, Some("info"), 0, {}, REGMAP | PASSIVE),
    Blk(37, Some("gpio"), 1, {3}, PCI),
    Blk(37, Some("gpio"), 0, {}, REGMAP),
    Blk(50, Some("poller"), 0, {}, PCI),
    Blk(57, Some("xil"), 0, {}, PCI | REGMAP | PASSIVE),
    Blk(59, Some("spi"), 1, {4}, PCI),
    Blk(72, Some("i2c-smb"), 0, {}, PCI | REGMAP),
    Blk(80, Some("i2c-ext"), 0, {}, REGMAP),
    Blk(89, Some("pseq"), 0, {}, PCI | REGMAP | PASSIVE),
    Blk(93, Some("p2pm-m"), 1, {5}, PCI),
    Blk(94, Some("p2pm-s"), 0, {}, REGMAP | PASSIVE),
    Blk(96, Some("pwm"), 0, {}, REGMAP),
    Blk(98, Some("bmc-led"), 0, {}, REGMAP),
    Blk(99, Some("msd"), 0, {}, REGMAP),
    Blk(104, Some("fs"), 0, {}, PCI | PASSIVE | REGMAP),
    Blk(105, Some("rptime"), 0, {}, REGMAP),
    Blk(111, Some("cspi"), 0, {}, REGMAP | PCI),
    Blk(123, Some("misc-intrs"), 0, {}, REGMAP),
    Blk(124, Some("bmc-uart"), 0, {}, REGMAP),
    Blk(125, Some("lrstr"), 0, {}, REGMAP | PASSIVE),
    Blk(132, Some("led"), 0, {}, PCI),
    Blk(133, Some("i2c-pex-tod"), 0, {}, PCI),
    Blk(138, Some("retimer-dl"), 0, {}, PCI | REGMAP),
    Blk(140, Some("bmc-p2pm-m-lite"), 0, {}, REGMAP),
    Blk(152, Some("pzctl"), 0, {}, PCI | PASSIVE | REGMAP),
    Blk(166, Some("slpc-m"), 1, {6}, PCI | REGMAP),
    Blk(167, Some("slpc-s"), 0, {}, REGMAP)
  ]

  const FALLBACK: seq<Blk> := [
    Blk(0, None, 0, {}, PASSIVE),
    Blk(0, Some("cisco-fpga-uio"), 0, {}, PCI),
    Blk(0, Some("cisco-bmc-uio"), 0, {}, REGMAP),
    Blk(0, Some("cisco-unknown-uio"), 0, {}, 0)
  ]

  /** The row made up for the interrupt block. */
  const IRQ_BLK: Blk := Blk(INTR_ID, Some("intr"), 0, {}, 0)

  /** What the arena sizes and the interrupt numbering rely on. */
  predicate Sound(b: Blk) {
    b.numIrqs <= 1 && |b.irqSet| == b.numIrqs && forall bit :: bit in b.irqSet ==> bit < 10
  }

  lemma TableIsSound()
    ensures forall i :: 0 <= i < |KNOWN| ==>
              Sound(KNOWN[i]) && KNOWN[i].id != 0 && KNOWN[i].name.Some?
              && KNOWN[i].id !in {INTR_ID, TAIL_ID}
    ensures forall i :: 0 <= i < |FALLBACK| ==> Sound(FALLBACK[i]) && FALLBACK[i].id == 0
  {
  }

  predicate Passes(b: Blk, filter: bv32) {
    b.filter & filter != 0
  }

  predicate Fits(b: Blk, id: nat, filter: bv32) {
    b.id == id && Passes(b, filter)
  }

  /** Position of the first known row at or after i that fits, or the end. */
  function FirstFit(id: nat, filter: bv32, i: nat): (k: nat)
    requires i <= |KNOWN|
    ensures i <= k <= |KNOWN|
    ensures k < |KNOWN| ==> Fits(KNOWN[k], id, filter)
    ensures forall j :: i <= j < k ==> !Fits(KNOWN[j], id, filter)
    decreases |KNOWN| - i, id
  {
    if i == |KNOWN| || Fits(KNOWN[i], id, filter) then i else FirstFit(id, filter, i + 1)
  }

  /** Position of the first fallback row at or after i that passes, or the last row. */
  function FirstFallback(filter: bv32, i: nat): (k: nat)
    requires i < |FALLBACK|
    ensures i <= k < |FALLBACK|
    ensures k < |FALLBACK| - 1 ==> Passes(FALLBACK[k], filter)
    ensures forall j :: i <= j < k ==> !Passes(FALLBACK[j], filter)
    decreases |FALLBACK| - i, filter
  {
    if i == |FALLBACK| - 1 || Passes(FALLBACK[i], filter) then i else FirstFallback(filter, i + 1)
  }

  /** The row for a block id, or a made-up row from the fallbacks. */
  function MatchOf(id: nat, filter: bv32): (b: Blk)
    ensures b.id == id && Sound(b)
  {
    TableIsSound();
    var k := FirstFit(id, filter, 0);
    if k < |KNOWN| then KNOWN[k] else FALLBACK[FirstFallback(filter, 0)].(id := id)
  }

  /** Two sets of filter flags have one in common. */
  predicate Share(a: bv32, b: bv32) {
    a & b != 0
  }

  /** Some row has this id and one of the caller's flags. */
  ghost predicate Listed(rows: seq<Blk>, id: nat, filter: bv32) {
    exists k :: 0 <= k < |rows| && rows[k].id == id && Share(rows[k].filter, filter)
  }

  /** It is the first such row. */
  ghost predicate IsFirst(rows: seq<Blk>, id: nat, filter: bv32, blk: Blk) {
    exists k :: 0 <= k < |rows| && blk == rows[k] && blk.id == id && Share(blk.filter, filter)
                && forall j :: 0 <= j < k ==> rows[j].id != id || !Share(rows[j].filter, filter)
  }

  /** It is the first row with one of the caller's flags, or the last row, under the id asked for. */
  ghost predicate IsFallback(rows: seq<Blk>, id: nat, filter: bv32, blk: Blk) {
    exists k :: 0 <= k < |rows| && blk == rows[k].(id := id)
                && (k == |rows| - 1 || Share(rows[k].filter, filter))
                && forall j :: 0 <= j < k ==> !Share(rows[j].filter, filter)
  }

  /** What the search has to find. */
  ghost predicate IsMatch(id: nat, filter: bv32, blk: Blk) {
    if Listed(KNOWN, id, filter) then IsFirst(KNOWN, id, filter, blk) else IsFallback(FALLBACK, id, filter, blk)
  }

  lemma FirstIsFound(rows: seq<Blk>, id: nat, filter: bv32, k: nat)
    requires k <= |rows| && (k < |rows| ==> Fits(rows[k], id, filter))
    requires forall j :: 0 <= j < k ==> !Fits(rows[j], id, filter)
    ensures Listed(rows, id, filter) <==> k < |rows|
    ensures k < |rows| ==> IsFirst(rows, id, filter, rows[k])
  {
    forall j | 0 <= j < |rows|
      ensures Fits(rows[j], id, filter) <==> rows[j].id == id && Share(rows[j].filter, filter)
    {
    }
    hide Fits, Share;
  }

  lemma FallbackIsFound(rows: seq<Blk>, id: nat, filter: bv32, k: nat)
    requires k < |rows| && (k < |rows| - 1 ==> Passes(rows[k], filter))
    requires forall j :: 0 <= j < k ==> !Passes(rows[j], filter)
    ensures IsFallback(rows, id, filter, rows[k].(id := id))
  {
    forall j | 0 <= j < |rows|
      ensures Passes(rows[j], filter) <==> Share(rows[j].filter, filter)
    {
    }
    hide Passes, Share;
  }

  lemma MatchIsFound(id: nat, filter: bv32)
    ensures IsMatch(id, filter, MatchOf(id, filter))
  {
    hide Listed, IsFirst, IsFallback, Fits, Passes;
    FirstIsFound(KNOWN, id, filter, FirstFit(id, filter, 0));
    FallbackIsFound(FALLBACK, id, filter, FirstFallback(filter, 0));
  }

  lemma FallbackNames(k: nat)
    requires k < |FALLBACK|
    ensures FALLBACK[k].name.None? <==> k == 0
    ensures FALLBACK[0].filter == PASSIVE
  {
  }

  lemma KnownNames(k: nat)
    requires k < |KNOWN|
    ensures KNOWN[k].name.Some?
  {
    TableIsSound();
  }

  lemma InfoRow()
    ensures |KNOWN| > 7 && KNOWN[7].id == INFO_ID && KNOWN[7].filter == REGMAP | PASSIVE
  {
  }

  lemma PassiveInfo(a: bv32, b: bv32, filter: bv32)
    requires a & filter != 0 && b == REGMAP | a
    ensures b & filter != 0
  {
  }

  /** A block is left without a name exactly when no row knows it under this filter and
      the filter asks for a passive slot. */
  lemma NamelessExactly(id: nat, filter: bv32)
    ensures MatchOf(id, filter).name.None? <==> FirstFit(id, filter, 0) == |KNOWN| && Passes(FALLBACK[0], filter)
  {
    var k := FirstFit(id, filter, 0);
    if k < |KNOWN| {
      KnownNames(k);
    } else {
      FallbackNames(FirstFallback(filter, 0));
    }
  }

  /** The info block always has a name. */
  lemma InfoHasName(filter: bv32)
    ensures MatchOf(INFO_ID, filter).name.Some?
  {
    NamelessExactly(INFO_ID, filter);
    InfoRow();
    if Passes(FALLBACK[0], filter) {
      FallbackNames(0);
      PassiveInfo(FALLBACK[0].filter, KNOWN[7].filter, filter);
      assert Fits(KNOWN[7], INFO_ID, filter);
    }
  }

  /** What the block walk needs of a row lookup. */
  ghost predicate SoundRows(rows: nat -> Blk) {
    (forall id :: rows(id).id == id && Sound(rows(id))) && rows(INFO_ID).name.Some?
  }

  /** The lookup in the table under a filter. */
  function Rows(filter: bv32): nat -> Blk {
    (id: nat) => MatchOf(id, filter)
  }

  lemma RowsAreSound(filter: bv32)
    ensures SoundRows(Rows(filter))
  {
    InfoHasName(filter);
  }

  /** cisco_fpga_blk_match */
  method BlkMatch(id: nat, filter: bv32) returns (blk: Blk)
    ensures blk == Rows(filter)(id)
    ensures IsMatch(id, filter, blk)
  {
    hide Listed, IsFirst, IsFallback, IsMatch;
    TableIsSound();
    MatchIsFound(id, filter);
    var i := 0;
    while i < |KNOWN|
      invariant i <= |KNOWN| && FirstFit(id, filter, i) == FirstFit(id, filter, 0)
    {
      if Fits(KNOWN[i], id, filter) {
        return KNOWN[i];
      }
      i := i + 1;
    }
    i := 0;
    while i < |FALLBACK| - 1
      invariant i < |FALLBACK| && FirstFallback(filter, i) == FirstFallback(filter, 0)
    {
      if Passes(FALLBACK[i], filter) { break; }
      i := i + 1;
    }
    blk := FALLBACK[i].(id := id);
  }
}
