/**
 The bit-field layer: fields of a 32-bit register, given by their highest and lowest bit.
 Bit positions are at most 31, widths at most 32, so both are 6-bit numbers here.
 */
module BitFields {
  const TOP: bv6 := 31

  predicate IsField(hi: bv6, lo: bv6) {
    lo <= hi <= TOP
  }

  function Ones(width: bv6): bv32
    requires 1 <= width <= 32
  {
    if width == 32 then 0xffff_ffff else (1 << width) - 1
  }

  /** _reg_mask */
  function Mask(hi: bv6, lo: bv6): bv32
    requires IsField(hi, lo)
  {
    Ones(hi - lo + 1)
  }

  /** _reg_mask_lo */
  function MaskLo(hi: bv6, lo: bv6): bv32
    requires IsField(hi, lo)
  {
    Mask(hi, lo) << lo
  }

  /** _reg_get */
  function Get(d: bv32, hi: bv6, lo: bv6): bv32
    requires IsField(hi, lo)
  {
    (d >> lo) & Mask(hi, lo)
  }

  /** _reg_set */
  function Set(d: bv32, hi: bv6, lo: bv6): bv32
    requires IsField(hi, lo)
  {
    (d & Mask(hi, lo)) << lo
  }

  /** _reg_replace */
  function Replace(v: bv32, d: bv32, hi: bv6, lo: bv6): bv32
    requires IsField(hi, lo)
  {
    var mask := MaskLo(hi, lo);
    (v & !mask) | ((d << lo) & mask)
  }

  /** regmap_update_bits, on the register's old value. */
  function UpdateBits(v: bv32, mask: bv32, val: bv32): bv32 {
    (v & !mask) | (val & mask)
  }

  predicate Disjoint(hi: bv6, lo: bv6, hi': bv6, lo': bv6) {
    hi < lo' || hi' < lo
  }

  // ------------------------------------------------------------ which bits a field has

  /** The field's mask has exactly the bits from lo to hi. */
  lemma MaskLoBits(hi: bv6, lo: bv6, i: bv6)
    requires IsField(hi, lo) && i <= TOP
    ensures MaskLo(hi, lo) & (1 << i) != 0 <==> lo <= i <= hi
  {
  }

  lemma OnesSmall(width: bv6)
    requires 1 <= width <= TOP
    ensures Ones(width) << 0 < 1 << width
  {
  }

  lemma UpStep(x: bv32, lo: bv6)
    requires 0 < lo <= TOP
    ensures x << lo == (x << (lo - 1)) << 1
  {
  }

  lemma DoubleBelow(x: bv32, k: bv6)
    requires k < TOP && x < 1 << k
    ensures x << 1 < 1 << (k + 1)
  {
  }

  lemma {:induction false} OnesBelow(width: bv6, lo: bv6)
    requires 1 <= width <= TOP && lo <= TOP && width + lo <= TOP
    ensures Ones(width) << lo < 1 << (lo + width)
    decreases lo
  {
    hide Ones;
    if lo == 0 {
      OnesSmall(width);
    } else {
      OnesBelow(width, lo - 1);
      UpStep(Ones(width), lo);
      DoubleBelow(Ones(width) << (lo - 1), lo - 1 + width);
    }
  }

  lemma MaskBelowNext(hi: bv6, lo: bv6)
    requires lo <= hi < TOP
    ensures MaskLo(hi, lo) < 1 << (hi + 1)
  {
    hide Ones;
    OnesBelow(hi - lo + 1, lo);
  }

  function ShlOne(k: bv6): bv32
    requires k <= TOP
  {
    1 << k
  }

  lemma ShlOneMonotone(j: bv6, k: bv6)
    requires j <= k <= TOP
    ensures ShlOne(j) <= ShlOne(k)
  {
  }

  lemma NothingBelow(x: bv32, k: bv6, y: bv32)
    requires k <= TOP && y < ShlOne(k)
    ensures (x << k) & y == 0
  {
  }

  lemma MaskBelow(hi: bv6, lo: bv6, k: bv6)
    requires lo <= hi < k <= TOP
    ensures MaskLo(hi, lo) < ShlOne(k)
  {
    hide MaskLo;
    MaskBelowNext(hi, lo);
    ShlOneMonotone(hi + 1, k);
  }

  lemma NoCommonBits(hi: bv6, lo: bv6, hi': bv6, lo': bv6, m: bv32, m': bv32)
    requires IsField(hi, lo) && IsField(hi', lo') && hi < lo' && m == MaskLo(hi, lo) && m' == Mask(hi', lo')
    ensures m & (m' << lo') == 0
  {
    hide Mask, MaskLo, ShlOne;
    MaskBelow(hi, lo, lo');
    NothingBelow(m', lo', m);
  }

  lemma MasksDisjoint(hi: bv6, lo: bv6, hi': bv6, lo': bv6)
    requires IsField(hi, lo) && IsField(hi', lo') && hi < lo'
    ensures MaskLo(hi, lo) & MaskLo(hi', lo') == 0
  {
    hide Mask, ShlOne;
    NoCommonBits(hi, lo, hi', lo', MaskLo(hi, lo), Mask(hi', lo'));
  }

  // ------------------------------------------------------------ one field

  lemma SetIs(d: bv32, hi: bv6, lo: bv6)
    requires IsField(hi, lo)
    ensures Set(d, hi, lo) == (d << lo) & MaskLo(hi, lo)
  {
    hide Mask;
  }

  lemma SetShifts(d: bv32, hi: bv6, lo: bv6)
    requires IsField(hi, lo)
    ensures (d & Mask(hi, lo)) << lo == (d << lo) & MaskLo(hi, lo)
  {
    hide Mask;
  }

  /** A get is told by shifting it back into place. */
  lemma GetIs(x: bv32, d: bv32, y: bv32, hi: bv6, lo: bv6)
    requires IsField(hi, lo)
    requires y == d & Mask(hi, lo) && y << lo == x & MaskLo(hi, lo)
    ensures Get(x, hi, lo) == y
  {
  }

  lemma Merged(v: bv32, x: bv32, ml: bv32, r: bv32)
    requires r == (v & !ml) | (x & ml)
    ensures r & ml == x & ml && r & !ml == v & !ml
  {
  }

  lemma GetOfMerged(v: bv32, d: bv32, x: bv32, ml: bv32, r: bv32, y: bv32, hi: bv6, lo: bv6)
    requires IsField(hi, lo) && y == d & Mask(hi, lo) && ml == MaskLo(hi, lo)
    requires r == (v & !ml) | (x & ml) && y << lo == x & ml
    ensures Get(r, hi, lo) == y && r & !ml == v & !ml
  {
    hide Get, Mask, MaskLo;
    Merged(v, x, ml, r);
    GetIs(r, d, y, hi, lo);
  }

  lemma GetOfReplaced(v: bv32, d: bv32, x: bv32, ml: bv32, r: bv32, y: bv32, hi: bv6, lo: bv6)
    requires IsField(hi, lo) && y == d & Mask(hi, lo) && ml == MaskLo(hi, lo)
    requires x == d << lo && r == (v & !ml) | (x & ml)
    ensures Get(r, hi, lo) == y && r & !ml == v & !ml
  {
    hide Get, Mask, MaskLo;
    SetShifts(d, hi, lo);
    GetOfMerged(v, d, x, ml, r, y, hi, lo);
  }

  lemma ReplaceNamed(v: bv32, d: bv32, x: bv32, ml: bv32, r: bv32, y: bv32, hi: bv6, lo: bv6)
    requires IsField(hi, lo) && y == d & Mask(hi, lo) && ml == MaskLo(hi, lo)
    requires x == d << lo && r == Replace(v, d, hi, lo)
    ensures Get(r, hi, lo) == y && r & !ml == v & !ml
  {
    hide Get, Mask, MaskLo;
    GetOfReplaced(v, d, x, ml, r, y, hi, lo);
  }

  lemma ReplaceReads(v: bv32, d: bv32, r: bv32, y: bv32, hi: bv6, lo: bv6)
    requires IsField(hi, lo) && r == Replace(v, d, hi, lo) && y == d & Mask(hi, lo)
    ensures Get(r, hi, lo) == y && r & !MaskLo(hi, lo) == v & !MaskLo(hi, lo)
  {
    hide Get, Mask, MaskLo, Replace;
    ReplaceNamed(v, d, d << lo, MaskLo(hi, lo), r, y, hi, lo);
  }

  /** What was put in is read back, as far as it fits the field. */
  lemma GetAfterReplace(v: bv32, d: bv32, hi: bv6, lo: bv6)
    requires IsField(hi, lo)
    ensures Get(Replace(v, d, hi, lo), hi, lo) == d & Mask(hi, lo)
  {
    hide Get, Mask, Replace, MaskLo;
    ReplaceReads(v, d, Replace(v, d, hi, lo), d & Mask(hi, lo), hi, lo);
  }

  lemma FieldAndRest(v: bv32, w: bv32, hi: bv6, lo: bv6)
    requires IsField(hi, lo)
    requires Get(v, hi, lo) == Get(w, hi, lo) && v & !MaskLo(hi, lo) == w & !MaskLo(hi, lo)
    ensures v == w
  {
  }

  lemma ReplaceIsA(v: bv32, d: bv32, r: bv32, y: bv32, hi: bv6, lo: bv6, w: bv32)
    requires IsField(hi, lo) && r == Replace(v, d, hi, lo) && y == d & Mask(hi, lo)
    ensures w == r <==> Get(w, hi, lo) == y && w & !MaskLo(hi, lo) == v & !MaskLo(hi, lo)
  {
    hide Get, Mask, Replace, MaskLo;
    ReplaceReads(v, d, r, y, hi, lo);
    if Get(w, hi, lo) == y && w & !MaskLo(hi, lo) == v & !MaskLo(hi, lo) {
      FieldAndRest(w, r, hi, lo);
    }
  }

  /** The meaning of a replace: it is the one word whose field reads the masked value and
      whose other bits are those of the old word. */
  lemma ReplaceIsTheWord(v: bv32, d: bv32, hi: bv6, lo: bv6, w: bv32)
    requires IsField(hi, lo)
    ensures w == Replace(v, d, hi, lo) <==>
              Get(w, hi, lo) == d & Mask(hi, lo) && w & !MaskLo(hi, lo) == v & !MaskLo(hi, lo)
  {
    hide Get, Mask, Replace, MaskLo;
    ReplaceIsA(v, d, Replace(v, d, hi, lo), d & Mask(hi, lo), hi, lo, w);
  }

  lemma ReplaceByItself(v: bv32, hi: bv6, lo: bv6)
    requires IsField(hi, lo)
    ensures Replace(v, Get(v, hi, lo), hi, lo) == v
  {
  }

  lemma GetIsMasked(v: bv32, hi: bv6, lo: bv6)
    requires IsField(hi, lo)
    ensures Get(v, hi, lo) & Mask(hi, lo) == Get(v, hi, lo)
  {
  }

  /** The bits of the mask are those of the value, and the others stay. */
  lemma UpdateBitsIs(v: bv32, mask: bv32, val: bv32, r: bv32)
    requires r == UpdateBits(v, mask, val)
    ensures r & mask == val & mask && r & !mask == v & !mask
  {
    Merged(v, val, mask, r);
  }

  /** regmap_update_bits with the field's mask and _reg_set is a replace. */
  lemma UpdateIsReplace(v: bv32, d: bv32, hi: bv6, lo: bv6)
    requires IsField(hi, lo)
    ensures UpdateBits(v, MaskLo(hi, lo), Set(d, hi, lo)) == Replace(v, d, hi, lo)
  {
    hide Mask, MaskLo, Set;
    SetIs(d, hi, lo);
  }

  // ------------------------------------------------------------ two fields

  lemma AscendingCommute(v: bv32, d: bv32, hi: bv6, lo: bv6, d': bv32, hi': bv6, lo': bv6)
    requires IsField(hi, lo) && IsField(hi', lo') && hi < lo'
    ensures Replace(Replace(v, d, hi, lo), d', hi', lo') == Replace(Replace(v, d', hi', lo'), d, hi, lo)
  {
    MasksDisjoint(hi, lo, hi', lo');
  }

  /** Replaces of disjoint fields commute. */
  lemma ReplacesCommute(v: bv32, d: bv32, hi: bv6, lo: bv6, d': bv32, hi': bv6, lo': bv6)
    requires IsField(hi, lo) && IsField(hi', lo') && Disjoint(hi, lo, hi', lo')
    ensures Replace(Replace(v, d, hi, lo), d', hi', lo') == Replace(Replace(v, d', hi', lo'), d, hi, lo)
  {
    hide Replace;
    if hi < lo' {
      AscendingCommute(v, d, hi, lo, d', hi', lo');
    } else {
      AscendingCommute(v, d', hi', lo', d, hi, lo);
    }
  }

  /** Replacing one field does not disturb a disjoint one. */
  lemma OtherFieldStays(v: bv32, d: bv32, hi: bv6, lo: bv6, hi': bv6, lo': bv6)
    requires IsField(hi, lo) && IsField(hi', lo') && Disjoint(hi, lo, hi', lo')
    ensures Get(Replace(v, d, hi, lo), hi', lo') == Get(v, hi', lo')
  {
    hide Get, Replace, Mask;
    var g := Get(v, hi', lo');
    ReplaceByItself(v, hi', lo');
    ReplacesCommute(v, d, hi, lo, g, hi', lo');
    GetAfterReplace(Replace(v, d, hi, lo), g, hi', lo');
    GetIsMasked(v, hi', lo');
  }
}
