/**
 The apply phase of config_store: a parsed request is matched against the pin's mem word,
 its fields are folded into cfg_stat, and the result is written back.
 */
module GpioConfig {
  import opened Options
  import opened BitFields
  import opened Bytes
  import GpioIndex

  // Tokens; those below ERROR are fields of cfg_stat, those from GROUP_ID on of mem[0].
  const INDEX := 0
  const DIR := 4
  const DIS_OUTPUT := 6
  const ERROR := 9
  const GROUP_ID := 10
  const PIN_COUNT := 11
  const GROUP_INSTANCE := 12
  const PIN_ID := 13
  const PIN_INSTANCE := 14
  const NAME := 15
  const TOKENS := 16

  datatype Span = Span(hi: bv6, lo: bv6)

  /** params[]; the tokens without a field have zero bounds there. */
  const PARAMS: seq<Span> := [
    Span(0, 0), Span(30, 28), Span(27, 26), Span(25, 25), Span(24, 24), Span(23, 20),
    Span(6, 6), Span(5, 5), Span(4, 4),
    Span(0, 0), Span(27, 16), Span(15, 8), Span(7, 0), Span(30, 8), Span(7, 0), Span(0, 0)]

  const IS_GROUP := Span(31, 31)
  const CLR_INT_ENB := Span(5, 5)
  const CLR_INT_STATE := Span(1, 1)
  const INPUT: bv32 := 0
  const TRISTATE: bv32 := 1

  /** mask and value[]: the value of each token given, an unsigned long. */
  type Request = r: seq<Option<bv64>> | |r| == TOKENS witness seq(TOKENS, _ => None)

  function FieldOf(t: nat): (s: Span)
    requires t < TOKENS
    ensures IsField(s.hi, s.lo)
  {
    PARAMS[t]
  }

  /** The field of token t, as read and as replaced. */
  function Read(v: bv32, t: nat): bv32
    requires t < TOKENS
  {
    Get(v, FieldOf(t).hi, FieldOf(t).lo)
  }

  function Low(x: bv64): bv32 {
    (x & 0xffff_ffff) as bv32
  }

  function Wide(x: bv32): bv64 {
    x as bv64
  }

  function Put(v: bv32, t: nat, x: bv64): bv32
    requires t < TOKENS
  {
    Replace(v, Low(x), FieldOf(t).hi, FieldOf(t).lo)
  }

  predicate Fits(t: nat, x: bv64)
    requires t < TOKENS
  {
    x <= Wide(Mask(FieldOf(t).hi, FieldOf(t).lo))
  }

  lemma MaskFits(x: bv64, hi: bv6, lo: bv6)
    requires IsField(hi, lo) && x <= Wide(Mask(hi, lo))
    ensures Low(x) & Mask(hi, lo) == Low(x) && Wide(Low(x)) == x
  {
  }

  lemma GetIsInRange(w: bv32, hi: bv6, lo: bv6)
    requires IsField(hi, lo)
    ensures Wide(Get(w, hi, lo)) <= Wide(Mask(hi, lo))
  {
  }

  /** A value is accepted for a field exactly when some word has it there. */
  lemma FitsExactly(t: nat, x: bv64)
    requires 0 < t < ERROR
    ensures Fits(t, x) <==> exists w :: Wide(Read(w, t)) == x
  {
    hide Get, Replace, Low, Wide, Mask, FieldOf;
    if Fits(t, x) {
      PutReads(0, t, x, t);
    }
    if exists w :: Wide(Read(w, t)) == x {
      var w :| Wide(Read(w, t)) == x;
      GetIsInRange(w, FieldOf(t).hi, FieldOf(t).lo);
    }
  }

  lemma ConfigFieldsDisjoint(t: nat, u: nat)
    requires 0 < t < ERROR && 0 < u < ERROR && t != u
    ensures Disjoint(FieldOf(t).hi, FieldOf(t).lo, FieldOf(u).hi, FieldOf(u).lo)
  {
  }

  // ----------------------------------------------------------------- the fold

  /** The fields of tokens t.. replaced one after the other; None when a value is too big. */
  function Fold(req: Request, v: bv32, t: nat): Option<bv32>
    requires t <= ERROR
    decreases ERROR - t
  {
    if t == ERROR then Some(v)
    else if req[t].None? then Fold(req, v, t + 1)
    else if !Fits(t, req[t].value) then None
    else Fold(req, Put(v, t, req[t].value), t + 1)
  }

  predicate InRange(req: Request, t: nat) {
    forall u :: t <= u < ERROR && req[u].Some? ==> Fits(u, req[u].value)
  }

  /** What a field reads after the fold: the value asked for, or what it read before. */
  function Wanted(req: Request, v: bv32, u: nat): bv64
    requires u < TOKENS
  {
    if req[u].Some? then req[u].value else Wide(Read(v, u))
  }

  lemma PutReads(v: bv32, t: nat, x: bv64, u: nat)
    requires 0 < t < ERROR && 0 < u < ERROR && Fits(t, x)
    ensures Wide(Read(Put(v, t, x), u)) == if u == t then x else Wide(Read(v, u))
  {
    hide Get, Replace, Low, Wide, Mask, FieldOf;
    var f, g := FieldOf(t), FieldOf(u);
    if u == t {
      GetAfterReplace(v, Low(x), f.hi, f.lo);
      MaskFits(x, f.hi, f.lo);
    } else {
      ConfigFieldsDisjoint(t, u);
      OtherFieldStays(v, Low(x), f.hi, f.lo, g.hi, g.lo);
    }
  }

  /** The fold succeeds exactly when every value fits its field; every field asked for then
      reads back its value, and every other of the eight fields what it read before. */
  lemma {:induction false} FoldReads(req: Request, v: bv32, t: nat, u: nat)
    requires 0 < t <= ERROR && 0 < u < ERROR
    ensures Fold(req, v, t).Some? <==> InRange(req, t)
    ensures InRange(req, t) ==>
              Wide(Read(Fold(req, v, t).value, u)) ==
              if t <= u then Wanted(req, v, u) else Wide(Read(v, u))
    decreases ERROR - t
  {
    hide Read, Put, Wide, Fits;
    if t < ERROR {
      if req[t].Some? && Fits(t, req[t].value) {
        PutReads(v, t, req[t].value, u);
        FoldReads(req, Put(v, t, req[t].value), t + 1, u);
      } else {
        FoldReads(req, v, t + 1, u);
      }
    }
  }

  /** A span apart from all the fields that the request names. */
  predicate Unnamed(req: Request, s: Span) {
    forall u :: 0 < u < ERROR && req[u].Some? ==> Disjoint(FieldOf(u).hi, FieldOf(u).lo, s.hi, s.lo)
  }

  /** Any bits apart from the fields asked for stay as they were. */
  lemma {:induction false} FoldLeavesRest(req: Request, v: bv32, t: nat, s: Span)
    requires 0 < t <= ERROR && IsField(s.hi, s.lo) && Unnamed(req, s) && Fold(req, v, t).Some?
    ensures Get(Fold(req, v, t).value, s.hi, s.lo) == Get(v, s.hi, s.lo)
    decreases ERROR - t
  {
    hide Get, Replace, Low, Wide, Fits, FieldOf;
    if t < ERROR {
      if req[t].Some? {
        var f := FieldOf(t);
        OtherFieldStays(v, Low(req[t].value), f.hi, f.lo, s.hi, s.lo);
        FoldLeavesRest(req, Put(v, t, req[t].value), t + 1, s);
      } else {
        FoldLeavesRest(req, v, t + 1, s);
      }
    }
  }

  /** Inputs are forced to tristate. */
  function Settled(w: bv32): bv32 {
    if Read(w, DIR) == INPUT then Replace(w, TRISTATE, 6, 6) else w
  }

  predicate AsksGroup(req: Request) {
    req[GROUP_ID].Some? || req[GROUP_INSTANCE].Some? || req[PIN_COUNT].Some?
  }

  predicate AsksPin(req: Request) {
    req[PIN_ID].Some? || req[PIN_INSTANCE].Some?
  }

  predicate IsGroupWord(mem: bv32) {
    Get(mem, IS_GROUP.hi, IS_GROUP.lo) != 0
  }

  /** The request speaks of what the mem word is, and agrees with it. */
  predicate Matches(req: Request, mem: bv32) {
    && (AsksGroup(req) ==> IsGroupWord(mem) && !AsksPin(req))
    && (AsksPin(req) ==> !IsGroupWord(mem))
    && forall t :: GROUP_ID <= t < NAME && req[t].Some? ==> Wide(Read(mem, t)) == req[t].value
  }

  /** Bits hi to lo of the mem word are as asked. */
  predicate Agrees(mem: bv32, hi: bv6, lo: bv6, asked: Option<bv64>)
    requires IsField(hi, lo)
  {
    asked.Some? ==> Wide(Get(mem, hi, lo)) == asked.value
  }

  /** The match, bit by bit: group id in 27-16, pin count in 15-8, group instance in 7-0 of a
      word with bit 31 set; pin id in 30-8, pin instance in 7-0 of one without. */
  lemma MatchesExactly(req: Request, mem: bv32)
    ensures Matches(req, mem) <==>
              && Agrees(mem, 27, 16, req[10]) && Agrees(mem, 15, 8, req[11]) && Agrees(mem, 7, 0, req[12])
              && Agrees(mem, 30, 8, req[13]) && Agrees(mem, 7, 0, req[14])
              && (req[10].Some? || req[11].Some? || req[12].Some? ==>
                    Get(mem, 31, 31) != 0 && req[13].None? && req[14].None?)
              && (req[13].Some? || req[14].Some? ==> Get(mem, 31, 31) == 0)
  {
    hide Get, Wide;
    assert Read(mem, 10) == Get(mem, 27, 16) && Read(mem, 11) == Get(mem, 15, 8) && Read(mem, 12) == Get(mem, 7, 0);
    assert Read(mem, 13) == Get(mem, 30, 8) && Read(mem, 14) == Get(mem, 7, 0);
  }

  lemma GroupBit(mem: bv32)
    ensures IsGroupWord(mem) <==> GpioIndex.IsGroup(mem as int)
  {
  }

  /** The pin index only ever resolves to usable pins, and those are no groups: so a request
      with group parameters is refused for every gpio, as long as the mem words stay as they
      were when the index was built. */
  lemma GroupRequestsRefused(req: Request, mem: seq<bv32>, words: seq<Word>, d: GpioIndex.Descriptor, off: nat)
    requires |words| == |mem| && forall i :: 0 <= i < |mem| ==> words[i] == mem[i] as int
    requires GpioIndex.Resolves(words, d, off) && off < GpioIndex.GPIO_MAX <= |mem|
    ensures AsksGroup(req) ==> !Matches(req, mem[off])
  {
    hide IsGroupWord;
    GroupBit(mem[off]);
    assert GpioIndex.Usable(words[off]);
  }

  /** The eight fields as a request leaves them. */
  ghost predicate FieldsApplied(req: Request, v: bv32, w: bv32) {
    var input := Wanted(req, v, DIR) == Wide(INPUT);
    forall u :: 0 < u < ERROR ==>
      Wide(Read(w, u)) == if input && u == DIS_OUTPUT then Wide(TRISTATE) else Wanted(req, v, u)
  }

  /** Bits apart from the fields asked for and from disOutput are as before. */
  ghost predicate RestKept(req: Request, v: bv32, w: bv32) {
    forall s: Span :: IsField(s.hi, s.lo) && Unnamed(req, s) && Disjoint(6, 6, s.hi, s.lo) ==>
      Get(w, s.hi, s.lo) == Get(v, s.hi, s.lo)
  }

  lemma SettledReads(w: bv32, u: nat)
    requires 0 < u < ERROR
    ensures Read(Settled(w), u) == if Read(w, DIR) == INPUT && u == DIS_OUTPUT then TRISTATE else Read(w, u)
  {
    hide Get, Replace, Mask;
    if Read(w, DIR) == INPUT {
      if u == DIS_OUTPUT {
        GetAfterReplace(w, TRISTATE, 6, 6);
        OneBit();
      } else {
        var f := FieldOf(u);
        ConfigFieldsDisjoint(DIS_OUTPUT, u);
        OtherFieldStays(w, TRISTATE, 6, 6, f.hi, f.lo);
      }
    }
  }

  lemma OneBit()
    ensures TRISTATE & Mask(6, 6) == TRISTATE
  {
  }

  lemma WideInjective(x: bv32, y: bv32)
    ensures Wide(x) == Wide(y) <==> x == y
  {
  }

  lemma FieldsSettle(req: Request, v: bv32, f: bv32, w: bv32)
    requires InRange(req, 1) && Fold(req, v, 1) == Some(f) && w == Settled(f)
    ensures FieldsApplied(req, v, w)
    ensures Read(f, DIR) == INPUT <==> Wanted(req, v, DIR) == Wide(INPUT)
  {
    hide Wide, Wanted, Read, Settled, InRange, Fold;
    FoldReads(req, v, 1, DIR);
    WideInjective(Read(f, DIR), INPUT);
    forall u | 0 < u < ERROR
      ensures Wide(Read(w, u)) ==
              if Wanted(req, v, DIR) == Wide(INPUT) && u == DIS_OUTPUT then Wide(TRISTATE)
              else Wanted(req, v, u)
    {
      FoldReads(req, v, 1, u);
      SettledReads(f, u);
    }
  }

  lemma RestSettles(req: Request, v: bv32, f: bv32, w: bv32)
    requires InRange(req, 1) && Fold(req, v, 1) == Some(f) && w == Settled(f)
    ensures RestKept(req, v, w)
  {
    hide Get, Settled, InRange, Fold, Unnamed;
    forall s: Span | IsField(s.hi, s.lo) && Unnamed(req, s) && Disjoint(6, 6, s.hi, s.lo)
      ensures Get(w, s.hi, s.lo) == Get(v, s.hi, s.lo)
    {
      FoldLeavesRest(req, v, 1, s);
      SettledLeavesRest(f, s.hi, s.lo);
    }
  }

  /** The word to write. */
  function NewWord(req: Request, v: bv32): bv32 {
    var f := Fold(req, v, 1);
    if f.Some? then Settled(f.value) else v
  }

  /** The word written: every field asked for reads back its value and all other bits are as
      before, except that an input is tristate whatever was asked. */
  lemma NewWordApplies(req: Request, v: bv32)
    requires InRange(req, 1)
    ensures FieldsApplied(req, v, NewWord(req, v)) && RestKept(req, v, NewWord(req, v))
  {
    hide InRange, Fold, Settled, FieldsApplied, RestKept, Read, Wide, Wanted;
    FoldReads(req, v, 1, DIR);
    var f := Fold(req, v, 1).value;
    FieldsSettle(req, v, f, NewWord(req, v));
    RestSettles(req, v, f, NewWord(req, v));
  }

  /** The request leaves the pin an input: it says so, or is silent and the pin was one. */
  predicate LeavesInput(req: Request, v: bv32) {
    if req[DIR].Some? then req[DIR].value == 0 else Get(v, 24, 24) == 0
  }

  lemma InputExactly(req: Request, v: bv32)
    ensures LeavesInput(req, v) <==> Wanted(req, v, DIR) == Wide(INPUT)
  {
    WideInjective(Read(v, DIR), INPUT);
  }

  /** Bits hi to lo of w: the value asked for, or what v has there. */
  predicate Gets(w: bv32, v: bv32, hi: bv6, lo: bv6, asked: Option<bv64>)
    requires IsField(hi, lo)
  {
    Wide(Get(w, hi, lo)) == if asked.Some? then asked.value else Wide(Get(v, hi, lo))
  }

  /** The word written, bit by bit: interrupt type in 30-28, filter select in 27-26, trigger in
      25, direction in 24, interrupt number in 23-20, disable output in 6, interrupt enable
      in 5, output state in 4; all other bits are as they were. */
  lemma WordWritten(req: Request, v: bv32)
    requires InRange(req, 1)
    ensures var w := NewWord(req, v);
            && Gets(w, v, 30, 28, req[1]) && Gets(w, v, 27, 26, req[2]) && Gets(w, v, 25, 25, req[3])
            && Gets(w, v, 24, 24, req[4]) && Gets(w, v, 23, 20, req[5])
            && (if LeavesInput(req, v) then Get(w, 6, 6) == 1 else Gets(w, v, 6, 6, req[6]))
            && Gets(w, v, 5, 5, req[7]) && Gets(w, v, 4, 4, req[8])
            && w & 0x800f_f00f == v & 0x800f_f00f
  {
    hide InRange, NewWord, RestKept, FieldsApplied, Gets, Get, LeavesInput;
    var w := NewWord(req, v);
    NewWordApplies(req, v);
    FieldWritten(req, v, w, 1, 30, 28);
    FieldWritten(req, v, w, 2, 27, 26);
    FieldWritten(req, v, w, 3, 25, 25);
    FieldWritten(req, v, w, 4, 24, 24);
    FieldWritten(req, v, w, 5, 23, 20);
    FieldWritten(req, v, w, 6, 6, 6);
    FieldWritten(req, v, w, 7, 5, 5);
    FieldWritten(req, v, w, 8, 4, 4);
    SpareBits(req, v, w);
  }

  lemma FieldWritten(req: Request, v: bv32, w: bv32, u: nat, hi: bv6, lo: bv6)
    requires FieldsApplied(req, v, w) && 0 < u < ERROR && FieldOf(u) == Span(hi, lo)
    ensures if LeavesInput(req, v) && u == 6 then Get(w, hi, lo) == 1 else Gets(w, v, hi, lo, req[u])
  {
    hide Get, FieldOf, Wide, LeavesInput;
    InputExactly(req, v);
    WideInjective(Get(w, hi, lo), TRISTATE);
    assert Read(w, u) == Get(w, hi, lo) && Read(v, u) == Get(v, hi, lo);
  }

  lemma SpareSpan(req: Request, s: Span)
    requires s in {Span(31, 31), Span(19, 12), Span(3, 0)}
    ensures Unnamed(req, s)
  {
  }

  lemma SpareBits(req: Request, v: bv32, w: bv32)
    requires RestKept(req, v, w)
    ensures w & 0x800f_f00f == v & 0x800f_f00f
  {
    hide Get, Unnamed;
    var s, t, u := Span(31, 31), Span(19, 12), Span(3, 0);
    SpareSpan(req, s);
    SpareSpan(req, t);
    SpareSpan(req, u);
    assert Get(w, s.hi, s.lo) == Get(v, s.hi, s.lo) && Get(w, t.hi, t.lo) == Get(v, t.hi, t.lo)
        && Get(w, u.hi, u.lo) == Get(v, u.hi, u.lo);
    FieldsToMask(w, v);
  }

  lemma FieldsToMask(w: bv32, v: bv32)
    requires Get(w, 31, 31) == Get(v, 31, 31) && Get(w, 19, 12) == Get(v, 19, 12) && Get(w, 3, 0) == Get(v, 3, 0)
    ensures w & 0x800f_f00f == v & 0x800f_f00f
  {
  }

  lemma SettledLeavesRest(w: bv32, hi: bv6, lo: bv6)
    requires IsField(hi, lo) && Disjoint(6, 6, hi, lo)
    ensures Get(Settled(w), hi, lo) == Get(w, hi, lo)
  {
    hide Get, Replace;
    OtherFieldStays(w, TRISTATE, 6, 6, hi, lo);
  }

  // ------------------------------------------------------------------ the code

  datatype Write = Clr(pin: nat, v: bv32) | CfgStat(pin: nat, v: bv32)

  datatype Result = Stored | Invalid | Failed

  /** Which register accesses of one call fail. */
  datatype Faults = Faults(readCfg: bool, readMem: bool, writeClr: bool, writeCfg: bool)

  /** The index as the code takes it: an unsigned long cut to 32 bits. */
  function Index(x: bv64): nat {
    Low(x) as nat
  }

  /** It is the lower half. */
  lemma IndexIsLowerHalf(upper: bv32, lower: bv32)
    ensures Index((Wide(upper) << 32) | Wide(lower)) == lower as nat
  {
    assert Low((Wide(upper) << 32) | Wide(lower)) == lower;
  }

  /** What the clr register gets: interrupt enable and state. */
  function ClearBits(): bv32 {
    Set(1, CLR_INT_ENB.hi, CLR_INT_ENB.lo) | Set(1, CLR_INT_STATE.hi, CLR_INT_STATE.lo)
  }

  /** The writes of a call on pin p that gets as far as writing. */
  function Writes(req: Request, p: nat, v: bv32, faults: Faults): seq<Write> {
    var clr := if Wanted(req, v, DIR) == Wide(INPUT) then [Clr(p, ClearBits())] else [];
    if clr != [] && faults.writeClr then [] else clr + if faults.writeCfg then [] else [CfgStat(p, NewWord(req, v))]
  }

  /** Whether a write on the way fails: the clr register is written for inputs only. */
  predicate WriteFails(req: Request, v: bv32, faults: Faults) {
    faults.writeCfg || (faults.writeClr && Wanted(req, v, DIR) == Wide(INPUT))
  }

  /** Interrupt enable and interrupt state, and no other bit. */
  predicate ClearsInterrupts(x: bv32) {
    Get(x, 5, 5) == 1 && Get(x, 1, 1) == 1 && x & 0xffff_ffdd == 0
  }

  lemma ClearBitsClear()
    ensures ClearsInterrupts(ClearBits())
  {
  }

  /** The writes of an input on pin p start with one that clears its interrupts, unless that
      write fails, and those of an output have none to clr. */
  ghost predicate ClearsFirst(added: seq<Write>, p: nat, input: bool, clrFails: bool) {
    if input && !clrFails then
      && added != [] && added[0].Clr? && added[0].pin == p && ClearsInterrupts(added[0].v)
      && forall i :: 1 <= i < |added| ==> !added[i].Clr?
    else
      forall i :: 0 <= i < |added| ==> !added[i].Clr?
  }

  lemma WritesClearFirst(log: seq<Write>, req: Request, p: nat, v: bv32, faults: Faults)
    ensures var now := log + Writes(req, p, v, faults);
            log <= now && ClearsFirst(now[|log|..], p, LeavesInput(req, v), faults.writeClr)
  {
    hide ClearsInterrupts, ClearBits, LeavesInput, Wanted, NewWord;
    InputExactly(req, v);
    ClearBitsClear();
    var added := Writes(req, p, v, faults);
    assert (log + added)[|log|..] == added;
  }

  class Block {
    const cfgStat: array<bv32>
    const mem: array<bv32>
    /** The register writes that succeeded, in order. */
    var log: seq<Write>

    constructor ()
      ensures Valid() && fresh(cfgStat) && fresh(mem)
    {
      cfgStat := new bv32[GpioIndex.GPIO_MAX](_ => 0);
      mem := new bv32[GpioIndex.GPIO_MAX](_ => 0);
      log := [];
    }

    ghost predicate Valid() {
      cfgStat.Length == mem.Length == GpioIndex.GPIO_MAX && cfgStat != mem
    }

    /** The checks of the group and pin parameters against the pin's mem word. */
    method Match(req: Request, m: bv32) returns (ok: bool)
      ensures ok <==> Matches(req, m)
    {
      hide Get, Read, Wide;
      if AsksGroup(req) {
        if !IsGroupWord(m) || AsksPin(req) {
          return false;
        }
      } else if AsksPin(req) && IsGroupWord(m) {
        return false;
      }
      var token := GROUP_ID;
      while token < NAME
        invariant GROUP_ID <= token <= NAME
        invariant forall t :: GROUP_ID <= t < token && req[t].Some? ==> Wide(Read(m, t)) == req[t].value
      {
        if req[token].Some? && Wide(Read(m, token)) != req[token].value {
          return false;
        }
        token := token + 1;
      }
      ok := true;
    }

    /** The loop that checks ranges and folds the fields into a copy of cfg_stat. */
    method FoldFields(req: Request, v: bv32) returns (w: Option<bv32>)
      ensures w == Fold(req, v, 1)
    {
      hide Put, Fits;
      var token, cfgStat := 1, v;
      while token < ERROR
        invariant 1 <= token <= ERROR && Fold(req, v, 1) == Fold(req, cfgStat, token)
      {
        if req[token].Some? {
          if !Fits(token, req[token].value) {
            return None;
          }
          cfgStat := Put(cfgStat, token, req[token].value);
        }
        token := token + 1;
      }
      w := Some(cfgStat);
    }

    /** The pin that the request is for. */
    static ghost function PinOf(req: Request, gpios: GpioIndex.Adapter): Option<nat>
      requires gpios.Valid()
      reads gpios, gpios.off
    {
      if req[INDEX].None? then None
      else
        var i := Index(req[INDEX].value);
        if i < gpios.ngpio && gpios.off[i] < GpioIndex.GPIO_MAX then Some(gpios.off[i]) else None
    }

    /** The call reads the pin's registers and its request is acceptable. */
    ghost predicate Accepts(req: Request, pin: Option<nat>, faults: Faults)
      requires Valid() && (pin.Some? ==> pin.value < GpioIndex.GPIO_MAX)
      reads mem
    {
      && pin.Some? && !faults.readCfg && !faults.readMem
      && Matches(req, mem[pin.value]) && InRange(req, 1)
    }

    /** config_store from the parsed request on. */
    method ConfigStore(req: Request, gpios: GpioIndex.Adapter, faults: Faults)
      returns (result: Result, ghost pin: Option<nat>)
      requires Valid() && gpios.Valid()
      modifies this`log, cfgStat
      ensures pin == old(PinOf(req, gpios))
      ensures pin.Some? ==> pin.value < GpioIndex.GPIO_MAX
      ensures Accepts(req, pin, faults) ==>
                var v := old(cfgStat[pin.value]);
                && result == (if WriteFails(req, v, faults) then Failed else Stored)
                && log == old(log) + Writes(req, pin.value, v, faults)
                && old(log) <= log
                && ClearsFirst(log[|old(log)|..], pin.value, LeavesInput(req, v), faults.writeClr)
                && cfgStat[..] == if result.Stored? then old(cfgStat[..])[pin.value := NewWord(req, v)]
                                     else old(cfgStat[..])
      ensures !Accepts(req, pin, faults) ==>
                && log == old(log) && cfgStat[..] == old(cfgStat[..])
                && result == if pin.Some? && (faults.readCfg || faults.readMem) then Failed else Invalid
    {
      hide Get, Replace, Read, Wide, Fold, Wanted, InRange, Matches;
      hide Writes, NewWord, WriteFails, ClearsFirst, LeavesInput;
      pin := None;
      if req[INDEX].None? {
        return Invalid, pin;
      }
      var index := Index(req[INDEX].value);
      if index >= gpios.ngpio {
        return Invalid, pin;
      }
      var io := gpios.Io(index);
      if io.None? {
        return Invalid, pin;
      }
      var p := io.value;
      pin := Some(p);
      if faults.readCfg || faults.readMem {
        return Failed, pin;
      }
      var v := cfgStat[p];
      var ok := Match(req, mem[p]);
      if !ok {
        return Invalid, pin;
      }
      FoldReads(req, v, 1, DIR);
      var f := FoldFields(req, v);
      if f.None? {
        return Invalid, pin;
      }
      result := Commit(req, p, f.value, faults);
    }

    /** The writes at the end of config_store. */
    method Commit(req: Request, p: nat, f: bv32, faults: Faults) returns (result: Result)
      requires Valid() && p < GpioIndex.GPIO_MAX && InRange(req, 1) && Fold(req, cfgStat[p], 1) == Some(f)
      modifies this`log, cfgStat
      ensures log == old(log) + Writes(req, p, old(cfgStat[p]), faults)
      ensures old(log) <= log
      ensures ClearsFirst(log[|old(log)|..], p, LeavesInput(req, old(cfgStat[p])), faults.writeClr)
      ensures result == if WriteFails(req, old(cfgStat[p]), faults) then Failed else Stored
      ensures cfgStat[..] ==
              if result.Stored? then old(cfgStat[..])[p := NewWord(req, old(cfgStat[p]))]
              else old(cfgStat[..])
    {
      hide Get, Replace, Read, Wide, Fold, Wanted, InRange, ClearBits, Settled, FieldsApplied;
      hide ClearsFirst, LeavesInput;
      WritesClearFirst(log, req, p, cfgStat[p], faults);
      var w := f;
      FieldsSettle(req, cfgStat[p], f, Settled(f));
      if Read(w, DIR) == INPUT {
        if faults.writeClr {
          return Failed;
        }
        log := log + [Clr(p, ClearBits())];
      }
      w := Settled(w);
      if faults.writeCfg {
        return Failed;
      }
      cfgStat[p] := w;
      log := log + [CfgStat(p, w)];
      result := Stored;
    }
  }
}
