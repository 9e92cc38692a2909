/**
 The GPIO pin index: cisco_fpga_gpio_init scans the block's mem words for pins, sorts what
 it found by pin word, and looks each descriptor's pin up by binary search.
 */
module GpioIndex {
  import opened Options
  import opened Bytes

  const GPIO_MAX := 1022
  const UNINITIALIZED := 0xa5a5a5a5
  const HALF: int := 0x8000_0000
  const UNSUPPORTED := 0x7fffff
  const NO_GROUP := 0

  /** k_element_t without its name and reference count. */
  datatype Key = Key(group: nat, word: Word, offset: nat)

  function GroupId(v: Word): nat { v / 0x1_0000 % 0x1000 }
  function PinCount(v: Word): nat { v / 0x100 % 0x100 }
  function PinId(v: Word): nat { v / 0x100 % 0x80_0000 }

  predicate IsGroup(v: Word) { v >= HALF }

  /** A word that names a pin which can be used, whatever group it stands in. */
  predicate Usable(v: Word) {
    !IsGroup(v) && PinId(v) != NO_GROUP && PinId(v) != UNSUPPORTED
  }

  /** What the fields are: bit 31 tells a group, which has its id in bits 27-16 and its pin
      count in bits 15-8; a pin has its id in bits 30-8. */
  lemma WordParts(v: Word)
    ensures GroupId(v) < 0x1000 && PinCount(v) < 0x100 && PinId(v) < 0x80_0000
    ensures v % 0x1000_0000 == GroupId(v) * 0x1_0000 + PinCount(v) * 0x100 + v % 0x100
    ensures v == (if IsGroup(v) then 0x8000_0000 else 0) + PinId(v) * 0x100 + v % 0x100
    ensures Usable(v) <==> 0x100 <= v < 0x7fff_ff00
  {
    assert v == v / 0x100 * 0x100 + v % 0x100;
    assert v / 0x100 == v / 0x1_0000 * 0x100 + PinCount(v);
    assert v / 0x1_0000 == v / 0x1000_0000 * 0x1000 + GroupId(v);
  }

  // --------------------------------------------------------------- the scan

  /** The group the scan is in, and how many of its pins are still to come. */
  datatype Cursor = Cursor(group: nat, pins: nat)

  /** One round of the scan: the new cursor, and whether the word goes into the table. */
  function Round(c: Cursor, v: Word): (Cursor, bool) {
    if v == UNINITIALIZED then (c, false)
    else if IsGroup(v) then (Cursor(GroupId(v), PinCount(v)), false)
    else if c.pins == 0 then
      if PinId(v) == 0 || PinId(v) == UNSUPPORTED then (c, false)
      else (c, true)   // pins is set to 1 and decremented again
    else if PinId(v) == UNSUPPORTED || PinId(v) == NO_GROUP then (c.(pins := c.pins - 1), false)
    else (c.(pins := c.pins - 1), true)
  }

  /** The cursor after the first n words. */
  function CursorAt(mem: seq<Word>, n: nat): Cursor
    requires n <= |mem|
  {
    if n == 0 then Cursor(0, 0) else Round(CursorAt(mem, n - 1), mem[n - 1]).0
  }

  /** The table after the first n words. */
  function TableAt(mem: seq<Word>, n: nat): (keys: seq<Key>)
    requires n <= |mem|
    ensures |keys| <= n
  {
    if n == 0 then []
    else
      var (c, taken) := Round(CursorAt(mem, n - 1), mem[n - 1]);
      TableAt(mem, n - 1) + if taken then [Key(c.group, mem[n - 1], n - 1)] else []
  }

  /** The id in the last group word before position n, or 0. */
  function GroupOf(mem: seq<Word>, n: nat): nat
    requires n <= |mem|
  {
    if n == 0 then 0
    else if mem[n - 1] != 0xa5a5_a5a5 && IsGroup(mem[n - 1]) then GroupId(mem[n - 1])
    else GroupOf(mem, n - 1)
  }

  lemma {:induction false} GroupIsLast(mem: seq<Word>, n: nat)
    requires n <= |mem|
    ensures CursorAt(mem, n).group == GroupOf(mem, n)
  {
    hide PinId, GroupId, PinCount;
    if n > 0 {
      GroupIsLast(mem, n - 1);
    }
  }

  /** The pin counter of the groups decides nothing: a word is taken exactly when it is usable. */
  lemma TakenExactlyWhenUsable(c: Cursor, v: Word)
    ensures Round(c, v).1 <==> Usable(v)
  {
  }

  /** The keys are the usable words: ascending by offset, each with its word and the id of the
      last group before it, and none missing. */
  ghost predicate ListsUsable(mem: seq<Word>, n: nat, keys: seq<Key>)
    requires n <= |mem|
  {
    && (forall i :: 0 <= i < |keys| ==>
          var o := keys[i].offset;
          o < n && Usable(mem[o]) && keys[i] == Key(GroupOf(mem, o), mem[o], o))
    && (forall i, j :: 0 <= i < j < |keys| ==> keys[i].offset < keys[j].offset)
    && (forall o :: 0 <= o < n && Usable(mem[o]) ==> exists i :: 0 <= i < |keys| && keys[i].offset == o)
  }

  lemma ListsMore(mem: seq<Word>, n: nat, keys: seq<Key>)
    requires n < |mem| && ListsUsable(mem, n, keys)
    ensures ListsUsable(mem, n + 1, if Usable(mem[n]) then keys + [Key(GroupOf(mem, n), mem[n], n)] else keys)
  {
    hide Usable, GroupOf;
    if Usable(mem[n]) {
      var all := keys + [Key(GroupOf(mem, n), mem[n], n)];
      assert all[|keys|].offset == n;
      forall o | 0 <= o < n + 1 && Usable(mem[o])
        ensures exists i :: 0 <= i < |all| && all[i].offset == o
      {
        if o < n {
          var i :| 0 <= i < |keys| && keys[i].offset == o;
          assert all[i].offset == o;
        }
      }
    }
  }

  lemma {:induction false} TableListsUsable(mem: seq<Word>, n: nat)
    requires n <= |mem|
    ensures ListsUsable(mem, n, TableAt(mem, n))
  {
    hide Usable, GroupOf, Round;
    if n > 0 {
      TableListsUsable(mem, n - 1);
      TakenExactlyWhenUsable(CursorAt(mem, n - 1), mem[n - 1]);
      ListsMore(mem, n - 1, TableAt(mem, n - 1));
      if Usable(mem[n - 1]) {
        TakenHasGroup(mem, n);
      } else {
        assert TableAt(mem, n - 1) + [] == TableAt(mem, n - 1);
      }
    }
  }

  lemma TakenHasGroup(mem: seq<Word>, n: nat)
    requires 0 < n <= |mem| && Usable(mem[n - 1])
    ensures Round(CursorAt(mem, n - 1), mem[n - 1]).0.group == GroupOf(mem, n - 1)
  {
    GroupIsLast(mem, n - 1);
  }

  // ---------------------------------------------------------- the comparator

  /** _k_cmp: a 32-bit difference, read as a signed int. */
  function Compare(a: Word, b: Word): (r: int)
    ensures r == 0 <==> a == b
  {
    var d := (a - b) % WORD_LIMIT;
    if d >= HALF then d - WORD_LIMIT else d
  }

  /** The wrapping difference orders two words exactly when they are less than 2^31 apart
      (or 2^31 apart with the smaller one first). */
  lemma CompareOrdersExactly(a: Word, b: Word)
    ensures (Compare(a, b) < 0 <==> a < b) <==> -HALF <= a - b < HALF
  {
  }

  /** Which holds for any two table keys, since group words never get there. */
  lemma CompareOrdersPins(a: Word, b: Word)
    requires !IsGroup(a) && !IsGroup(b)
    ensures Compare(a, b) == a - b
  {
  }

  predicate Pins(keys: seq<Key>) {
    forall i :: 0 <= i < |keys| ==> !IsGroup(keys[i].word)
  }

  predicate Sorted(keys: seq<Key>) {
    forall i, j :: 0 <= i < j < |keys| ==> keys[i].word <= keys[j].word
  }

  ghost predicate Permutation(s: seq<Key>, t: seq<Key>) {
    multiset(s) == multiset(t)
  }

  lemma SwapPermutes(s: seq<Key>, i: nat, j: nat)
    requires i < |s| && j < |s|
    ensures Permutation(s, s[i := s[j]][j := s[i]])
  {
  }

  lemma PermutationMembers(s: seq<Key>, t: seq<Key>, k: Key)
    requires Permutation(s, t)
    ensures k in s <==> k in t
    ensures |s| == |t|
  {
    assert k in s <==> k in multiset(s);
    assert k in t <==> k in multiset(t);
    assert |multiset(s)| == |s| && |multiset(t)| == |t|;
  }

  // ------------------------------------------------------------- descriptors

  /** A gpio-descriptor after parsing: malformed, or naming a pin word; what follows the
      lookup (reading the pin's cfg_stat, the rest of the text, writing it back) may fail. */
  datatype Descriptor = Malformed | Names(group: Word, pin: Word, restOk: bool)

  /** Some usable word of the block is this pin. */
  ghost predicate HasPin(mem: seq<Word>, pin: Word) {
    exists o :: 0 <= o < |mem| && Usable(mem[o]) && mem[o] == pin
  }

  /** off[e] as promised: an offset whose word is the pin asked for, or the invalid mark. */
  ghost predicate Resolves(mem: seq<Word>, d: Descriptor, off: nat) {
    if d.Names? && d.restOk && HasPin(mem, d.pin) then off < |mem| && Usable(mem[off]) && mem[off] == d.pin
    else off == GPIO_MAX
  }

  // ------------------------------------------------------------------ the code

  lemma SortedOne(keys: seq<Key>)
    requires |keys| <= 1
    ensures Sorted(keys)
  {
  }

  /** In place, by the comparator; the kernel's own sort is not shown. */
  method Sort(table: array<Key>, num: nat)
    requires num <= table.Length && Pins(table[..num])
    modifies table
    ensures Sorted(table[..num]) && Permutation(old(table[..num]), table[..num])
    ensures table[num..] == old(table[num..])
  {
    hide Compare, Permutation, Pins, Sorted;
    var n := 0;
    PermutationRefl(table[..num]);
    SortedOne(table[..num][..0]);
    while n < num
      invariant 0 <= n <= num
      invariant Sorted(table[..num][..n]) && Pins(table[..num])
      invariant Permutation(old(table[..num]), table[..num]) && table[num..] == old(table[num..])
    {
      ghost var was := table[..num];
      Insert(table, n, num);
      PermutationTrans(old(table[..num]), was, table[..num]);
      n := n + 1;
    }
    assert table[..num][..num] == table[..num];
  }

  lemma PermutationRefl(s: seq<Key>)
    ensures Permutation(s, s)
  {
  }

  lemma PermutationTrans(s: seq<Key>, t: seq<Key>, u: seq<Key>)
    requires Permutation(s, t) && Permutation(t, u)
    ensures Permutation(s, u)
  {
  }

  function Swapped(s: seq<Key>, k: nat): (t: seq<Key>)
    requires 0 < k < |s|
    ensures |t| == |s|
  {
    s[k - 1 := s[k]][k := s[k - 1]]
  }

  /** The entries up to n are in order but for entry k, which is below no later one. */
  predicate InOrderBut(s: seq<Key>, n: nat, k: nat) {
    k <= n < |s| && forall i, j :: 0 <= i < j <= n && j != k ==> s[i].word <= s[j].word
  }

  lemma SwapDown(s: seq<Key>, n: nat, k: nat)
    requires 0 < k && InOrderBut(s, n, k) && Pins(s)
    requires Compare(s[k - 1].word, s[k].word) > 0
    ensures InOrderBut(Swapped(s, k), n, k - 1) && Pins(Swapped(s, k)) && Permutation(s, Swapped(s, k))
  {
    hide Compare, IsGroup, Permutation;
    CompareOrdersPins(s[k - 1].word, s[k].word);
    SwapPermutes(s, k - 1, k);
  }

  lemma InPlace(s: seq<Key>, n: nat, k: nat)
    requires InOrderBut(s, n, k) && Pins(s) && (k == 0 || Compare(s[k - 1].word, s[k].word) <= 0)
    ensures Sorted(s[..n + 1])
  {
    hide Compare, IsGroup;
    if k > 0 {
      CompareOrdersPins(s[k - 1].word, s[k].word);
      assert forall i :: 0 <= i < k ==> s[i].word <= s[k].word;
    }
  }

  lemma NextToInsert(s: seq<Key>, n: nat)
    requires n < |s| && Sorted(s[..n])
    ensures InOrderBut(s, n, n)
  {
    assert forall i :: 0 <= i < n ==> s[..n][i] == s[i];
  }

  /** Moves entry n down to its place among the n sorted ones before it. */
  method Insert(table: array<Key>, n: nat, num: nat)
    requires n < num <= table.Length && Pins(table[..num]) && Sorted(table[..num][..n])
    modifies table
    ensures Sorted(table[..num][..n + 1]) && Pins(table[..num])
    ensures Permutation(old(table[..num]), table[..num]) && table[num..] == old(table[num..])
  {
    hide Compare, Permutation, IsGroup, InOrderBut, Sorted, Pins;
    var k := n;
    PermutationRefl(table[..num]);
    NextToInsert(table[..num], n);
    while k > 0 && Compare(table[k - 1].word, table[k].word) > 0
      invariant 0 <= k <= n && Pins(table[..num]) && InOrderBut(table[..num], n, k)
      invariant Permutation(old(table[..num]), table[..num]) && table[num..] == old(table[num..])
      decreases k
    {
      ghost var was := table[..num];
      SwapDown(was, n, k);
      PermutationTrans(old(table[..num]), was, Swapped(was, k));
      table[k - 1], table[k] := table[k], table[k - 1];
      assert table[..num] == Swapped(was, k);
      k := k - 1;
    }
    InPlace(table[..num], n, k);
  }

  /** Two entries share a pin word. */
  ghost predicate SharedWord(keys: seq<Key>) {
    exists i, j :: 0 <= i < j < |keys| && keys[i].word == keys[j].word
  }

  /** The walk over neighbours finds a duplicate exactly when two entries share a word. */
  method HasDuplicate(table: array<Key>, num: nat) returns (dup: bool)
    requires num <= table.Length && Sorted(table[..num])
    ensures dup <==> SharedWord(table[..num])
  {
    dup := false;
    var e := 1;
    while e < num
      invariant 1 <= e && (num >= 1 ==> e <= num)
      invariant dup ==> SharedWord(table[..num])
      invariant !dup ==> forall i, j :: 0 <= i < j < e && j < num ==> table[..num][i].word < table[..num][j].word
    {
      if table[e - 1].word == table[e].word {
        assert table[..num][e - 1].word == table[..num][e].word;
        dup := true;
      }
      assert table[..num][e - 1].word <= table[..num][e].word;
      e := e + 1;
    }
  }

  /** _gpio_find_pin: the kernel's bsearch loop over the sorted table, with the comparator. */
  method FindPin(table: array<Key>, num: nat, pin: Word) returns (hit: Option<nat>)
    requires num <= table.Length && Pins(table[..num]) && Sorted(table[..num])
    ensures hit.Some? ==> hit.value < num && table[hit.value].word == pin
    ensures hit.None? ==> forall i :: 0 <= i < num ==> table[..num][i].word != pin
  {
    hide Compare;
    var base, left := 0, num;
    while left > 0
      invariant 0 <= base && 0 <= left && base + left <= num
      invariant !IsGroup(pin) ==> forall i :: 0 <= i < base ==> table[i].word < pin
      invariant !IsGroup(pin) ==> forall i :: base + left <= i < num ==> pin < table[i].word
      decreases left
    {
      var pivot := base + left / 2;
      var r := Compare(pin, table[pivot].word);
      if r == 0 {
        return Some(pivot);
      }
      ghost var keys := table[..num];
      if !IsGroup(pin) {
        CompareOrdersPins(pin, keys[pivot].word);
        assert forall i :: 0 <= i < pivot ==> keys[i].word <= keys[pivot].word;
        assert forall i :: pivot < i < num ==> keys[pivot].word <= keys[i].word;
      }
      if r > 0 {
        base, left := pivot + 1, left - 1;
      }
      left := left / 2;
    }
    assert forall i :: 0 <= i < num ==> !IsGroup(table[..num][i].word);
    hit := None;
  }

  /** gpio_adapter_t: where each gpio's registers are. */
  class Adapter {
    const ngpio: nat
    const off: array<nat>

    ghost predicate Valid() {
      off.Length == ngpio
    }

    constructor (ngpio: nat)
      ensures Valid() && this.ngpio == ngpio && fresh(off)
    {
      this.ngpio := ngpio;
      off := new nat[ngpio](_ => 0);
    }

    /** The scan; it stops with an error at the first mem word that cannot be read. */
    method Scan(mem: seq<Option<Word>>, table: array<Key>) returns (num: nat, ok: bool)
      requires |mem| == GPIO_MAX == table.Length
      modifies table
      ensures ok <==> forall e :: 0 <= e < |mem| ==> mem[e].Some?
      ensures ok ==> num <= GPIO_MAX && table[..num] == TableAt(Values(mem), GPIO_MAX)
    {
      hide Round;
      var group, pins, e := 0, 0, 0;
      num := 0;
      while e < GPIO_MAX
        invariant 0 <= e <= GPIO_MAX && num <= e
        invariant forall i :: 0 <= i < e ==> mem[i].Some?
        invariant Cursor(group, pins) == CursorAt(Values(mem), e)
        invariant table[..num] == TableAt(Values(mem), e)
      {
        if mem[e].None? {
          return num, false;
        }
        var v := mem[e].value;
        var taken;
        group, pins, taken := OneWord(group, pins, v);
        if taken {
          table[num] := Key(group, v, e);
          num := num + 1;
        }
        e := e + 1;
      }
      ok := true;
    }

    /** The body of the scan. */
    method OneWord(group0: nat, pins0: nat, v: Word) returns (group: nat, pins: nat, taken: bool)
      ensures (Cursor(group, pins), taken) == Round(Cursor(group0, pins0), v)
    {
      group, pins, taken := group0, pins0, false;
      if v == UNINITIALIZED {
        return;
      }
      if IsGroup(v) {
        group, pins := GroupId(v), PinCount(v);
        return;
      }
      var pinId := PinId(v);
      if pins == 0 {
        if pinId == 0 || pinId == UNSUPPORTED {
          return;
        }
        pins := 1;
      } else if pinId == UNSUPPORTED {
        pins := pins - 1;
        return;
      } else if pinId == NO_GROUP {
        pins := pins - 1;
        return;
      }
      pins, taken := pins - 1, true;
    }

    /** _gpio_parse_descriptor on a parsed descriptor: the pin's offset, or an error. */
    method Lookup(table: array<Key>, num: nat, d: Descriptor,
      ghost words: seq<Word>, ghost listed: seq<Key>)
      returns (index: Option<nat>)
      requires num <= table.Length && Pins(table[..num]) && Sorted(table[..num])
      requires |words| == GPIO_MAX && ListsUsable(words, |words|, listed) && Permutation(listed, table[..num])
      ensures index.Some? ==> index.value < GPIO_MAX
      ensures Resolves(words, d, if index.Some? then index.value else GPIO_MAX)
    {
      hide Resolves, ListsUsable, Sorted, Permutation, Pins;
      index := None;
      if d.Malformed? {
        MalformedResolves(words, d);
        return;
      }
      var hit := FindPin(table, num, d.pin);
      ghost var h := if hit.Some? then Some(table[..num][hit.value]) else None;
      LookupResolves(words, listed, table[..num], d, h);
      if hit.Some? && d.restOk {
        index := Some(table[hit.value].offset);
      }
    }

    /** cisco_fpga_gpio_init, after the allocations and the property read; dump tells whether
        it ends with a report of the table. */
    method Init(mem: seq<Option<Word>>, descs: seq<Descriptor>) returns (ok: bool, dump: bool)
      requires Valid() && |mem| == GPIO_MAX && |descs| == ngpio
      modifies off
      ensures ok <==> forall e :: 0 <= e < |mem| ==> mem[e].Some?
      ensures ok ==> forall e :: 0 <= e < ngpio ==> Resolves(Values(mem), descs[e], off[e])
      ensures ok ==> (dump <==> SharedPin(Values(mem)) || exists e :: 0 <= e < ngpio && off[e] == GPIO_MAX)
    {
      hide Resolves, ListsUsable, Sorted, Permutation, Pins, TableAt, SharedPin, SharedWord;
      var table := new Key[GPIO_MAX](_ => Key(0, 0, 0));
      var num;
      num, ok := Scan(mem, table);
      dump := false;
      if !ok {
        return;
      }
      ghost var words := Values(mem);
      ghost var listed := table[..num];
      TableListsUsable(words, GPIO_MAX);
      UsableArePins(words, listed);
      Sort(table, num);
      ghost var keys := table[..num];
      PermutedPins(listed, keys);
      dump := HasDuplicate(table, num);
      SharedExactly(words, listed, keys);
      var e := 0;
      while e < ngpio
        invariant 0 <= e <= ngpio && table[..num] == keys
        invariant forall i :: 0 <= i < e ==> Resolves(words, descs[i], off[i])
        invariant dump <==> SharedPin(words) || exists i :: 0 <= i < e && off[i] == GPIO_MAX
      {
        var index := Lookup(table, num, descs[e], words, listed);
        if index.None? {
          off[e] := GPIO_MAX;
          dump := true;
        } else {
          off[e] := index.value;
        }
        e := e + 1;
      }
    }

    /** cisco_fpga_gpio_io: the register index of a gpio, or -EINVAL. */
    method Io(offset: nat) returns (pin: Option<nat>)
      requires Valid()
      ensures pin.Some? <==> offset < ngpio && off[offset] < GPIO_MAX
      ensures pin.Some? ==> pin.value == off[offset] < GPIO_MAX
    {
      if offset >= ngpio {
        return None;
      }
      var p := off[offset];
      if p >= GPIO_MAX {
        return None;
      }
      pin := Some(p);
    }
  }

  /** The words read. */
  function Values(mem: seq<Option<Word>>): (ws: seq<Word>)
    ensures |ws| == |mem| && forall i :: 0 <= i < |mem| && mem[i].Some? ==> ws[i] == mem[i].value
  {
    seq(|mem|, i requires 0 <= i < |mem| => if mem[i].Some? then mem[i].value else 0)
  }

  lemma UsableArePins(mem: seq<Word>, keys: seq<Key>)
    requires ListsUsable(mem, |mem|, keys)
    ensures Pins(keys)
  {
    hide PinId, GroupOf;
    forall i | 0 <= i < |keys|
      ensures !IsGroup(keys[i].word)
    {
      assert Usable(mem[keys[i].offset]);
    }
  }

  lemma PermutedPins(s: seq<Key>, t: seq<Key>)
    requires Permutation(s, t) && Pins(s)
    ensures Pins(t) && |s| == |t|
  {
    hide IsGroup, Permutation;
    forall i | 0 <= i < |t|
      ensures !IsGroup(t[i].word)
    {
      PermutationMembers(s, t, t[i]);
    }
    PermutationLength(s, t);
  }

  lemma PermutationLength(s: seq<Key>, t: seq<Key>)
    requires Permutation(s, t)
    ensures |s| == |t|
  {
    assert |multiset(s)| == |s| && |multiset(t)| == |t|;
  }

  lemma MalformedResolves(mem: seq<Word>, d: Descriptor)
    requires d.Malformed?
    ensures Resolves(mem, d, GPIO_MAX)
  {
  }

  /** What a hit or a miss in the sorted table says about the block. */
  lemma LookupResolves(mem: seq<Word>, listed: seq<Key>, keys: seq<Key>, d: Descriptor, hit: Option<Key>)
    requires ListsUsable(mem, |mem|, listed) && Permutation(listed, keys) && d.Names?
    requires hit.Some? ==> hit.value in keys && hit.value.word == d.pin
    requires hit.None? ==> forall i :: 0 <= i < |keys| ==> keys[i].word != d.pin
    ensures Resolves(mem, d, if hit.Some? && d.restOk then hit.value.offset else GPIO_MAX)
    ensures hit.Some? ==> hit.value.offset < |mem|
  {
    hide Permutation, Usable, GroupOf;
    if hit.Some? {
      PermutationMembers(listed, keys, hit.value);
      var i :| 0 <= i < |listed| && listed[i] == hit.value;
      assert HasPin(mem, d.pin);
    } else if HasPin(mem, d.pin) {
      var o :| 0 <= o < |mem| && Usable(mem[o]) && mem[o] == d.pin;
      var i :| 0 <= i < |listed| && listed[i].offset == o;
      PermutationMembers(listed, keys, listed[i]);
      assert false;
    }
  }

  // ------------------------------------------------------------- duplicates

  /** Two words of the block are the same usable pin. */
  ghost predicate SharedPin(mem: seq<Word>) {
    exists o, o' :: 0 <= o < o' < |mem| && Usable(mem[o]) && mem[o] == mem[o']
  }

  lemma {:induction false} DistinctCount(s: seq<Key>, x: Key)
    requires forall i, j :: 0 <= i < j < |s| ==> s[i] != s[j]
    ensures multiset(s)[x] <= 1
  {
    if s != [] {
      var n := |s| - 1;
      DistinctCount(s[..n], x);
      assert s == s[..n] + [s[n]];
      if s[n] == x {
        assert x !in s[..n];
      }
    }
  }

  lemma CountTwice(s: seq<Key>, i: nat, j: nat)
    requires i < j < |s| && s[i] == s[j]
    ensures multiset(s)[s[i]] >= 2
  {
    assert s == s[..j] + s[j..];
    assert s[i] == s[..j][i] && s[j] == s[j..][0];
    assert s[i] in multiset(s[..j]) && s[i] in multiset(s[j..]);
  }

  /** No entry of the table comes up twice, however it is sorted. */
  lemma NoTwice(mem: seq<Word>, listed: seq<Key>, keys: seq<Key>, i: nat, j: nat)
    requires ListsUsable(mem, |mem|, listed) && Permutation(listed, keys) && i < j < |keys|
    ensures keys[i] != keys[j]
  {
    hide Usable, GroupOf;
    DistinctCount(listed, keys[i]);
    if keys[i] == keys[j] {
      CountTwice(keys, i, j);
    }
  }

  lemma InTable(mem: seq<Word>, listed: seq<Key>, keys: seq<Key>, o: nat) returns (i: nat)
    requires ListsUsable(mem, |mem|, listed) && Permutation(listed, keys) && o < |mem| && Usable(mem[o])
    ensures i < |keys| && keys[i].offset == o && keys[i].word == mem[o]
  {
    hide Usable, GroupOf, Permutation;
    var a :| 0 <= a < |listed| && listed[a].offset == o;
    PermutationMembers(listed, keys, listed[a]);
    i :| 0 <= i < |keys| && keys[i] == listed[a];
  }

  lemma FromTable(mem: seq<Word>, listed: seq<Key>, keys: seq<Key>, i: nat)
    requires ListsUsable(mem, |mem|, listed) && Permutation(listed, keys) && i < |keys|
    ensures var o := keys[i].offset; o < |mem| && Usable(mem[o]) && keys[i] == Key(GroupOf(mem, o), mem[o], o)
  {
    hide Usable, GroupOf, Permutation;
    PermutationMembers(listed, keys, keys[i]);
  }

  /** The sorted table has entries that share a word exactly when the block has words that
      are the same pin. */
  lemma SharedExactly(mem: seq<Word>, listed: seq<Key>, keys: seq<Key>)
    requires ListsUsable(mem, |mem|, listed) && Permutation(listed, keys)
    ensures SharedWord(keys) <==> SharedPin(mem)
  {
    hide Usable, GroupOf, Permutation, ListsUsable;
    if SharedWord(keys) {
      var i, j :| 0 <= i < j < |keys| && keys[i].word == keys[j].word;
      FromTable(mem, listed, keys, i);
      FromTable(mem, listed, keys, j);
      NoTwice(mem, listed, keys, i, j);
      var o, o' := keys[i].offset, keys[j].offset;
      assert mem[o] == mem[o'] && o != o' && Usable(mem[o]) && Usable(mem[o']);
      assert o < o' || o' < o;
    }
    if SharedPin(mem) {
      var o, o' :| 0 <= o < o' < |mem| && Usable(mem[o]) && mem[o] == mem[o'];
      var i := InTable(mem, listed, keys, o);
      var j := InTable(mem, listed, keys, o');
      assert i < j || j < i;
    }
  }
}
