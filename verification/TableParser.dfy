/**
 The tokenizer behind sysfs attributes whose value is a list of words from a table.
 */
module TableParser {
  import opened Options

  datatype Entry = Entry(word: string, mask: bv32, value: bv32)

  datatype Fold = Fold(value: bv32, mask: bv32)

  /** isspace; the kernel counts the no-break space 0xA0 too. */
  predicate IsSpace(c: char) {
    c == ' ' || c == '\t' || c == '\n' || c == '\U{000B}' || c == '\U{000C}' || c == '\r' || c == '\U{00A0}'
  }

  /** White space by its codes in Latin-1. */
  predicate IsWhite(c: char) {
    9 <= c as int <= 13 || c as int == 32 || c as int == 0xA0
  }

  lemma SpaceIsWhite()
    ensures forall c :: IsSpace(c) <==> IsWhite(c)
  {
  }

  function Apply(f: Fold, e: Entry): Fold {
    Fold((f.value & !e.mask) | e.value, f.mask | e.mask)
  }

  /** The end of the run of white (or of other) characters that starts at i. */
  function RunEnd(buf: string, i: nat, white: bool): (e: nat)
    requires i <= |buf|
    ensures i <= e <= |buf| && forall k :: i <= k < e ==> IsWhite(buf[k]) == white
    ensures e < |buf| ==> IsWhite(buf[e]) != white
    decreases |buf| - i
  {
    if i < |buf| && IsSpace(buf[i]) == white then RunEnd(buf, i + 1, white) else i
  }

  // -------------------------------------------------- what the code does

  /** At i the text continues with the word of this row, and then a space or the end. */
  predicate MatchesAt(buf: string, i: nat, e: Entry) {
    var n := |e.word|;
    i + n <= |buf| && buf[i..i + n] == e.word && (i + n == |buf| || IsSpace(buf[i + n]))
  }

  /** The first row from k on that matches, or the table length. */
  function FirstMatch(table: seq<Entry>, buf: string, i: nat, k: nat): (r: nat)
    requires k <= |table|
    ensures k <= r <= |table| && (r < |table| ==> MatchesAt(buf, i, table[r]))
    ensures forall j :: k <= j < r ==> !MatchesAt(buf, i, table[j])
    decreases |table| - k
  {
    if k == |table| || MatchesAt(buf, i, table[k]) then k else FirstMatch(table, buf, i, k + 1)
  }

  /** _sysfs_parse_table from position i on: whether it reaches the end, and the fold. */
  function Scan(table: seq<Entry>, buf: string, i: nat, f: Fold): (bool, Fold)
    requires i <= |buf|
    decreases |buf| - i
  {
    var s := RunEnd(buf, i, true);
    if s == |buf| then (true, f)
    else
      var k := FirstMatch(table, buf, s, 0);
      if k == |table| then (false, f)
      else Scan(table, buf, s + |table[k].word|, Apply(f, table[k]))
  }

  // ------------------------------------------------ what it is meant to do

  /** The text from i on, split at white space. */
  function Words(buf: string, i: nat): seq<string>
    requires i <= |buf|
    decreases |buf| - i
  {
    var s := RunEnd(buf, i, true);
    var e := RunEnd(buf, s, false);
    if s == |buf| then [] else [buf[s..e]] + Words(buf, e)
  }

  /** The position of a word in the table, or the table length. */
  function Lookup(table: seq<Entry>, word: string, k: nat): (r: nat)
    requires k <= |table|
    ensures k <= r <= |table| && (r < |table| ==> table[r].word == word)
    ensures forall j :: k <= j < r ==> table[j].word != word
    decreases |table| - k
  {
    if k == |table| || table[k].word == word then k else Lookup(table, word, k + 1)
  }

  predicate Known(table: seq<Entry>, word: string) {
    Lookup(table, word, 0) < |table|
  }

  predicate AllKnown(table: seq<Entry>, words: seq<string>) {
    forall i :: 0 <= i < |words| ==> Known(table, words[i])
  }

  /** Every word looked up and folded, left to right, up to the first unknown one. */
  function FoldWords(table: seq<Entry>, words: seq<string>, f: Fold): Fold {
    if words == [] || !Known(table, words[0]) then f
    else FoldWords(table, words[1..], Apply(f, table[Lookup(table, words[0], 0)]))
  }

  predicate Plain(word: string) {
    word != "" && forall i :: 0 <= i < |word| ==> !IsWhite(word[i])
  }

  /** No row is empty or contains white space. */
  predicate PlainWords(table: seq<Entry>) {
    forall k :: 0 <= k < |table| ==> Plain(table[k].word)
  }

  /** A plain row matches exactly when it is the whole word that starts here: no row is
      taken for a longer word that it is a prefix of. */
  lemma MatchIsWholeWord(buf: string, i: nat, e: Entry)
    requires i < |buf| && !IsWhite(buf[i]) && Plain(e.word)
    ensures MatchesAt(buf, i, e) <==> e.word == buf[i..RunEnd(buf, i, false)]
  {
    SpaceIsWhite();
    hide IsSpace, IsWhite, RunEnd;
    var end, n := RunEnd(buf, i, false), |e.word|;
    if MatchesAt(buf, i, e) {
      assert forall k :: i <= k < i + n ==> buf[k] == e.word[k - i];
      assert i + n <= end;
      assert end <= i + n;
    }
  }

  /** Row k can ever be the first to match: its word starts like a word, and no earlier row
      matches at the start of it. */
  predicate Reachable(table: seq<Entry>, k: nat) {
    && k < |table| && table[k].word != "" && !IsWhite(table[k].word[0])
    && forall j :: 0 <= j < k ==> !MatchesAt(table[k].word, 0, table[j])
  }

  /** Every row that can be the first to match is a word without white space. */
  predicate Separated(table: seq<Entry>) {
    forall k: nat :: k < |table| && Reachable(table, k) ==> Plain(table[k].word)
  }

  lemma PlainIsSeparated(table: seq<Entry>)
    requires PlainWords(table)
    ensures Separated(table)
  {
    hide Plain, Reachable;
  }

  /** A row that matches starts like a word, and any row that matches at the start of its
      word matches here too. */
  lemma MatchHere(buf: string, i: nat, e: Entry, e': Entry)
    requires i < |buf| && !IsWhite(buf[i]) && MatchesAt(buf, i, e)
    ensures e.word != "" && !IsWhite(e.word[0])
    ensures MatchesAt(e.word, 0, e') ==> MatchesAt(buf, i, e')
  {
    SpaceIsWhite();
    hide IsSpace, IsWhite;
    var n, m := |e.word|, |e'.word|;
    assert forall k :: 0 <= k < n ==> e.word[k] == buf[i + k];
    if MatchesAt(e.word, 0, e') {
      assert buf[i..i + m] == e.word[0..m];
    }
  }

  lemma FirstMatchIsReachable(table: seq<Entry>, buf: string, i: nat)
    requires i < |buf| && !IsWhite(buf[i])
    ensures var r := FirstMatch(table, buf, i, 0); r < |table| ==> Reachable(table, r)
  {
    hide IsWhite, MatchesAt, FirstMatch;
    var r := FirstMatch(table, buf, i, 0);
    if r < |table| {
      MatchHere(buf, i, table[r], table[r]);
      forall j | 0 <= j < r
        ensures !MatchesAt(table[r].word, 0, table[j])
      {
        MatchHere(buf, i, table[r], table[j]);
      }
    }
  }

  /** The word that starts here is plain. */
  lemma WordIsPlain(buf: string, i: nat)
    requires i < |buf| && !IsWhite(buf[i])
    ensures i < RunEnd(buf, i, false) && Plain(buf[i..RunEnd(buf, i, false)])
  {
    hide IsWhite, RunEnd;
  }

  lemma MatchIsLookup(table: seq<Entry>, buf: string, i: nat)
    requires Separated(table) && i < |buf| && !IsWhite(buf[i])
    ensures FirstMatch(table, buf, i, 0) == Lookup(table, buf[i..RunEnd(buf, i, false)], 0)
  {
    hide IsWhite, RunEnd, MatchesAt, Plain, FirstMatch, Lookup, Reachable;
    var w := buf[i..RunEnd(buf, i, false)];
    var r, l := FirstMatch(table, buf, i, 0), Lookup(table, w, 0);
    WordIsPlain(buf, i);
    FirstMatchIsReachable(table, buf, i);
    if r < |table| {
      MatchIsWholeWord(buf, i, table[r]);
      assert l <= r;
    }
    if l < |table| {
      MatchIsWholeWord(buf, i, table[l]);
      assert r <= l;
    }
  }

  /** At every word of every text, the first row to match is the row of that word. */
  ghost predicate WholeWords(table: seq<Entry>) {
    forall buf: string, i: nat :: i < |buf| && !IsWhite(buf[i]) ==> MatchesWord(table, buf, i)
  }

  predicate MatchesWord(table: seq<Entry>, buf: string, i: nat)
    requires i <= |buf|
  {
    FirstMatch(table, buf, i, 0) == Lookup(table, buf[i..RunEnd(buf, i, false)], 0)
  }

  /** Which tables the tokenizer is right for, exactly: those in which no row with white space
      in it can be the first to match. */
  lemma WholeWordsExactly(table: seq<Entry>)
    ensures WholeWords(table) <==> Separated(table)
  {
    hide IsWhite, RunEnd, Plain, FirstMatch, MatchesAt, Lookup, MatchesWord, Reachable;
    if Separated(table) {
      forall buf: string, i: nat | i < |buf| && !IsWhite(buf[i])
        ensures MatchesWord(table, buf, i)
      {
        MatchIsLookup(table, buf, i);
        MatchesWordIs(table, buf, i);
      }
    }
    if WholeWords(table) {
      forall k: nat | k < |table| && Reachable(table, k)
        ensures Plain(table[k].word)
      {
        StartsLikeWord(table, k);
        assert MatchesWord(table, table[k].word, 0);
        ReachedIsPlain(table, k);
      }
    }
  }

  lemma MatchesWordIs(table: seq<Entry>, buf: string, i: nat)
    requires i <= |buf| && FirstMatch(table, buf, i, 0) == Lookup(table, buf[i..RunEnd(buf, i, false)], 0)
    ensures MatchesWord(table, buf, i)
  {
  }

  lemma StartsLikeWord(table: seq<Entry>, k: nat)
    requires Reachable(table, k)
    ensures k < |table| && table[k].word != "" && !IsWhite(table[k].word[0])
  {
    hide IsWhite;
  }

  /** On the text that is just the row's own word, the row is the first to match. */
  lemma ReachedIsPlain(table: seq<Entry>, k: nat)
    requires Reachable(table, k) && MatchesWord(table, table[k].word, 0)
    ensures Plain(table[k].word)
  {
    hide IsWhite, FirstMatch, RunEnd, Lookup;
    var word := table[k].word;
    assert word[0..|word|] == word;
    assert MatchesAt(word, 0, table[k]);
    var r := FirstMatch(table, word, 0, 0);
    assert r == k;
    WordIsPlain(word, 0);
  }

  lemma AllKnownCons(table: seq<Entry>, w: string, words: seq<string>)
    ensures AllKnown(table, [w] + words) <==> Known(table, w) && AllKnown(table, words)
  {
    hide Known;
    var all := [w] + words;
    assert all[0] == w && forall i :: 0 <= i < |words| ==> words[i] == all[i + 1];
  }

  /** The tokenizer is "split at white space, look each word up, fold": it reaches the end
      exactly when every word is in the table, and value and mask are the fold of the words
      up to the first unknown one. */
  lemma {:induction false} ScanIsSplitLookupFold(table: seq<Entry>, buf: string, i: nat, f: Fold)
    requires Separated(table) && i <= |buf|
    ensures Scan(table, buf, i, f) == (AllKnown(table, Words(buf, i)), FoldWords(table, Words(buf, i), f))
    decreases |buf| - i
  {
    hide IsWhite, RunEnd, FirstMatch, MatchesAt, Lookup, AllKnown, Apply, Separated;
    var s := RunEnd(buf, i, true);
    if s == |buf| {
      NoWords(table);
    } else {
      var e := RunEnd(buf, s, false);
      var w := buf[s..e];
      var words := Words(buf, e);
      MatchIsLookup(table, buf, s);
      AllKnownCons(table, w, words);
      assert ([w] + words)[1..] == words;
      if Known(table, w) {
        var row := table[Lookup(table, w, 0)];
        assert s + |row.word| == e;
        ScanIsSplitLookupFold(table, buf, e, Apply(f, row));
      }
    }
  }

  lemma NoWords(table: seq<Entry>)
    ensures AllKnown(table, [])
  {
  }

  /** A STORE_TABLE_ENTRY row: the word sets exactly the bits it masks. */
  function Row(word: string, bits: bv32): Entry {
    Entry(word, bits, bits)
  }

  /** The one table that is stored through the tokenizer, of the power sequencer. */
  const POWER_TABLE: seq<Entry> := [
    Row("on", 0x2), Row("off", 0x4), Row("cycle", 0x8), Row("ignore", 0x71),
    Row("other", 0x40), Row("device", 0x20), Row("ov", 0x10), Row("uv", 0x1)]

  lemma PlainShort(word: string)
    requires 0 < |word| <= 6 && forall i :: 0 <= i < |word| ==> 'a' <= word[i] <= 'z'
    ensures Plain(word)
  {
  }

  /** Its rows are plain and all different, so all that is claimed of such tables holds of it. */
  lemma PowerTableIsPlain()
    ensures PlainWords(POWER_TABLE) && Separated(POWER_TABLE)
    ensures forall j, k :: 0 <= j < k < |POWER_TABLE| ==> POWER_TABLE[j].word != POWER_TABLE[k].word
  {
    hide Plain, IsWhite;
    forall k | 0 <= k < |POWER_TABLE|
      ensures Plain(POWER_TABLE[k].word)
    {
      PlainShort(POWER_TABLE[k].word);
    }
    assert "on"[1] != "ov"[1] && "on"[0] != "uv"[0] && "ov"[0] != "uv"[0] && "cycle"[0] != "other"[0];
    assert "ignore"[0] != "device"[0];
    PlainIsSeparated(POWER_TABLE);
  }

  /** A row with white space in it, which no table of the drivers has, can match across two
      words. */
  lemma SpacedRowMatchesTwoWords()
    ensures Scan([Entry("a b", 1, 1)], "a b", 0, Fold(0, 0)).0
    ensures !AllKnown([Entry("a b", 1, 1)], Words("a b", 0))
  {
    var table, buf := [Entry("a b", 1, 1)], "a b";
    SpacedScan(table, buf);
    SpacedWords(table, buf);
  }

  lemma SpacedScan(table: seq<Entry>, buf: string)
    requires buf == "a b" && |table| == 1 && table[0].word == buf
    ensures Scan(table, buf, 0, Fold(0, 0)).0
  {
    hide Apply;
    assert RunEnd(buf, 0, true) == 0;
    assert buf[0..3] == buf;
    assert MatchesAt(buf, 0, table[0]);
    assert FirstMatch(table, buf, 0, 0) == 0;
  }

  lemma SpacedWords(table: seq<Entry>, buf: string)
    requires buf == "a b" && |table| == 1 && table[0].word == buf
    ensures !AllKnown(table, Words(buf, 0))
  {
    assert RunEnd(buf, 0, true) == 0 && RunEnd(buf, 1, false) == 1 && RunEnd(buf, 0, false) == 1;
    assert |buf[0..1]| == 1;
    assert !Known(table, buf[0..1]);
    assert Words(buf, 0)[0] == buf[0..1];
  }

  /** No word of the list has a row that sets or clears any of these bits. */
  predicate Untouched(table: seq<Entry>, words: seq<string>, bits: bv32) {
    forall i :: 0 <= i < |words| && Known(table, words[i]) ==> Spares(table[Lookup(table, words[i], 0)], bits)
  }

  predicate Spares(e: Entry, bits: bv32) {
    e.mask & bits == 0 && e.value & bits == 0
  }

  /** The mask covers these bits. */
  predicate Covers(e: Entry, bits: bv32) {
    e.mask & bits == bits
  }

  predicate SameBits(x: bv32, y: bv32, bits: bv32) {
    x & bits == y & bits
  }

  lemma ApplyBits(f: Fold, e: Entry, bits: bv32)
    ensures Spares(e, bits) ==> SameBits(Apply(f, e).value, f.value, bits)
    ensures Covers(e, bits) ==> SameBits(Apply(f, e).value, e.value, bits)
  {
  }

  lemma {:induction false} UntouchedBitsStay(table: seq<Entry>, words: seq<string>, f: Fold, bits: bv32)
    requires Untouched(table, words, bits)
    ensures SameBits(FoldWords(table, words, f).value, f.value, bits)
  {
    hide Apply, Spares, Lookup;
    if words != [] && Known(table, words[0]) {
      var row := table[Lookup(table, words[0], 0)];
      ApplyBits(f, row, bits);
      UntouchedBitsStay(table, words[1..], Apply(f, row), bits);
    }
  }

  lemma FoldCons(table: seq<Entry>, w: string, words: seq<string>, f: Fold)
    requires Known(table, w)
    ensures FoldWords(table, [w] + words, f) == FoldWords(table, words, Apply(f, table[Lookup(table, w, 0)]))
  {
    hide Apply, Lookup;
    assert ([w] + words)[1..] == words;
  }

  /** Later words override earlier ones: bits that a word's mask covers and no later word
      touches have that word's value in the end, whatever came before. */
  lemma {:induction false} LastWordDecides(table: seq<Entry>, before: seq<string>, w: string,
                                           after: seq<string>, f: Fold, bits: bv32)
    requires AllKnown(table, before) && Known(table, w) && Untouched(table, after, bits)
    requires Covers(table[Lookup(table, w, 0)], bits)
    ensures SameBits(FoldWords(table, before + [w] + after, f).value, table[Lookup(table, w, 0)].value, bits)
    decreases |before|
  {
    hide Apply, Lookup, Untouched, FoldWords, AllKnown, Covers;
    if before == [] {
      assert before + [w] + after == [w] + after;
      FoldCons(table, w, after, f);
      ApplyBits(f, table[Lookup(table, w, 0)], bits);
      UntouchedBitsStay(table, after, Apply(f, table[Lookup(table, w, 0)]), bits);
    } else {
      var b, rest := before[0], before[1..];
      assert before == [b] + rest && before + [w] + after == [b] + (rest + [w] + after);
      AllKnownCons(table, b, rest);
      FoldCons(table, b, rest + [w] + after, f);
      LastWordDecides(table, rest, w, after, Apply(f, table[Lookup(table, b, 0)]), bits);
    }
  }

  /** The two words have a bit in common. */
  predicate Meet(x: bv32, bits: bv32) {
    x & bits != 0
  }

  /** The row of this word masks some of these bits. */
  predicate RowMasks(table: seq<Entry>, w: string, bits: bv32) {
    Known(table, w) && Meet(table[Lookup(table, w, 0)].mask, bits)
  }

  /** So does the row of one of the words up to the first unknown one. */
  ghost predicate SomeRowMasks(table: seq<Entry>, words: seq<string>, bits: bv32) {
    exists j :: 0 <= j < |words| && AllKnown(table, words[..j]) && RowMasks(table, words[j], bits)
  }

  lemma OrDistributes(x: bv32, y: bv32, bits: bv32, p: bv32, q: bv32)
    requires p == x & bits && q == y & bits
    ensures (x | y) & bits != 0 <==> p != 0 || q != 0
  {
  }

  lemma MeetEither(x: bv32, y: bv32, z: bv32, bits: bv32)
    requires z == x | y
    ensures Meet(z, bits) <==> Meet(x, bits) || Meet(y, bits)
  {
    OrDistributes(x, y, bits, x & bits, y & bits);
  }

  lemma ApplyMask(f: Fold, e: Entry, bits: bv32)
    ensures Meet(Apply(f, e).mask, bits) <==> Meet(f.mask, bits) || Meet(e.mask, bits)
  {
    hide Meet;
    MeetEither(f.mask, e.mask, Apply(f, e).mask, bits);
  }

  lemma SomeRowMasksCons(table: seq<Entry>, w: string, words: seq<string>, bits: bv32)
    ensures SomeRowMasks(table, [w] + words, bits) <==>
            RowMasks(table, w, bits) || (Known(table, w) && SomeRowMasks(table, words, bits))
  {
    hide RowMasks, Known, AllKnown;
    var all := [w] + words;
    NoWords(table);
    assert all[0] == w && all[..0] == [];
    forall j {:trigger words[j]} | 0 <= j < |words|
      ensures AllKnown(table, all[..j + 1]) <==> Known(table, w) && AllKnown(table, words[..j])
      ensures all[j + 1] == words[j]
    {
      assert all[..j + 1] == [w] + words[..j];
      AllKnownCons(table, w, words[..j]);
    }
    if SomeRowMasks(table, all, bits) {
      var j :| 0 <= j < |all| && AllKnown(table, all[..j]) && RowMasks(table, all[j], bits);
      if j > 0 {
        assert all[(j - 1) + 1] == words[j - 1];
      }
    }
  }

  /** The mask handed back has exactly the bits that the words' rows mask. */
  lemma {:induction false} MaskIsTheRows(table: seq<Entry>, words: seq<string>, f: Fold, bits: bv32)
    ensures Meet(FoldWords(table, words, f).mask, bits) <==> Meet(f.mask, bits) || SomeRowMasks(table, words, bits)
  {
    hide Apply, Meet, Lookup, AllKnown;
    if words != [] {
      var w, rest := words[0], words[1..];
      assert words == [w] + rest;
      SomeRowMasksCons(table, w, rest, bits);
      if Known(table, w) {
        ApplyMask(f, table[Lookup(table, w, 0)], bits);
        MaskIsTheRows(table, rest, Apply(f, table[Lookup(table, w, 0)]), bits);
      }
    }
  }

  // ------------------------------------------------- maximal runs, directly

  /** buf[s..e] is a maximal run without white space. */
  predicate IsRun(buf: string, s: nat, e: nat) {
    && s < e <= |buf| && (forall k :: s <= k < e ==> !IsWhite(buf[k]))
    && (s == 0 || IsWhite(buf[s - 1])) && (e == |buf| || IsWhite(buf[e]))
  }

  /** Where the words of the text from i on stand. */
  function Spans(buf: string, i: nat): (spans: seq<(nat, nat)>)
    requires i <= |buf|
    decreases |buf| - i
  {
    var s := RunEnd(buf, i, true);
    var e := RunEnd(buf, s, false);
    if s == |buf| then [] else [(s, e)] + Spans(buf, e)
  }

  predicate Boundary(buf: string, i: nat) {
    i == 0 || i == |buf| || (i < |buf| && IsWhite(buf[i]))
  }

  predicate Listed(spans: seq<(nat, nat)>, s: nat, e: nat) {
    (s, e) in spans
  }

  /** Each word is the text at its span; the spans ascend from i on and are exactly the
      maximal runs without white space. */
  ghost predicate Located(buf: string, i: nat, words: seq<string>, spans: seq<(nat, nat)>) {
    && |words| == |spans|
    && (forall k :: 0 <= k < |spans| ==>
          && i <= spans[k].0 && IsRun(buf, spans[k].0, spans[k].1) && words[k] == buf[spans[k].0..spans[k].1])
    && (forall j, k :: 0 <= j < k < |spans| ==> spans[j].1 <= spans[k].0)
    && (forall s: nat, e: nat :: IsRun(buf, s, e) && i <= s ==> Listed(spans, s, e))
  }

  /** The words are the maximal runs of the text, all of them and in order. */
  lemma {:induction false} WordsAreTheRuns(buf: string, i: nat)
    requires i <= |buf| && Boundary(buf, i)
    ensures Located(buf, i, Words(buf, i), Spans(buf, i))
    decreases |buf| - i
  {
    hide IsWhite, IsRun, Boundary, RunEnd, Located;
    var s := RunEnd(buf, i, true);
    var e := RunEnd(buf, s, false);
    if s == |buf| {
      NothingLocated(buf, i);
    } else {
      FirstRun(buf, i, s, e);
      WordsAreTheRuns(buf, e);
      LocatedCons(buf, i, s, e, Words(buf, e), Spans(buf, e));
    }
  }

  lemma NothingLocated(buf: string, i: nat)
    requires i <= |buf| && forall k :: i <= k < |buf| ==> IsWhite(buf[k])
    ensures Located(buf, i, [], [])
  {
    hide IsWhite, IsRun;
    forall s: nat, e: nat
      ensures !(IsRun(buf, s, e) && i <= s)
    {
      NoRunInWhite(buf, i, s, e);
    }
  }

  lemma ListedCons(spans: seq<(nat, nat)>, s: nat, e: nat, s': nat, e': nat)
    ensures Listed([(s, e)] + spans, s', e') <==> (s', e') == (s, e) || Listed(spans, s', e')
  {
  }

  lemma LocatedCons(buf: string, i: nat, s: nat, e: nat, words: seq<string>, spans: seq<(nat, nat)>)
    requires s < e <= |buf| && IsRun(buf, s, e) && i <= s && forall k :: i <= k < s ==> IsWhite(buf[k])
    requires Located(buf, e, words, spans)
    ensures Located(buf, i, [buf[s..e]] + words, [(s, e)] + spans)
  {
    hide IsWhite, IsRun, Listed;
    forall s': nat, e': nat | IsRun(buf, s', e') && i <= s'
      ensures Listed([(s, e)] + spans, s', e')
    {
      RunSplits(buf, i, s, e, s', e');
      ListedCons(spans, s, e, s', e');
    }
  }

  lemma NoRunInWhite(buf: string, i: nat, s: nat, e: nat)
    requires i <= |buf| && forall k :: i <= k < |buf| ==> IsWhite(buf[k])
    ensures !(IsRun(buf, s, e) && i <= s)
  {
    hide IsWhite;
    if i <= s < |buf| {
      assert IsWhite(buf[s]);
    }
  }

  lemma FirstRun(buf: string, i: nat, s: nat, e: nat)
    requires i <= s < |buf| && Boundary(buf, i)
    requires s == RunEnd(buf, i, true) && e == RunEnd(buf, s, false)
    ensures IsRun(buf, s, e) && Boundary(buf, e)
  {
    hide IsWhite, RunEnd;
  }

  /** After white space up to s, the first run is [s, e) and every other run lies after it. */
  lemma RunSplits(buf: string, i: nat, s: nat, e: nat, s': nat, e': nat)
    requires IsRun(buf, s, e) && i <= s && forall k :: i <= k < s ==> IsWhite(buf[k])
    requires IsRun(buf, s', e') && i <= s'
    ensures e <= s' || (s', e') == (s, e)
  {
    hide IsWhite;
    if s' < e {
      assert !IsWhite(buf[s']);
      assert s' == s;
      assert e' == e;
    }
  }

  // ------------------------------------------------------- round trip

  predicate Blank(s: string) {
    forall i :: 0 <= i < |s| ==> IsWhite(s[i])
  }

  /** Words with white space around them: gaps[i] before word i, and one gap at the end. */
  function Print(words: seq<string>, gaps: seq<string>): string
    requires |gaps| == |words| + 1
  {
    if words == [] then gaps[0] else gaps[0] + words[0] + Print(words[1..], gaps[1..])
  }

  /** Plain words, blank gaps, and no two words without a gap between them. */
  predicate Printable(words: seq<string>, gaps: seq<string>) {
    && |gaps| == |words| + 1
    && (forall i :: 0 <= i < |gaps| ==> Blank(gaps[i]) && (0 < i < |words| ==> gaps[i] != ""))
    && (forall i :: 0 <= i < |words| ==> Plain(words[i]))
  }

  lemma RunEndIs(buf: string, before: string, run: string, after: string, white: bool)
    requires buf == before + run + after
    requires forall k :: 0 <= k < |run| ==> IsWhite(run[k]) == white
    requires after != "" ==> IsWhite(after[0]) != white
    ensures RunEnd(buf, |before|, white) == |before + run|
  {
    hide IsWhite, RunEnd;
    var i, e := |before|, |before + run|;
    assert forall k :: i <= k < e ==> buf[k] == run[k - i];
    assert after != "" ==> buf[e] == after[0];
    var r := RunEnd(buf, i, white);
    assert e <= r;
    assert r <= e;
  }

  lemma PrintStartsBlank(words: seq<string>, gaps: seq<string>)
    requires Printable(words, gaps) && Print(words, gaps) != "" && (words != [] ==> gaps[0] != "")
    ensures IsWhite(Print(words, gaps)[0])
  {
    hide IsWhite;
    assert Blank(gaps[0]) && Print(words, gaps)[0] == gaps[0][0];
  }

  lemma FirstOfWords(text: string, before: string, gap: string, w: string, tail: string)
    requires text == before + gap + w + tail && Blank(gap) && Plain(w) && (tail != "" ==> IsWhite(tail[0]))
    ensures Words(text, |before|) == [w] + Words(text, |before + gap + w|)
  {
    hide IsWhite, RunEnd;
    assert text == before + gap + (w + tail);
    RunEndIs(text, before, gap, w + tail, true);
    RunEndIs(text, before + gap, w, tail, false);
    assert text[|before + gap|..|before + gap + w|] == w;
  }

  lemma {:induction false} WordsOfPrint(before: string, words: seq<string>, gaps: seq<string>)
    requires Printable(words, gaps)
    ensures Words(before + Print(words, gaps), |before|) == words
    decreases |words|
  {
    hide IsWhite, RunEnd, Words, Blank, Plain;
    var text := before + Print(words, gaps);
    if words == [] {
      NoWordsInGap(text, before, gaps[0]);
    } else {
      var w, tail := words[0], Print(words[1..], gaps[1..]);
      assert text == before + gaps[0] + w + tail;
      assert Printable(words[1..], gaps[1..]);
      if tail != "" {
        PrintStartsBlank(words[1..], gaps[1..]);
      }
      FirstOfWords(text, before, gaps[0], w, tail);
      WordsOfPrint(before + gaps[0] + w, words[1..], gaps[1..]);
    }
  }

  lemma NoWordsInGap(text: string, before: string, gap: string)
    requires text == before + gap && Blank(gap)
    ensures Words(text, |before|) == []
  {
    hide IsWhite, RunEnd;
    assert text == before + gap + "";
    RunEndIs(text, before, gap, "", true);
  }

  /** Printing any list of table words and parsing the text gives back their fold. */
  lemma PrintThenScan(table: seq<Entry>, words: seq<string>, gaps: seq<string>)
    requires Separated(table) && AllKnown(table, words) && Printable(words, gaps)
    ensures Scan(table, Print(words, gaps), 0, Fold(0, 0)) == (true, FoldWords(table, words, Fold(0, 0)))
  {
    hide Separated, FoldWords, Words, Scan, AllKnown;
    WordsOfPrint("", words, gaps);
    assert "" + Print(words, gaps) == Print(words, gaps);
    ScanIsSplitLookupFold(table, Print(words, gaps), 0, Fold(0, 0));
  }

  predicate DistinctWords(table: seq<Entry>) {
    forall j, k :: 0 <= j < k < |table| ==> table[j].word != table[k].word
  }

  /** A word with one character before or after it. */
  predicate WithChar(buf: string, w: string, c: char) {
    buf == w + [c] || buf == [c] + w
  }

  /** With a white character the text is that one word, with any other it is one longer word. */
  lemma WordsWithChar(buf: string, w: string, c: char)
    requires Plain(w) && WithChar(buf, w, c)
    ensures Words(buf, 0) == [if IsWhite(c) then w else buf]
  {
    hide IsWhite, RunEnd, Words;
    var word := if IsWhite(c) then w else buf;
    var before := if IsWhite(c) && buf != w + [c] then [c] else "";
    var after := if IsWhite(c) && buf == w + [c] then [c] else "";
    assert buf == before + word + after;
    PrintOne(before, word, after);
    WordsOfPrint("", [word], [before, after]);
    assert "" + buf == buf;
  }

  lemma PrintOne(before: string, w: string, after: string)
    ensures Print([w], [before, after]) == before + w + after
  {
    assert Print([w][1..], [before, after][1..]) == after;
  }

  /** Storing a row's word gives that row's value. */
  lemma FoldOfRow(table: seq<Entry>, k: nat)
    requires DistinctWords(table) && k < |table|
    ensures AllKnown(table, [table[k].word])
    ensures FoldWords(table, [table[k].word], Fold(0, 0)) == Fold(table[k].value, table[k].mask)
  {
    hide Lookup;
    var words := [table[k].word];
    assert Lookup(table, words[0], 0) == k;
    assert words[1..] == [];
    ApplyToNothing(table[k]);
  }

  lemma ApplyToNothing(e: Entry)
    ensures Apply(Fold(0, 0), e) == Fold(e.value, e.mask)
  {
  }

  lemma KnownExactly(table: seq<Entry>, w: string)
    ensures AllKnown(table, [w]) <==> exists k :: 0 <= k < |table| && table[k].word == w
  {
    assert [w][0] == w;
  }

  lemma StoredWithChar(table: seq<Entry>, buf: string)
    requires PlainWords(table) && DistinctWords(table)
    ensures Separated(table)
    ensures forall k, c :: 0 <= k < |table| && WithChar(buf, table[k].word, c) ==>
              if IsWhite(c) then
                AllKnown(table, Words(buf, 0)) && FoldWords(table, Words(buf, 0), Fold(0, 0)).value == table[k].value
              else
                AllKnown(table, Words(buf, 0)) <==> exists j :: 0 <= j < |table| && table[j].word == buf
  {
    hide IsWhite, Words, FoldWords, AllKnown, Plain, WithChar, Separated, DistinctWords;
    PlainIsSeparated(table);
    forall k, c | 0 <= k < |table| && WithChar(buf, table[k].word, c)
      ensures Words(buf, 0) == [if IsWhite(c) then table[k].word else buf]
    {
      WordsWithChar(buf, table[k].word, c);
    }
    forall k | 0 <= k < |table|
      ensures AllKnown(table, [table[k].word])
      ensures FoldWords(table, [table[k].word], Fold(0, 0)) == Fold(table[k].value, table[k].mask)
    {
      FoldOfRow(table, k);
    }
    KnownExactly(table, buf);
  }

  // ------------------------------------------------------------ the code

  /** The loop over white space, which moves the three cursors together. */
  method SkipWhite(buf: string, left0: nat, count0: nat, at0: nat) returns (left: nat, count: nat, at: nat)
    requires at0 + left0 == |buf|
    ensures at == RunEnd(buf, at0, true) && at + left == |buf| && count - count0 == at - at0
  {
    SpaceIsWhite();
    hide IsSpace, IsWhite, RunEnd;
    left, count, at := left0, count0, at0;
    while left > 0 && IsSpace(buf[at])
      invariant at0 <= at && at + left == |buf| && count - count0 == at - at0
      invariant forall k :: at0 <= k < at ==> IsWhite(buf[k])
      decreases left
    {
      left, count, at := left - 1, count + 1, at + 1;
    }
  }

  /** The loop over the table: the first row that matches at position at, or none. */
  method FindRow(rows: seq<Entry>, buf: string, at: nat) returns (k: nat)
    requires at <= |buf|
    ensures k == FirstMatch(rows, buf, at, 0)
  {
    hide IsSpace;
    k := 0;
    while k < |rows|
      invariant 0 <= k <= |rows| && FirstMatch(rows, buf, at, k) == FirstMatch(rows, buf, at, 0)
    {
      var len := |rows[k].word|;
      if len <= |buf| - at && buf[at..at + len] == rows[k].word {
        if len == |buf| - at || IsSpace(buf[at + len]) {
          break;
        }
      }
      k := k + 1;
    }
  }

  lemma ScanStep(rows: seq<Entry>, buf: string, i: nat, f: Fold)
    requires i <= |buf|
    ensures
      var s := RunEnd(buf, i, true);
      var k := FirstMatch(rows, buf, s, 0);
      Scan(rows, buf, i, f) == if s == |buf| then (true, f) else if k == |rows| then (false, f)
                               else Scan(rows, buf, s + |rows[k].word|, Apply(f, rows[k]))
  {
    hide IsWhite, RunEnd, FirstMatch, MatchesAt, Apply;
  }

  lemma MaskOfText(table: seq<Entry>, buf: string)
    requires Separated(table)
    ensures forall bits ::
              Meet(Scan(table, buf, 0, Fold(0, 0)).1.mask, bits) <==> SomeRowMasks(table, Words(buf, 0), bits)
  {
    hide Separated, Scan, Words, FoldWords, SomeRowMasks;
    ScanIsSplitLookupFold(table, buf, 0, Fold(0, 0));
    forall bits
      ensures Meet(FoldWords(table, Words(buf, 0), Fold(0, 0)).mask, bits) <==> SomeRowMasks(table, Words(buf, 0), bits)
    {
      MaskIsTheRows(table, Words(buf, 0), Fold(0, 0), bits);
    }
  }

  /** _sysfs_parse_table; None for the consumed count is -EINVAL. */
  method ParseTable(table: Option<seq<Entry>>, buf: string, dataDim: nat) returns (consumed: Option<nat>, data: Fold)
    ensures table.None? || table.value == [] || dataDim < 2 ==> consumed.None?
    ensures table.Some? && table.value != [] && dataDim >= 2 ==>
              var (ok, f) := Scan(table.value, buf, 0, Fold(0, 0));
              data == f && consumed == if ok then Some(|buf|) else None
    ensures table.Some? && table.value != [] && dataDim >= 2 && Separated(table.value) ==>
              forall bits :: Meet(data.mask, bits) <==> SomeRowMasks(table.value, Words(buf, 0), bits)
  {
    SpaceIsWhite();
    hide IsSpace, IsWhite, RunEnd, FirstMatch, Apply, Scan, Separated, SomeRowMasks, Meet;
    data := Fold(0, 0);
    if table.None? || table.value == [] || dataDim < 2 {
      return None, data;
    }
    if Separated(table.value) {
      MaskOfText(table.value, buf);
    }
    var rows, at, left, count := table.value, 0, |buf|, 0;
    while left != 0
      invariant 0 <= at <= |buf| && at + left == |buf| && count == at
      invariant Scan(rows, buf, 0, Fold(0, 0)) == Scan(rows, buf, at, data)
      decreases left
    {
      ScanStep(rows, buf, at, data);
      left, count, at := SkipWhite(buf, left, count, at);
      if left == 0 {
        break;
      }
      var k := FindRow(rows, buf, at);
      if k == |rows| {
        return None, data;
      }
      data := Apply(data, rows[k]);
      var len := |rows[k].word|;
      left, count, at := left - len, count + len, at + len;
    }
    ScanStep(rows, buf, at, data);
    consumed := Some(count);
  }

  /** cisco_fpga_sysfs_store_table: one register write of the folded value, or none. */
  method StoreTable(table: Option<seq<Entry>>, buf: string, writeOk: bool)
    returns (result: Option<nat>, written: Option<bv32>)
    ensures table.None? || table.value == [] ==> result.None? && written.None?
    ensures table.Some? && table.value != [] && Separated(table.value) ==>
              && (written.Some? <==> AllKnown(table.value, Words(buf, 0)))
              && (written.Some? ==> written.value == FoldWords(table.value, Words(buf, 0), Fold(0, 0)).value)
              && result == (if written.Some? && writeOk then Some(|buf|) else None)
    // the text that echo writes, and every other row's word with one character more
    ensures table.Some? && PlainWords(table.value) && DistinctWords(table.value) ==>
              forall k, c :: 0 <= k < |table.value| && WithChar(buf, table.value[k].word, c) ==>
                if IsWhite(c) then
                  written == Some(table.value[k].value) && result == (if writeOk then Some(|buf|) else None)
                else
                  written.Some? <==> exists j :: 0 <= j < |table.value| && table.value[j].word == buf
  {
    hide IsWhite, Words, FoldWords, Scan, Separated, AllKnown;
    var consumed, data := ParseTable(table, buf, 2);
    if table.Some? && table.value != [] && Separated(table.value) {
      ScanIsSplitLookupFold(table.value, buf, 0, Fold(0, 0));
    }
    if table.Some? && PlainWords(table.value) && DistinctWords(table.value) {
      StoredWithChar(table.value, buf);
    }
    if consumed.None? || consumed.value != |buf| {
      return None, None;
    }
    return if writeOk then consumed else None, Some(data.value);
  }
}
