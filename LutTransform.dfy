// gabac lookup-table transform (lut_transform.cpp). Order 0 replaces every
// symbol by its rank in inverseLut0: distinct symbols by descending
// frequency, ties by ascending value. Order k > 0 then replaces that index by
// its rank among the indices seen after the same k previous indices.
module LutTransform {
  import opened Bytes
  import opened PairSort

  /** MAX_LUT_SIZE: at this many table entries the transform gives up. */
  const MAX_LUT_SIZE: nat := 0x10_0000

  function Pow(k: nat, n: nat): (r: nat)
  {
    if n == 0 then 1 else k * Pow(k, n - 1)
  }

  // ---------------------------------------------------------------------------
  // Order 0: the specification

  function Distinct(s: seq<U64>): set<U64>
  {
    set x | x in s
  }

  function Count(s: seq<U64>, x: U64): nat
  {
    multiset(s)[x]
  }

  /** The frequency table inferLut0 accumulates. */
  function Counts(s: seq<U64>): map<U64, nat>
  {
    map x | x in Distinct(s) :: Count(s, x)
  }

  /** a is ranked before b: more frequent, or as frequent and smaller. */
  predicate Ranks(s: seq<U64>, a: U64, b: U64)
  {
    Count(s, a) > Count(s, b) || (Count(s, a) == Count(s, b) && a < b)
  }

  /** inverseLut0: every distinct symbol of s once, in rank order. */
  predicate RankedSymbols(s: seq<U64>, inv: seq<U64>)
  {
    (forall i, j :: 0 <= i < j < |inv| ==> Ranks(s, inv[i], inv[j])) &&
    (forall x :: x in inv ==> x in s) && (forall x :: x in s ==> x in inv)
  }

  predicate Unique(inv: seq<U64>)
  {
    forall i, j :: 0 <= i < j < |inv| ==> inv[i] != inv[j]
  }

  predicate Ascending(lut: seq<Pair>)
  {
    forall i, j :: 0 <= i < j < |lut| ==> lut[i].first < lut[j].first
  }

  /** lut0: each symbol of inverseLut0 with its index there, by ascending symbol. */
  predicate IndexTable(lut: seq<Pair>, inv: seq<U64>)
  {
    |lut| == |inv| && Ascending(lut) &&
    (forall k :: 0 <= k < |lut| ==> lut[k].second < |inv| && inv[lut[k].second] == lut[k].first) &&
    (forall r :: 0 <= r < |inv| ==> Pair(inv[r], r) in lut)
  }

  /** The position of x in inv. */
  function IndexOf(inv: seq<U64>, x: U64): (r: nat)
    requires x in inv
    ensures r < |inv| && inv[r] == x
    ensures forall r' :: 0 <= r' < r ==> inv[r'] != x
  {
    if inv[0] == x then 0 else 1 + IndexOf(inv[1..], x)
  }

  /** The order-0 transform: each symbol's position in inverseLut0. */
  function Ids(inv: seq<U64>, s: seq<U64>): (ids: seq<nat>)
    requires forall x :: x in s ==> x in inv
    ensures |ids| == |s| && Below(ids, |inv|)
    ensures forall j :: 0 <= j < |s| ==> inv[ids[j]] == s[j]
  {
    seq(|s|, i requires 0 <= i < |s| => IndexOf(inv, s[i]))
  }

  lemma RankedUnique(s: seq<U64>, inv: seq<U64>)
    requires RankedSymbols(s, inv)
    ensures Unique(inv)
  {
  }

  /** In a table without repeats a position holding x is x's position. */
  lemma IndexOfUnique(inv: seq<U64>, x: U64, r: nat)
    requires Unique(inv) && r < |inv| && inv[r] == x
    ensures IndexOf(inv, x) == r
  {
  }

  lemma {:induction false} UniqueCard(inv: seq<U64>)
    requires Unique(inv)
    ensures |Distinct(inv)| == |inv|
  {
    if inv != [] {
      var tail := inv[1..];
      assert Distinct(inv) == {inv[0]} + Distinct(tail);
      assert inv[0] !in Distinct(tail);
      UniqueCard(tail);
    }
  }

  lemma SubsetCard(a: set<U64>, b: set<U64>)
    requires a <= b
    ensures |a| <= |b|
  {
    assert b == a + (b - a);
  }

  // ---------------------------------------------------------------------------
  // Order 0: inferLut0 and lut0SingleTransform

  /** inferLut0: clear both tables; give up (empty tables) on an empty input
      or once 2^20 distinct symbols have been counted. */
  method InferLut0(symbols: seq<U64>) returns (lut: seq<Pair>, inverseLut: seq<U64>)
    ensures symbols == [] || |Distinct(symbols)| >= MAX_LUT_SIZE ==> lut == [] && inverseLut == []
    ensures symbols != [] && |Distinct(symbols)| < MAX_LUT_SIZE ==>
              RankedSymbols(symbols, inverseLut) && IndexTable(lut, inverseLut) &&
              |inverseLut| == |Distinct(symbols)|
  {
    lut, inverseLut := [], [];
    if symbols == [] {
      return;
    }
    var freq, complete := CountFrequencies(symbols);
    if !complete {
      return;
    }
    var freqVec := Entries(freq);
    var sorted := Sort(ByFrequency, freqVec);
    SortSorted(ByFrequency, freqVec);
    EntriesOfCounts(symbols, freqVec);
    var numbered;
    inverseLut, numbered := NumberSymbols(sorted);
    RankedFromSorted(symbols, freqVec, sorted, inverseLut);
    RankedUnique(symbols, inverseLut);
    lut := Sort(ByValue, numbered);
    IndexTableFromSorted(inverseLut, numbered, lut);
    assert Distinct(inverseLut) == Distinct(symbols);
    UniqueCard(inverseLut);
  }

  /** The counting loop of inferLut0; `complete` is false when it stopped
      at 2^20 distinct symbols. */
  method CountFrequencies(symbols: seq<U64>) returns (freq: map<U64, nat>, complete: bool)
    ensures complete <==> |Distinct(symbols)| < MAX_LUT_SIZE
    ensures complete ==> freq == Counts(symbols)
  {
    freq := map[];
    var i := 0;
    while i < |symbols|
      invariant 0 <= i <= |symbols| && freq == Counts(symbols[..i])
      invariant |Distinct(symbols[..i])| < MAX_LUT_SIZE
    {
      var x := symbols[i];
      CountsSnoc(symbols[..i], x);
      assert symbols[..i + 1] == symbols[..i] + [x];
      freq := freq[x := (if x in freq then freq[x] else 0) + 1];
      i := i + 1;
      assert freq.Keys == Distinct(symbols[..i]);
      if |freq| >= MAX_LUT_SIZE {
        SubsetCard(Distinct(symbols[..i]), Distinct(symbols));
        return freq, false;
      }
    }
    assert symbols[..i] == symbols;
    complete := true;
  }

  lemma CountsSnoc(s: seq<U64>, x: U64)
    ensures Counts(s + [x]) == Counts(s)[x := (if x in Counts(s) then Counts(s)[x] else 0) + 1]
  {
    assert multiset(s + [x]) == multiset(s) + multiset{x};
    assert Distinct(s + [x]) == Distinct(s) + {x};
  }

  /** std::copy of the frequency map into a vector, in the map's own
      (unspecified) iteration order. */
  method Entries(freq: map<U64, nat>) returns (r: seq<Pair>)
    ensures NoDuplicates(r)
    ensures forall k :: 0 <= k < |r| ==> r[k].first in freq && r[k].second == freq[r[k].first]
    ensures forall x :: x in freq ==> Pair(x, freq[x]) in r
  {
    r := [];
    var rest := freq.Keys;
    while rest != {}
      invariant rest <= freq.Keys && NoDuplicates(r)
      invariant forall k :: 0 <= k < |r| ==> r[k].first in freq && r[k].first !in rest && r[k].second == freq[r[k].first]
      invariant forall x :: x in freq && x !in rest ==> Pair(x, freq[x]) in r
      decreases |rest|
    {
      var x :| x in rest;
      r := r + [Pair(x, freq[x])];
      rest := rest - {x};
    }
  }

  /** The emplace_back loop: inverseLut0 lists the sorted symbols, lut0
      pairs each with its position. */
  method NumberSymbols(sorted: seq<Pair>) returns (inverseLut: seq<U64>, lut: seq<Pair>)
    ensures |inverseLut| == |lut| == |sorted|
    ensures forall r :: 0 <= r < |sorted| ==> inverseLut[r] == sorted[r].first && lut[r] == Pair(sorted[r].first, r)
  {
    inverseLut, lut := [], [];
    var k := 0;
    while k < |sorted|
      invariant k <= |sorted| && |inverseLut| == |lut| == k
      invariant forall r :: 0 <= r < k ==> inverseLut[r] == sorted[r].first && lut[r] == Pair(sorted[r].first, r)
    {
      lut := lut + [Pair(sorted[k].first, |inverseLut|)];
      inverseLut := inverseLut + [sorted[k].first];
      k := k + 1;
    }
  }

  /** The frequency table's entries are the symbols with their counts. */
  lemma EntriesOfCounts(s: seq<U64>, freqVec: seq<Pair>)
    requires forall k :: 0 <= k < |freqVec| ==> freqVec[k].first in Counts(s) &&
                                                freqVec[k].second == Counts(s)[freqVec[k].first]
    requires forall x :: x in Counts(s) ==> Pair(x, Counts(s)[x]) in freqVec
    ensures forall k :: 0 <= k < |freqVec| ==> freqVec[k].first in s && freqVec[k].second == Count(s, freqVec[k].first)
    ensures forall x :: x in s ==> Pair(x, Count(s, x)) in freqVec
  {
    forall x | x in s
      ensures Pair(x, Count(s, x)) in freqVec
    {
      assert x in Distinct(s);
      assert x in Counts(s) && Counts(s)[x] == Count(s, x);
    }
  }

  lemma RankedFromSorted(s: seq<U64>, freqVec: seq<Pair>, sorted: seq<Pair>, inv: seq<U64>)
    requires multiset(sorted) == multiset(freqVec) && StrictlySorted(ByFrequency, sorted)
    requires forall k :: 0 <= k < |freqVec| ==> freqVec[k].first in s && freqVec[k].second == Count(s, freqVec[k].first)
    requires forall x :: x in s ==> Pair(x, Count(s, x)) in freqVec
    requires |inv| == |sorted| && forall r :: 0 <= r < |sorted| ==> inv[r] == sorted[r].first
    ensures RankedSymbols(s, inv)
  {
    forall r | 0 <= r < |sorted|
      ensures inv[r] in s && sorted[r].second == Count(s, inv[r])
    {
      Member(sorted, freqVec, r);
    }
    forall i, j | 0 <= i < j < |inv|
      ensures Ranks(s, inv[i], inv[j])
    {
      assert Before(ByFrequency, sorted[i], sorted[j]);
    }
    forall x | x in s
      ensures x in inv
    {
      var p := Pair(x, Count(s, x));
      assert p in multiset(sorted);
      var r :| 0 <= r < |sorted| && sorted[r] == p;
      assert inv[r] == x;
    }
  }

  lemma IndexTableFromSorted(inv: seq<U64>, numbered: seq<Pair>, lut: seq<Pair>)
    requires Unique(inv) && |numbered| == |inv|
    requires forall r :: 0 <= r < |inv| ==> numbered[r] == Pair(inv[r], r)
    requires lut == Sort(ByValue, numbered)
    ensures IndexTable(lut, inv)
  {
    assert NoDuplicates(numbered);
    SortSorted(ByValue, numbered);
    forall k | 0 <= k < |lut|
      ensures lut[k].second < |inv| && inv[lut[k].second] == lut[k].first
    {
      Member(lut, numbered, k);
    }
    forall r | 0 <= r < |inv|
      ensures Pair(inv[r], r) in lut
    {
      assert numbered[r] in multiset(numbered);
    }
  }

  /** lut0SingleTransform: std::lower_bound on the symbol, which the source
      asserts is present; gives the symbol's index in inverseLut0. */
  predicate Present(lut0: seq<Pair>, symbol: U64)
  {
    exists k :: 0 <= k < |lut0| && lut0[k].first == symbol
  }

  method Lut0SingleTransform(lut0: seq<Pair>, symbol: U64) returns (r: nat)
    requires Ascending(lut0) && Present(lut0, symbol)
    ensures exists k :: 0 <= k < |lut0| && lut0[k] == Pair(symbol, r)
  {
    var lo, hi := 0, |lut0|;
    while lo < hi
      invariant 0 <= lo <= hi <= |lut0|
      invariant forall k :: 0 <= k < lo ==> lut0[k].first < symbol
      invariant forall k :: hi <= k < |lut0| ==> lut0[k].first >= symbol
    {
      var mid := (lo + hi) / 2;
      if lut0[mid].first < symbol {
        lo := mid + 1;
      } else {
        hi := mid;
      }
    }
    ghost var k :| 0 <= k < |lut0| && lut0[k].first == symbol;
    assert lo <= k;
    assert lo < |lut0| && lut0[lo].first == symbol;
    r := lut0[lo].second;
  }

  /** A lookup with a valid lut0 yields the symbol's position in inverseLut0. */
  method LookupIndex(lut0: seq<Pair>, ghost inv: seq<U64>, symbol: U64) returns (r: nat)
    requires IndexTable(lut0, inv) && Unique(inv) && symbol in inv
    ensures r == IndexOf(inv, symbol)
  {
    var k := IndexOf(inv, symbol);
    assert Pair(inv[k], k) in lut0;
    r := Lut0SingleTransform(lut0, symbol);
    IndexOfUnique(inv, symbol, r);
  }

  // ---------------------------------------------------------------------------
  // Orders > 0: contexts

  /** The `order` indices before position n, most recent first; the
      history vector starts out as zeros. */
  function Previous(ids: seq<nat>, n: nat, order: nat): (h: seq<nat>)
    requires n <= |ids|
    ensures |h| == order
  {
    seq(order, j requires 0 <= j < order => if j < n then ids[n - 1 - j] else 0)
  }

  /** "Compute position": the history read as a base-k number whose least
      significant digit is h[0]. */
  function Pos(h: seq<nat>, k: nat): nat
  {
    if h == [] then 0 else Pos(h[1..], k) * k + h[0]
  }

  predicate Below(h: seq<nat>, k: nat)
  {
    forall j :: 0 <= j < |h| ==> h[j] < k
  }

  /** The table slot position n of ids falls in: its block is the context of
      the `order` previous indices, its offset the index itself. */
  function Slot(ids: seq<nat>, n: nat, order: nat, k: nat): nat
    requires n < |ids|
  {
    Pos(Previous(ids, n, order), k) * k + ids[n]
  }

  lemma {:induction false} PosBound(h: seq<nat>, k: nat)
    requires Below(h, k)
    ensures Pos(h, k) < Pow(k, |h|)
  {
    if h != [] {
      PosBound(h[1..], k);
      MulMonotone(Pos(h[1..], k) + 1, Pow(k, |h| - 1), k);
    }
  }

  lemma PreviousBelow(ids: seq<nat>, n: nat, order: nat, k: nat)
    requires n <= |ids| && Below(ids, k) && k >= 1
    ensures Below(Previous(ids, n, order), k)
  {
  }

  lemma SlotBound(ids: seq<nat>, n: nat, order: nat, k: nat)
    requires n < |ids| && Below(ids, k)
    ensures Slot(ids, n, order, k) < Pow(k, order + 1)
  {
    assert ids[n] < k;
    PreviousBelow(ids, n, order, k);
    PosBound(Previous(ids, n, order), k);
    MulMonotone(Pos(Previous(ids, n, order), k) + 1, Pow(k, order), k);
  }

  /** The history after position n is the index at n, then the history
      before it shifted by one. */
  lemma PreviousStep(ids: seq<nat>, n: nat, order: nat)
    requires n < |ids|
    ensures Previous(ids, n + 1, order + 1) == [ids[n]] + Previous(ids, n, order + 1)[..order]
    ensures Previous(ids, n + 1, order + 1) == [ids[n]] + Previous(ids, n, order)
  {
  }

  lemma SlotIsPos(ids: seq<nat>, n: nat, order: nat, k: nat)
    requires n < |ids|
    ensures Slot(ids, n, order, k) == Pos(Previous(ids, n + 1, order + 1), k)
  {
    PreviousStep(ids, n, order);
    assert Previous(ids, n + 1, order + 1)[1..] == Previous(ids, n, order);
  }

  /** Previous only looks back: a longer sequence has the same history. */
  lemma PreviousPrefix(ids: seq<nat>, more: seq<nat>, n: nat, order: nat)
    requires n <= |ids| && ids <= more
    ensures Previous(ids, n, order) == Previous(more, n, order)
  {
  }

  /** Update history: move every entry one place back; entry 0 stays until
      the caller overwrites it. */
  method ShiftHistory(h: seq<nat>) returns (h': seq<nat>)
    requires |h| >= 1
    ensures h' == [h[0]] + h[..|h| - 1]
  {
    h' := h;
    var i := |h| - 1;
    while i > 0
      invariant 0 <= i <= |h| - 1 && |h'| == |h|
      invariant forall j :: 0 <= j <= i ==> h'[j] == h[j]
      invariant forall j :: i < j < |h| ==> h'[j] == h[j - 1]
    {
      h' := h'[i := h'[i - 1]];
      i := i - 1;
    }
  }

  /** Compute position: Horner's rule from the oldest entry down. */
  method ContextIndex(h: seq<nat>, k: nat) returns (index: nat)
    requires |h| >= 1
    ensures index == Pos(h, k)
  {
    index := 0;
    var i := |h| - 1;
    assert h[i + 1..] == [];
    while i > 0
      invariant 0 <= i <= |h| - 1 && index == Pos(h[i + 1..], k)
    {
      assert h[i..][1..] == h[i + 1..];
      index := index * k + h[i];
      i := i - 1;
    }
    assert h[1..] == h[i + 1..];
    index := index * k + h[0];
  }

  /** Occurrences of each table slot among the first n positions. */
  function SlotCounts(ids: seq<nat>, n: nat, order: nat, k: nat): (c: seq<nat>)
    requires n <= |ids| && Below(ids, k)
    ensures |c| == Pow(k, order + 1)
  {
    if n == 0 then seq(Pow(k, order + 1), _ => 0)
    else
      var c := SlotCounts(ids, n - 1, order, k);
      var x := Slot(ids, n - 1, order, k);
      SlotBound(ids, n - 1, order, k);
      c[x := c[x] + 1]
  }

  /** Every slot a position falls in has been counted. */
  lemma {:induction false} SlotCounted(ids: seq<nat>, n: nat, order: nat, k: nat, m: nat)
    requires n <= |ids| && Below(ids, k) && m < n
    ensures Slot(ids, m, order, k) < Pow(k, order + 1)
    ensures SlotCounts(ids, n, order, k)[Slot(ids, m, order, k)] > 0
  {
    SlotBound(ids, m, order, k);
    if m < n - 1 {
      SlotCounted(ids, n - 1, order, k, m);
      SlotBound(ids, n - 1, order, k);
    }
  }

  function Seconds(ctr: seq<Pair>): (c: seq<nat>)
    ensures |c| == |ctr| && forall x :: 0 <= x < |ctr| ==> c[x] == ctr[x].second
  {
    seq(|ctr|, x requires 0 <= x < |ctr| => ctr[x].second)
  }

  /** The counting loop of inferLut: ctr[slot].second counts the positions
      that fall in each slot. */
  method CountContexts(order: nat, symbols: seq<U64>, lut0: seq<Pair>, ghost inv: seq<U64>)
      returns (ctr: seq<Pair>)
    requires IndexTable(lut0, inv) && Unique(inv) && forall x :: x in symbols ==> x in inv
    requires |lut0| >= 1
    ensures Seconds(ctr) == SlotCounts(Ids(inv, symbols), |symbols|, order, |lut0|)
  {
    ghost var ids := Ids(inv, symbols);
    var k := |lut0|;
    var size := 1;
    for i := 0 to order + 1
      invariant size == Pow(k, i)
    {
      size := size * k;
    }
    ctr := seq(size, _ => Pair(TWO_64 - 1, 0));
    assert Seconds(ctr) == SlotCounts(ids, 0, order, k);
    var last := seq(order + 1, _ => 0);
    for n := 0 to |symbols|
      invariant last == Previous(ids, n, order + 1)
      invariant Seconds(ctr) == SlotCounts(ids, n, order, k)
    {
      ctr, last := CountStep(order, symbols, lut0, inv, ids, n, ctr, last);
    }
  }

  /** One turn of the counting loop. */
  method CountStep(order: nat, symbols: seq<U64>, lut0: seq<Pair>, ghost inv: seq<U64>, ghost ids: seq<nat>,
                   n: nat, ctr: seq<Pair>, last: seq<nat>) returns (ctr': seq<Pair>, last': seq<nat>)
    requires IndexTable(lut0, inv) && Unique(inv) && forall x :: x in symbols ==> x in inv
    requires |lut0| >= 1 && ids == Ids(inv, symbols) && n < |symbols|
    requires last == Previous(ids, n, order + 1) && Seconds(ctr) == SlotCounts(ids, n, order, |lut0|)
    ensures last' == Previous(ids, n + 1, order + 1) && Seconds(ctr') == SlotCounts(ids, n + 1, order, |lut0|)
  {
    PreviousStep(ids, n, order);
    last' := ShiftHistory(last);
    var r := LookupIndex(lut0, inv, symbols[n]);
    last' := last'[0 := r];
    var index := ContextIndex(last', |lut0|);
    SlotIsPos(ids, n, order, |lut0|);
    SlotBound(ids, n, order, |lut0|);
    ctr' := ctr[index := ctr[index].(second := ctr[index].second + 1)];
    assert Seconds(ctr') == Seconds(ctr)[index := ctr[index].second + 1];
  }


  // ---------------------------------------------------------------------------
  // Orders > 0: the tables of one context

  /** The order of indices within one context: more often seen first, ties by
      the smaller index. */
  predicate RankedBefore(c: seq<nat>, j1: nat, j2: nat)
    requires j1 < |c| && j2 < |c|
  {
    c[j1] > c[j2] || (c[j1] == c[j2] && j1 < j2)
  }

  /** The tables inferLut builds for one context with slot counts c: lut1
      gives every index its rank, a permutation of 0..k-1 in RankedBefore
      order, and inverseLut1 maps each rank back to its index, or to 0 for
      indices never seen in this context. */
  predicate BlockRanks(c: seq<nat>, inv1: seq<U64>, lut1: seq<U64>)
  {
    |inv1| == |c| && |lut1| == |c| &&
    (forall j :: 0 <= j < |c| ==> lut1[j] < |c|) &&
    (forall j1, j2 :: 0 <= j1 < |c| && 0 <= j2 < |c| && j1 != j2 ==> lut1[j1] != lut1[j2]) &&
    (forall j1, j2 :: 0 <= j1 < |c| && 0 <= j2 < |c| ==> (lut1[j1] < lut1[j2] <==> RankedBefore(c, j1, j2))) &&
    (forall j :: 0 <= j < |c| ==> inv1[lut1[j]] == if c[j] > 0 then j else 0) &&
    (forall r :: 0 <= r < |c| ==> inv1[r] < |c|)
  }

  /** The body of inferLut's "step through all single LUTs" loop for one
      block of ctr. */
  method BlockTables(block: seq<Pair>) returns (inv1: seq<U64>, lut1: seq<U64>)
    requires 1 <= |block| < MAX_LUT_SIZE
    ensures BlockRanks(Seconds(block), inv1, lut1)
  {
    var numbered := NumberBlock(block);
    inv1, lut1 := RankBlock(Seconds(block), numbered);
  }

  /** The two sorts of a numbered block and the loops after each. */
  method RankBlock(ghost c: seq<nat>, numbered: seq<Pair>) returns (inv1: seq<U64>, lut1: seq<U64>)
    requires |numbered| == |c| < MAX_LUT_SIZE && forall j :: 0 <= j < |c| ==> numbered[j] == Pair(j, c[j])
    ensures BlockRanks(c, inv1, lut1)
  {
    var perm := Sort(ByFrequency, numbered);
    assert NoDuplicates(numbered);
    SortSorted(ByFrequency, numbered);
    PermFacts(c, numbered, perm);
    var ranked;
    inv1, ranked := FillInverse(perm);
    var resorted := Sort(ByValue, ranked);
    assert NoDuplicates(ranked);
    SortSorted(ByValue, ranked);
    ResortedFacts(c, perm, ranked, resorted);
    lut1 := RanksOf(resorted);
    BlockFromSorted(c, perm, inv1, resorted, lut1);
  }

  /** Number the slots of the block 0..k-1 in `first`. */
  method NumberBlock(block: seq<Pair>) returns (numbered: seq<Pair>)
    requires |block| < MAX_LUT_SIZE
    ensures |numbered| == |block| && forall j :: 0 <= j < |block| ==> numbered[j] == Pair(j, block[j].second)
  {
    numbered := block;
    var counter := 0;
    while counter < |block|
      invariant counter <= |block| && |numbered| == |block|
      invariant forall j :: 0 <= j < counter ==> numbered[j] == Pair(j, block[j].second)
      invariant forall j :: counter <= j < |block| ==> numbered[j] == block[j]
    {
      numbered := numbered[counter := numbered[counter].(first := counter)];
      counter := counter + 1;
    }
  }

  /** "Fill inverseLUT and write rank into second field": once a zero count
      is met every later entry of the sorted block gets 0. */
  method FillInverse(perm: seq<Pair>) returns (inv1: seq<U64>, ranked: seq<Pair>)
    requires StrictlySorted(ByFrequency, perm) && |perm| < MAX_LUT_SIZE
    ensures |inv1| == |ranked| == |perm|
    ensures forall r :: 0 <= r < |perm| ==> inv1[r] == (if perm[r].second > 0 then perm[r].first else 0)
    ensures forall r :: 0 <= r < |perm| ==> ranked[r] == Pair(perm[r].first, r)
  {
    inv1 := [];
    ranked := perm;
    var placed := false;
    var counter := 0;
    while counter < |perm|
      invariant counter <= |perm| && |inv1| == counter && |ranked| == |perm|
      invariant placed <==> counter > 0 && perm[counter - 1].second == 0
      invariant forall r :: 0 <= r < counter ==> inv1[r] == (if perm[r].second > 0 then perm[r].first else 0)
      invariant forall r :: 0 <= r < counter ==> ranked[r] == Pair(perm[r].first, r)
      invariant forall r :: counter <= r < |perm| ==> ranked[r] == perm[r]
    {
      if counter > 0 {
        assert Before(ByFrequency, perm[counter - 1], perm[counter]);
      }
      if ranked[counter].second == 0 && !placed {
        placed := true;
      }
      if !placed {
        inv1 := inv1 + [ranked[counter].first];
      } else {
        inv1 := inv1 + [0];
      }
      ranked := ranked[counter := ranked[counter].(second := counter)];
      counter := counter + 1;
    }
  }

  /** "Use previously set second field to fill LUT". */
  method RanksOf(resorted: seq<Pair>) returns (lut1: seq<U64>)
    requires forall j :: 0 <= j < |resorted| ==> resorted[j].second < TWO_64
    ensures |lut1| == |resorted| && forall j :: 0 <= j < |resorted| ==> lut1[j] == resorted[j].second
  {
    lut1 := [];
    for j := 0 to |resorted|
      invariant |lut1| == j && forall i :: 0 <= i < j ==> lut1[i] == resorted[i].second
    {
      lut1 := lut1 + [resorted[j].second];
    }
  }

  /** The block sorted by frequency holds each index once with its count. */
  lemma PermFacts(c: seq<nat>, numbered: seq<Pair>, perm: seq<Pair>)
    requires |numbered| == |c| < MAX_LUT_SIZE && forall j :: 0 <= j < |c| ==> numbered[j] == Pair(j, c[j])
    requires multiset(perm) == multiset(numbered) && StrictlySorted(ByFrequency, perm)
    ensures |perm| == |c|
    ensures forall r :: 0 <= r < |perm| ==> perm[r].first < |c| && perm[r] == Pair(perm[r].first, c[perm[r].first])
  {
    assert |perm| == |multiset(perm)| == |numbered|;
    forall r | 0 <= r < |perm|
      ensures perm[r].first < |c| && perm[r] == Pair(perm[r].first, c[perm[r].first])
    {
      Member(perm, numbered, r);
    }
  }

  /** Sorting the ranked block by index puts index j at position j. */
  lemma ResortedFacts(c: seq<nat>, perm: seq<Pair>, ranked: seq<Pair>, resorted: seq<Pair>)
    requires |perm| == |c| && StrictlySorted(ByFrequency, perm)
    requires forall r :: 0 <= r < |perm| ==> perm[r].first < |c| && perm[r] == Pair(perm[r].first, c[perm[r].first])
    requires |ranked| == |perm| && forall r :: 0 <= r < |perm| ==> ranked[r] == Pair(perm[r].first, r)
    requires multiset(resorted) == multiset(ranked) && StrictlySorted(ByValue, resorted)
    ensures |resorted| == |c|
    ensures forall j :: 0 <= j < |c| ==> resorted[j].first == j && resorted[j].second < |c| &&
                                         perm[resorted[j].second].first == j
  {
    assert |resorted| == |multiset(resorted)| == |ranked|;
    forall j | 0 <= j < |resorted|
      ensures resorted[j].first < |c| && resorted[j].second < |c| && perm[resorted[j].second].first == resorted[j].first
    {
      Member(resorted, ranked, j);
    }
    PermFirstsDistinct(c, perm);
    forall i, j | 0 <= i < j < |resorted|
      ensures resorted[i].first < resorted[j].first
    {
      assert Before(ByValue, resorted[i], resorted[j]);
    }
    AscendingAtLeast(resorted, |c|);
    AscendingAtMost(resorted, |c|);
  }

  lemma PermFirstsDistinct(c: seq<nat>, perm: seq<Pair>)
    requires |perm| == |c| && StrictlySorted(ByFrequency, perm)
    requires forall r :: 0 <= r < |perm| ==> perm[r].first < |c| && perm[r] == Pair(perm[r].first, c[perm[r].first])
    ensures forall a, b :: 0 <= a < |perm| && 0 <= b < |perm| && a != b ==> perm[a].first != perm[b].first
  {
    forall a, b | 0 <= a < b < |perm|
      ensures perm[a].first != perm[b].first
    {
      assert Before(ByFrequency, perm[a], perm[b]);
    }
  }

  /** Strictly ascending firsts: entry j is at least j. */
  lemma AscendingAtLeast(xs: seq<Pair>, k: nat)
    requires Ascending(xs)
    ensures forall j :: 0 <= j < |xs| ==> xs[j].first >= j
  {
    forall j | 0 <= j < |xs|
      ensures xs[j].first >= j
    {
      AscendingAtLeastAt(xs, j);
    }
  }

  lemma {:induction false} AscendingAtLeastAt(xs: seq<Pair>, j: nat)
    requires Ascending(xs) && j < |xs|
    ensures xs[j].first >= j
  {
    if j > 0 {
      AscendingAtLeastAt(xs, j - 1);
    }
  }

  /** Strictly ascending firsts below k = |xs|: entry j is at most j. */
  lemma AscendingAtMost(xs: seq<Pair>, k: nat)
    requires Ascending(xs) && |xs| == k && forall j :: 0 <= j < k ==> xs[j].first < k
    ensures forall j :: 0 <= j < k ==> xs[j].first <= j
  {
    forall j | 0 <= j < k
      ensures xs[j].first <= j
    {
      AscendingAtMostAt(xs, k, j);
    }
  }

  lemma {:induction false} AscendingAtMostAt(xs: seq<Pair>, k: nat, j: nat)
    requires Ascending(xs) && |xs| == k && forall j :: 0 <= j < k ==> xs[j].first < k
    requires j < k
    ensures xs[j].first + (k - 1 - j) <= k - 1
    decreases k - j
  {
    if j < k - 1 {
      AscendingAtMostAt(xs, k, j + 1);
    }
  }

  lemma BlockFromSorted(c: seq<nat>, perm: seq<Pair>, inv1: seq<U64>, resorted: seq<Pair>, lut1: seq<U64>)
    requires |perm| == |c| && StrictlySorted(ByFrequency, perm)
    requires forall r :: 0 <= r < |perm| ==> perm[r].first < |c| && perm[r] == Pair(perm[r].first, c[perm[r].first])
    requires |inv1| == |perm|
    requires forall r :: 0 <= r < |perm| ==> inv1[r] == (if perm[r].second > 0 then perm[r].first else 0)
    requires |resorted| == |c|
    requires forall j :: 0 <= j < |c| ==> resorted[j].first == j && resorted[j].second < |c| &&
                                          perm[resorted[j].second].first == j
    requires |lut1| == |c| && forall j :: 0 <= j < |c| ==> lut1[j] == resorted[j].second
    ensures BlockRanks(c, inv1, lut1)
  {
    forall j1, j2 | 0 <= j1 < |c| && 0 <= j2 < |c|
      ensures lut1[j1] < lut1[j2] <==> RankedBefore(c, j1, j2)
    {
      var r1, r2 := lut1[j1], lut1[j2];
      assert perm[r1] == Pair(j1, c[j1]) && perm[r2] == Pair(j2, c[j2]);
      if r1 < r2 {
        assert Before(ByFrequency, perm[r1], perm[r2]);
      } else if r2 < r1 {
        assert Before(ByFrequency, perm[r2], perm[r1]);
      }
    }
  }

  // ---------------------------------------------------------------------------
  // Orders > 0: inferLut

  /** Block b of a table with blocks of k entries. */
  function BlockOf<T>(s: seq<T>, b: nat, k: nat): seq<T>
    requires b * k + k <= |s|
  {
    s[b * k .. b * k + k]
  }

  /** All contexts' tables: block b of lut1 and inverseLut1 ranks the slot
      counts of block b. */
  predicate ContextTables(counts: seq<nat>, k: nat, blocks: nat, inv1: seq<U64>, lut1: seq<U64>)
  {
    |counts| == blocks * k && |inv1| == |counts| && |lut1| == |counts| &&
    forall b :: 0 <= b < blocks && b * k + k <= |counts| ==>
      BlockRanks(BlockOf(counts, b, k), BlockOf(inv1, b, k), BlockOf(lut1, b, k))
  }

  lemma BlockFits(b: nat, blocks: nat, k: nat)
    requires b < blocks
    ensures b * k + k <= blocks * k
  {
    MulMonotone(b + 1, blocks, k);
  }

  /** The slot of index j in context ctx, read from the context tables. */
  lemma SlotTables(counts: seq<nat>, k: nat, blocks: nat, inv1: seq<U64>, lut1: seq<U64>, ctx: nat, j: nat)
    requires ContextTables(counts, k, blocks, inv1, lut1) && ctx < blocks && j < k
    ensures ctx * k + j < |counts| && lut1[ctx * k + j] < k && ctx * k + lut1[ctx * k + j] < |counts|
    ensures inv1[ctx * k + lut1[ctx * k + j]] == if counts[ctx * k + j] > 0 then j else 0
  {
    BlockFits(ctx, blocks, k);
    assert BlockRanks(BlockOf(counts, ctx, k), BlockOf(inv1, ctx, k), BlockOf(lut1, ctx, k));
    assert BlockOf(lut1, ctx, k)[j] == lut1[ctx * k + j];
    assert BlockOf(counts, ctx, k)[j] == counts[ctx * k + j];
    assert BlockOf(inv1, ctx, k)[lut1[ctx * k + j]] == inv1[ctx * k + lut1[ctx * k + j]];
  }

  /** The first b blocks of the context tables are built. */
  predicate TablesUpTo(counts: seq<nat>, k: nat, b: nat, inv1: seq<U64>, lut1: seq<U64>)
  {
    |inv1| == b * k && |lut1| == b * k && b * k <= |counts| &&
    forall b' :: 0 <= b' < b && b' * k + k <= |inv1| ==>
      BlockRanks(BlockOf(counts, b', k), BlockOf(inv1, b', k), BlockOf(lut1, b', k))
  }

  /** The "step through all single LUTs" loop of inferLut. */
  method BuildTables(ctr: seq<Pair>, k: nat, ghost blocks: nat) returns (inv1: seq<U64>, lut1: seq<U64>)
    requires 1 <= k < MAX_LUT_SIZE && |ctr| == blocks * k
    ensures ContextTables(Seconds(ctr), k, blocks, inv1, lut1)
  {
    inv1, lut1 := [], [];
    var i := 0;
    ghost var b := 0;
    while i < |ctr|
      invariant b <= blocks && i == b * k && TablesUpTo(Seconds(ctr), k, b, inv1, lut1)
      decreases |ctr| - i
    {
      if b >= blocks {
        MulMonotone(blocks, b, k);
      }
      BlockFits(b, blocks, k);
      inv1, lut1 := BuildBlock(ctr, k, i, b, inv1, lut1);
      i, b := i + k, b + 1;
    }
    if b < blocks {
      BlockFits(b, blocks, k);
    }
  }

  /** One iteration: the tables of block b are appended. */
  method BuildBlock(ctr: seq<Pair>, k: nat, i: nat, ghost b: nat, inv1: seq<U64>, lut1: seq<U64>)
      returns (inv1': seq<U64>, lut1': seq<U64>)
    requires 1 <= k < MAX_LUT_SIZE && i == b * k && i + k <= |ctr| && TablesUpTo(Seconds(ctr), k, b, inv1, lut1)
    ensures TablesUpTo(Seconds(ctr), k, b + 1, inv1', lut1')
  {
    var bi, bl := BlockTables(ctr[i .. i + k]);
    assert Seconds(ctr[i .. i + k]) == BlockOf(Seconds(ctr), b, k);
    inv1', lut1' := inv1 + bi, lut1 + bl;
    forall b' | 0 <= b' < b + 1 && b' * k + k <= |inv1'|
      ensures BlockRanks(BlockOf(Seconds(ctr), b', k), BlockOf(inv1', b', k), BlockOf(lut1', b', k))
    {
      if b' < b {
        BlockFits(b', b, k);
        BlockOfAppend(inv1, bi, b', k);
        BlockOfAppend(lut1, bl, b', k);
      } else {
        BlockOfLast(inv1, bi, b, k);
        BlockOfLast(lut1, bl, b, k);
      }
    }
  }

  lemma BlockOfAppend<T>(s: seq<T>, t: seq<T>, b: nat, k: nat)
    requires b * k + k <= |s|
    ensures BlockOf(s + t, b, k) == BlockOf(s, b, k)
  {
  }

  lemma BlockOfLast<T>(s: seq<T>, t: seq<T>, b: nat, k: nat)
    requires |s| == b * k && |t| == k
    ensures BlockOf(s + t, b, k) == t
  {
  }

  /** The order-0 step gives up: an empty input or 2^20 distinct symbols. */
  predicate Order0Fails(s: seq<U64>)
  {
    s == [] || |Distinct(s)| >= MAX_LUT_SIZE
  }

  /** The table of an order > 0 transform would hold 2^20 entries or more. */
  predicate TableTooLarge(order: nat, s: seq<U64>)
  {
    order > 0 && Pow(|Distinct(s)|, order + 1) >= MAX_LUT_SIZE
  }

  /** inferLut with the early return after a failed order-0 step (the
      source only returns on an empty input; see InferLutAsWrittenCounts). */
  method InferLut(order: nat, symbols: seq<U64>)
      returns (lut0: seq<Pair>, inverseLut0: seq<U64>, lut1: seq<U64>, inverseLut1: seq<U64>)
    ensures Order0Fails(symbols) ==> lut0 == [] && inverseLut0 == [] && lut1 == [] && inverseLut1 == []
    ensures !Order0Fails(symbols) ==> RankedSymbols(symbols, inverseLut0) && |inverseLut0| == |Distinct(symbols)|
    ensures !Order0Fails(symbols) && TableTooLarge(order, symbols) ==> lut0 == [] && lut1 == [] && inverseLut1 == []
    ensures !Order0Fails(symbols) && order == 0 ==> IndexTable(lut0, inverseLut0) && lut1 == [] && inverseLut1 == []
    ensures !Order0Fails(symbols) && order > 0 && !TableTooLarge(order, symbols) ==>
              IndexTable(lut0, inverseLut0) &&
              ContextTables(SlotCounts(Ids(inverseLut0, symbols), |symbols|, order, |inverseLut0|),
                            |inverseLut0|, Pow(|inverseLut0|, order), inverseLut1, lut1)
  {
    lut1, inverseLut1 := [], [];
    lut0, inverseLut0 := InferLut0(symbols);
    if lut0 == [] {
      return;
    }
    if order == 0 {
      return;
    }
    lut0, inverseLut1, lut1 := InferContexts(order, symbols, lut0, inverseLut0);
  }

  /** The part of inferLut after a successful order-0 step, for order > 0. */
  method InferContexts(order: nat, symbols: seq<U64>, lut0: seq<Pair>, ghost inv0: seq<U64>)
      returns (lut0': seq<Pair>, inverseLut1: seq<U64>, lut1: seq<U64>)
    requires order > 0 && 1 <= |lut0| < MAX_LUT_SIZE && IndexTable(lut0, inv0) && RankedSymbols(symbols, inv0)
    requires |inv0| == |Distinct(symbols)|
    ensures Pow(|inv0|, order + 1) >= MAX_LUT_SIZE ==> lut0' == [] && lut1 == [] && inverseLut1 == []
    ensures Pow(|inv0|, order + 1) < MAX_LUT_SIZE ==>
              lut0' == lut0 &&
              ContextTables(SlotCounts(Ids(inv0, symbols), |symbols|, order, |inv0|),
                            |inv0|, Pow(|inv0|, order), inverseLut1, lut1)
  {
    lut0', lut1, inverseLut1 := lut0, [], [];
    var k := |lut0|;
    var size := 1;
    for i := 0 to order + 1
      invariant size == Pow(k, i)
    {
      size := size * k;
    }
    if size >= MAX_LUT_SIZE {
      lut0' := [];
      return;
    }
    RankedUnique(symbols, inv0);
    var ctr := CountContexts(order, symbols, lut0, inv0);
    assert |ctr| == Pow(k, order) * k;
    inverseLut1, lut1 := BuildTables(ctr, k, Pow(k, order));
  }

  /** Every entry of the context tables' inverseLut1 is an index below k. */
  lemma ContextTablesBelow(counts: seq<nat>, k: nat, blocks: nat, inv1: seq<U64>, lut1: seq<U64>)
    requires ContextTables(counts, k, blocks, inv1, lut1) && k >= 1
    ensures forall v :: 0 <= v < |inv1| ==> inv1[v] < k
  {
    forall v | 0 <= v < |inv1|
      ensures inv1[v] < k
    {
      var ctx, r := v / k, v % k;
      DivBounds(v, k);
      if ctx >= blocks {
        MulMonotone(blocks, ctx, k);
      }
      BlockFits(ctx, blocks, k);
      assert BlockRanks(BlockOf(counts, ctx, k), BlockOf(inv1, ctx, k), BlockOf(lut1, ctx, k));
      assert v == ctx * k + r;
      assert BlockOf(inv1, ctx, k)[r] == inv1[v];
    }
  }

  // ---------------------------------------------------------------------------
  // The transform and its inverse

  /** The value the transform emits at position n: the index itself for
      order 0, else the index's rank in the table of its context. */
  function ForwardAt(ids: seq<nat>, n: nat, order: nat, k: nat, lut1: seq<U64>): nat
    requires n < |ids| && Below(ids, k) && (order > 0 ==> |lut1| == Pow(k, order + 1))
  {
    if order == 0 then ids[n]
    else
      SlotBound(ids, n, order, k);
      lut1[Slot(ids, n, order, k)]
  }

  function Forward(ids: seq<nat>, order: nat, k: nat, lut1: seq<U64>): (t: seq<nat>)
    requires Below(ids, k) && (order > 0 ==> |lut1| == Pow(k, order + 1))
    ensures |t| == |ids|
  {
    seq(|ids|, n requires 0 <= n < |ids| => ForwardAt(ids, n, order, k, lut1))
  }

  /** transformLutTransform_core. */
  method TransformCore(order: nat, symbols: seq<U64>, lut0: seq<Pair>, lut: seq<U64>, ghost inv: seq<U64>)
      returns (transformed: seq<U64>)
    requires IndexTable(lut0, inv) && Unique(inv) && (forall x :: x in symbols ==> x in inv)
    requires |lut0| < MAX_LUT_SIZE && (order > 0 ==> |lut| == Pow(|lut0|, order + 1))
    ensures transformed == Forward(Ids(inv, symbols), order, |lut0|, lut)
  {
    transformed := [];
    if symbols == [] {
      return;
    }
    ghost var ids := Ids(inv, symbols);
    var last := seq(order + 1, _ => 0);
    for n := 0 to |symbols|
      invariant last == Previous(ids, n, order + 1)
      invariant transformed == Forward(ids, order, |lut0|, lut)[..n]
    {
      transformed, last := TransformStep(order, symbols, lut0, lut, inv, ids, n, transformed, last);
    }
  }

  method TransformStep(order: nat, symbols: seq<U64>, lut0: seq<Pair>, lut: seq<U64>, ghost inv: seq<U64>,
                       ghost ids: seq<nat>, n: nat, transformed: seq<U64>, last: seq<nat>)
      returns (transformed': seq<U64>, last': seq<nat>)
    requires IndexTable(lut0, inv) && Unique(inv) && (forall x :: x in symbols ==> x in inv)
    requires |lut0| < MAX_LUT_SIZE && (order > 0 ==> |lut| == Pow(|lut0|, order + 1))
    requires ids == Ids(inv, symbols) && n < |symbols| && last == Previous(ids, n, order + 1)
    requires transformed == Forward(ids, order, |lut0|, lut)[..n]
    ensures last' == Previous(ids, n + 1, order + 1)
    ensures transformed' == Forward(ids, order, |lut0|, lut)[..n + 1]
  {
    PreviousStep(ids, n, order);
    last' := ShiftHistory(last);
    var r := LookupIndex(lut0, inv, symbols[n]);
    last' := last'[0 := r];
    var index := ContextIndex(last', |lut0|);
    var t: U64 := r;
    if order > 0 {
      SlotIsPos(ids, n, order, |lut0|);
      SlotBound(ids, n, order, |lut0|);
      t := lut[index];
    }
    transformed' := transformed + [t];
  }

  /** The tables the inverse is given: for order > 0 one entry per slot,
      each an index below k. */
  predicate InverseTables(order: nat, k: nat, inv1: seq<U64>)
  {
    order > 0 ==> |inv1| == Pow(k, order + 1) && forall v :: 0 <= v < |inv1| ==> inv1[v] < k
  }

  lemma InverseSlotBound(prev: seq<nat>, x: nat, order: nat, k: nat)
    requires Below(prev, k) && x < k
    ensures Pos(Previous(prev, |prev|, order), k) * k + x < Pow(k, order + 1)
  {
    PreviousBelow(prev, |prev|, order, k);
    PosBound(Previous(prev, |prev|, order), k);
    MulMonotone(Pos(Previous(prev, |prev|, order), k) + 1, Pow(k, order), k);
  }

  /** The index the inverse recovers from the transformed value x after the
      indices prev: for order > 0 looked up in the slot of x in the context
      of the recovered history. */
  function InverseAt(prev: seq<nat>, x: nat, order: nat, k: nat, inv1: seq<U64>): (r: nat)
    requires InverseTables(order, k, inv1) && Below(prev, k) && x < k
    ensures r < k
  {
    if order == 0 then x
    else
      InverseSlotBound(prev, x, order, k);
      inv1[Pos(Previous(prev, |prev|, order), k) * k + x]
  }

  /** The indices the inverse recovers, position by position. */
  function InverseIds(t: seq<nat>, order: nat, k: nat, inv1: seq<U64>): (ids: seq<nat>)
    requires InverseTables(order, k, inv1) && Below(t, k)
    ensures |ids| == |t| && Below(ids, k)
    decreases |t|
  {
    if t == [] then []
    else
      var t' := t[..|t| - 1];
      assert Below(t', k);
      var prev := InverseIds(t', order, k, inv1);
      var x := InverseAt(prev, t[|t| - 1], order, k, inv1);
      assert Below(prev + [x], k);
      prev + [x]
  }

  /** The inverse transform of t. */
  function Backward(t: seq<nat>, order: nat, inv0: seq<U64>, inv1: seq<U64>): (s: seq<U64>)
    requires InverseTables(order, |inv0|, inv1) && Below(t, |inv0|)
    ensures |s| == |t|
  {
    var ids := InverseIds(t, order, |inv0|, inv1);
    seq(|t|, i requires 0 <= i < |t| => inv0[ids[i]])
  }

  /** The inverse of a prefix is the prefix of the inverse. */
  lemma {:induction false} InverseIdsPrefix(t: seq<nat>, order: nat, k: nat, inv1: seq<U64>, n: nat)
    requires InverseTables(order, k, inv1) && Below(t, k) && n <= |t|
    ensures InverseIds(t[..n], order, k, inv1) == InverseIds(t, order, k, inv1)[..n]
    decreases |t|
  {
    if n < |t| {
      var t' := t[..|t| - 1];
      InverseIdsPrefix(t', order, k, inv1, n);
      assert t'[..n] == t[..n];
    } else {
      assert t[..n] == t;
    }
  }

  /** Position n of the inverse, from the indices before it. */
  lemma InverseIdsAt(t: seq<nat>, order: nat, k: nat, inv1: seq<U64>, n: nat)
    requires InverseTables(order, k, inv1) && Below(t, k) && n < |t|
    ensures InverseIds(t, order, k, inv1)[n] ==
            InverseAt(InverseIds(t, order, k, inv1)[..n], t[n], order, k, inv1)
  {
    InverseIdsPrefix(t, order, k, inv1, n);
    InverseIdsPrefix(t, order, k, inv1, n + 1);
    assert t[..n + 1][..n] == t[..n];
  }

  /** inverseTransformLutTransform_core. */
  method InverseCore(order: nat, transformed: seq<U64>, inverseLut0: seq<U64>, inverseLut: seq<U64>)
      returns (symbols: seq<U64>)
    requires InverseTables(order, |inverseLut0|, inverseLut) && Below(transformed, |inverseLut0|)
    ensures symbols == Backward(transformed, order, inverseLut0, inverseLut)
  {
    symbols := [];
    if transformed == [] {
      return;
    }
    ghost var ids := InverseIds(transformed, order, |inverseLut0|, inverseLut);
    ghost var goal := Backward(transformed, order, inverseLut0, inverseLut);
    var last := seq(order + 1, _ => 0);
    for n := 0 to |transformed|
      invariant last == Previous(ids, n, order + 1)
      invariant symbols == goal[..n]
    {
      symbols, last := InverseStep(order, transformed, inverseLut0, inverseLut, ids, goal, n, symbols, last);
    }
  }

  method InverseStep(order: nat, transformed: seq<U64>, inverseLut0: seq<U64>, inverseLut: seq<U64>,
                     ghost ids: seq<nat>, ghost goal: seq<U64>, n: nat, symbols: seq<U64>, last: seq<nat>)
      returns (symbols': seq<U64>, last': seq<nat>)
    requires InverseTables(order, |inverseLut0|, inverseLut) && Below(transformed, |inverseLut0|)
    requires ids == InverseIds(transformed, order, |inverseLut0|, inverseLut) && n < |transformed|
    requires goal == Backward(transformed, order, inverseLut0, inverseLut)
    requires last == Previous(ids, n, order + 1) && symbols == goal[..n]
    ensures last' == Previous(ids, n + 1, order + 1) && symbols' == goal[..n + 1]
  {
    var k := |inverseLut0|;
    InverseStepFacts(transformed, order, k, inverseLut, ids, n);
    PreviousStep(ids, n, order);
    last' := ShiftHistory(last);
    last' := last'[0 := transformed[n]];
    assert last' == [transformed[n]] + Previous(ids, n, order);
    if order == 0 {
      symbols' := symbols + [inverseLut0[last'[0]]];
      return;
    }
    var unTransformed := ContextLookup(last', k, inverseLut);
    last' := last'[0 := unTransformed];
    symbols' := symbols + [inverseLut0[unTransformed]];
  }

  /** What one turn of the inverse loop recovers. */
  lemma InverseStepFacts(t: seq<nat>, order: nat, k: nat, inv1: seq<U64>, ids: seq<nat>, n: nat)
    requires InverseTables(order, k, inv1) && Below(t, k)
    requires ids == InverseIds(t, order, k, inv1) && n < |t|
    ensures order == 0 ==> ids[n] == t[n]
    ensures order > 0 ==> Pos([t[n]] + Previous(ids, n, order), k) < |inv1| &&
                          ids[n] == inv1[Pos([t[n]] + Previous(ids, n, order), k)]
  {
    InverseIdsAt(t, order, k, inv1, n);
    PreviousPrefix(ids[..n], ids, n, order);
    assert ([t[n]] + Previous(ids, n, order))[1..] == Previous(ids, n, order);
    InverseSlotBound(ids[..n], t[n], order, k);
  }

  /** Compute position and read the table entry of that slot. */
  method ContextLookup(h: seq<nat>, k: nat, table: seq<U64>) returns (v: U64)
    requires |h| >= 1 && Pos(h, k) < |table|
    ensures v == table[Pos(h, k)]
  {
    var index := ContextIndex(h, k);
    v := table[index];
  }

  // ---------------------------------------------------------------------------
  // Round trips

  /** Order 0: the inverse hands the transformed indices straight back. */
  lemma {:induction false} InverseIdsOrder0(t: seq<nat>, k: nat, inv1: seq<U64>)
    requires Below(t, k)
    ensures InverseIds(t, 0, k, inv1) == t
    decreases |t|
  {
    if t != [] {
      InverseIdsOrder0(t[..|t| - 1], k, inv1);
    }
  }

  /** Orders > 0: at a position seen in the input, the context's inverse
      table undoes its ranking. */
  lemma ForwardAtInverse(ids: seq<nat>, order: nat, k: nat, inv1: seq<U64>, lut1: seq<U64>, n: nat)
    requires order > 0 && k >= 1 && Below(ids, k) && n < |ids|
    requires ContextTables(SlotCounts(ids, |ids|, order, k), k, Pow(k, order), inv1, lut1)
    ensures InverseTables(order, k, inv1) && ForwardAt(ids, n, order, k, lut1) < k
    ensures InverseAt(ids[..n], ForwardAt(ids, n, order, k, lut1), order, k, inv1) == ids[n]
  {
    ContextTablesBelow(SlotCounts(ids, |ids|, order, k), k, Pow(k, order), inv1, lut1);
    var h := Previous(ids, n, order);
    PreviousBelow(ids, n, order, k);
    PosBound(h, k);
    SlotTables(SlotCounts(ids, |ids|, order, k), k, Pow(k, order), inv1, lut1, Pos(h, k), ids[n]);
    SlotCounted(ids, |ids|, order, k, n);
    PreviousPrefix(ids[..n], ids, n, order);
  }

  lemma {:induction false} InverseIdsOfForward(ids: seq<nat>, order: nat, k: nat, inv1: seq<U64>, lut1: seq<U64>, n: nat)
    requires order > 0 && k >= 1 && Below(ids, k) && n <= |ids|
    requires ContextTables(SlotCounts(ids, |ids|, order, k), k, Pow(k, order), inv1, lut1)
    ensures InverseTables(order, k, inv1) && Below(Forward(ids, order, k, lut1), k)
    ensures InverseIds(Forward(ids, order, k, lut1)[..n], order, k, inv1) == ids[..n]
  {
    ContextTablesBelow(SlotCounts(ids, |ids|, order, k), k, Pow(k, order), inv1, lut1);
    var t := Forward(ids, order, k, lut1);
    forall m | 0 <= m < |ids|
      ensures t[m] < k
    {
      ForwardAtInverse(ids, order, k, inv1, lut1, m);
    }
    if n > 0 {
      InverseIdsOfForward(ids, order, k, inv1, lut1, n - 1);
      ForwardAtInverse(ids, order, k, inv1, lut1, n - 1);
      assert t[..n][..n - 1] == t[..n - 1];
      assert ids[..n] == ids[..n - 1] + [ids[n - 1]];
    }
  }

  /** The tables could not be built: transformLutTransform0 leaves the output
      untouched and hands out empty tables. */
  predicate LutFallback(order: nat, s: seq<U64>)
  {
    Order0Fails(s) || TableTooLarge(order, s)
  }

  /** What transformLutTransform0 hands out when the tables could be built;
      lut1 is the forward table, which stays internal. */
  ghost predicate LutTransformed(order: nat, s: seq<U64>, transformed: seq<U64>, inv0: seq<U64>, inv1: seq<U64>, lut1: seq<U64>)
  {
    RankedSymbols(s, inv0) && |inv0| == |Distinct(s)| && |inv0| >= 1 &&
    (order == 0 ==> inv1 == [] && transformed == Forward(Ids(inv0, s), 0, |inv0|, lut1)) &&
    (order > 0 ==>
       ContextTables(SlotCounts(Ids(inv0, s), |s|, order, |inv0|), |inv0|, Pow(|inv0|, order), inv1, lut1) &&
       transformed == Forward(Ids(inv0, s), order, |inv0|, lut1))
  }

  /** The inverse transform gives back the input symbols. */
  lemma LutRoundTrip(order: nat, s: seq<U64>, transformed: seq<U64>, inv0: seq<U64>, inv1: seq<U64>, lut1: seq<U64>)
    requires LutTransformed(order, s, transformed, inv0, inv1, lut1)
    ensures InverseTables(order, |inv0|, inv1) && Below(transformed, |inv0|)
    ensures Backward(transformed, order, inv0, inv1) == s
  {
    var ids := Ids(inv0, s);
    if order == 0 {
      InverseIdsOrder0(transformed, |inv0|, inv1);
    } else {
      InverseIdsOfForward(ids, order, |inv0|, inv1, lut1, |ids|);
      assert transformed[..|ids|] == transformed && ids[..|ids|] == ids;
    }
  }

  /** transformLutTransform0. */
  method TransformLutTransform0(order: nat, symbols: seq<U64>, transformedIn: seq<U64>)
      returns (transformed: seq<U64>, inverseLut: seq<U64>, inverseLut1: seq<U64>, ghost lut1: seq<U64>)
    ensures LutFallback(order, symbols) ==> transformed == transformedIn && inverseLut == [] && inverseLut1 == []
    ensures !LutFallback(order, symbols) ==> LutTransformed(order, symbols, transformed, inverseLut, inverseLut1, lut1)
    ensures !LutFallback(order, symbols) ==>
              InverseTables(order, |inverseLut|, inverseLut1) && Below(transformed, |inverseLut|) &&
              Backward(transformed, order, inverseLut, inverseLut1) == symbols
  {
    var lut0, lut;
    lut0, inverseLut, lut, inverseLut1 := InferLut(order, symbols);
    lut1 := lut;
    if symbols != [] {
      assert symbols[0] in Distinct(symbols);
    }
    if lut0 == [] {
      inverseLut, inverseLut1 := [], [];
      transformed := transformedIn;
      return;
    }
    RankedUnique(symbols, inverseLut);
    transformed := TransformCore(order, symbols, lut0, lut, inverseLut);
    LutRoundTrip(order, symbols, transformed, inverseLut, inverseLut1, lut1);
  }

  /** inverseTransformLutTransform0. */
  method InverseTransformLutTransform0(order: nat, transformed: seq<U64>, inverseLut: seq<U64>, inverseLut1: seq<U64>)
      returns (symbols: seq<U64>)
    requires InverseTables(order, |inverseLut|, inverseLut1) && Below(transformed, |inverseLut|)
    ensures symbols == Backward(transformed, order, inverseLut, inverseLut1)
  {
    symbols := InverseCore(order, transformed, inverseLut, inverseLut1);
  }

  // ---------------------------------------------------------------------------
  // inferLut as written

  /** The guard of inferLut as written: only an empty input returns before
      the size check, so the counting loop runs on every nonempty input of
      positive order whose table size K^(order+1) is below MAX_LUT_SIZE,
      K being the size of inverseLut0 -- also when inferLut0 gave up and
      left it empty, so that K^(order+1) is 0. */
  predicate InferLutAsWrittenCounts(order: nat, s: seq<U64>, inverseLut0: seq<U64>)
  {
    s != [] && order != 0 && Pow(|inverseLut0|, order + 1) < MAX_LUT_SIZE
  }

  /** Whenever inferLut0 gives up on a nonempty input, the as-written guard
      sends an order > 0 transform into the counting loop, whose first lookup
      searches an empty lut0. */
  lemma AsWrittenCountsAfterFailure(order: nat, s: seq<U64>)
    requires order > 0 && s != [] && Order0Fails(s)
    ensures InferLutAsWrittenCounts(order, s, [])
    ensures !Present([], s[0])
  {
    assert Pow(0, order + 1) == 0 * Pow(0, order);
  }

  /** The symbols 0, 1, ..., n-1. */
  function Ramp(n: nat): (s: seq<U64>)
    requires n <= TWO_64
    ensures |s| == n && forall i :: 0 <= i < n ==> s[i] == i
  {
    seq(n, i requires 0 <= i < n => i)
  }

  lemma {:induction false} RampDistinct(n: nat)
    requires n <= TWO_64
    ensures |Distinct(Ramp(n))| == n
  {
    if n > 0 {
      RampDistinct(n - 1);
      assert Ramp(n) == Ramp(n - 1) + [n - 1];
      assert Distinct(Ramp(n)) == Distinct(Ramp(n - 1)) + {n - 1};
      assert n - 1 !in Distinct(Ramp(n - 1));
    }
  }

  /** A concrete input: 2^20 distinct symbols, order 1. */
  lemma AsWrittenRampCounts()
    ensures Order0Fails(Ramp(MAX_LUT_SIZE)) && InferLutAsWrittenCounts(1, Ramp(MAX_LUT_SIZE), [])
  {
    RampDistinct(MAX_LUT_SIZE);
    AsWrittenCountsAfterFailure(1, Ramp(MAX_LUT_SIZE));
  }
}
