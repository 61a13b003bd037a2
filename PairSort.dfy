// The two std::sort calls of lut_transform.cpp on vectors of
// std::pair<uint64_t, uint64_t>. std::sort is library code: its result on a
// vector without repeated pairs is the unique strictly sorted permutation,
// computed here by insertion.
module PairSort {
  import opened Bytes

  /** std::pair<uint64_t, uint64_t>; the counts kept in `second` are unbounded. */
  datatype Pair = Pair(first: U64, second: nat)

  /** The two comparators handed to std::sort. */
  datatype Order =
    | ByFrequency  // larger second first, ties by smaller first
    | ByValue      // smaller first first, ties by larger second

  predicate Before(o: Order, a: Pair, b: Pair)
  {
    match o
    case ByFrequency => a.second > b.second || (a.second == b.second && a.first < b.first)
    case ByValue => a.first < b.first || (a.first == b.first && a.second > b.second)
  }

  /** Both comparators are strict total orders on pairs. */
  lemma BeforeTotal(o: Order, a: Pair, b: Pair)
    ensures a == b || Before(o, a, b) || Before(o, b, a)
    ensures !(Before(o, a, b) && Before(o, b, a))
    ensures !Before(o, a, a)
  {
  }

  lemma BeforeTransitive(o: Order, a: Pair, b: Pair, c: Pair)
    requires Before(o, a, b) && Before(o, b, c)
    ensures Before(o, a, c)
  {
  }

  predicate StrictlySorted(o: Order, xs: seq<Pair>)
  {
    forall i, j :: 0 <= i < j < |xs| ==> Before(o, xs[i], xs[j])
  }

  predicate NoDuplicates(xs: seq<Pair>)
  {
    forall i, j :: 0 <= i < j < |xs| ==> xs[i] != xs[j]
  }

  /** Insert x after every element that comes before it. */
  function Insert(o: Order, x: Pair, ys: seq<Pair>): (r: seq<Pair>)
    ensures |r| == |ys| + 1 && multiset(r) == multiset(ys) + multiset{x}
  {
    if ys == [] then [x]
    else if Before(o, ys[0], x) then
      assert ys == [ys[0]] + ys[1..];
      [ys[0]] + Insert(o, x, ys[1..])
    else [x] + ys
  }

  function Sort(o: Order, xs: seq<Pair>): (r: seq<Pair>)
    ensures |r| == |xs| && multiset(r) == multiset(xs)
  {
    if xs == [] then []
    else
      assert xs == [xs[0]] + xs[1..];
      Insert(o, xs[0], Sort(o, xs[1..]))
  }

  lemma {:induction false} InsertSorted(o: Order, x: Pair, ys: seq<Pair>)
    requires StrictlySorted(o, ys) && x !in multiset(ys)
    ensures StrictlySorted(o, Insert(o, x, ys))
  {
    if ys != [] {
      if Before(o, ys[0], x) {
        var tail := ys[1..];
        assert ys == [ys[0]] + tail;
        assert x !in multiset(tail);
        InsertSorted(o, x, tail);
        var r := Insert(o, x, ys);
        forall j | 1 <= j < |r|
          ensures Before(o, r[0], r[j])
        {
          InsertElement(o, x, tail, j - 1);
        }
      } else {
        assert x != ys[0];
        BeforeTotal(o, x, ys[0]);
        forall j | 0 <= j < |ys|
          ensures Before(o, x, ys[j])
        {
          if j > 0 {
            BeforeTransitive(o, x, ys[0], ys[j]);
          }
        }
      }
    }
  }

  /** An element of Insert(o, x, ys) is x or an element of ys. */
  lemma InsertElement(o: Order, x: Pair, ys: seq<Pair>, j: nat)
    requires j < |ys| + 1
    ensures Insert(o, x, ys)[j] == x || Insert(o, x, ys)[j] in ys
  {
    var r := Insert(o, x, ys);
    assert r[j] in multiset(r);
  }

  /** A vector without repeated pairs sorts to a strictly ascending one. */
  lemma {:induction false} SortSorted(o: Order, xs: seq<Pair>)
    requires NoDuplicates(xs)
    ensures StrictlySorted(o, Sort(o, xs))
  {
    if xs != [] {
      var tail := xs[1..];
      assert xs == [xs[0]] + tail;
      SortSorted(o, tail);
      assert forall k :: 0 <= k < |tail| ==> tail[k] == xs[k + 1];
      assert xs[0] !in tail;
      InsertSorted(o, xs[0], Sort(o, tail));
    }
  }

  /** Every element of a permutation of xs is an element of xs. */
  lemma Member(ys: seq<Pair>, xs: seq<Pair>, k: nat)
    requires multiset(ys) == multiset(xs) && k < |ys|
    ensures exists i :: 0 <= i < |xs| && xs[i] == ys[k]
  {
    assert ys[k] in multiset(ys);
    assert ys[k] in multiset(xs);
  }
}
