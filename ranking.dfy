/** The ranking step shared by both versions of `getTopClasses`: pair each
    probability with its class index, sort the pairs by descending probability with
    JavaScript's stable `Array.prototype.sort`, and keep a prefix with `slice(0, n)`. */
module Ranking {

  /** A probability paired with its class index. */
  datatype Ranked = Ranked(idx: nat, probability: real)

  /** Each probability paired with its position in the vector. */
  function Pair(probs: seq<real>): (r: seq<Ranked>)
    ensures |r| == |probs|
  {
    seq(|probs|, i requires 0 <= i < |probs| => Ranked(i, probs[i]))
  }

  /** The order in which a stable sort by descending probability leaves pairs that
      started in index order: higher probability first, and among equal
      probabilities the lower index first. */
  predicate Before(a: Ranked, b: Ranked) {
    a.probability > b.probability || (a.probability == b.probability && a.idx < b.idx)
  }

  predicate Ordered(s: seq<Ranked>) {
    forall i, j :: 0 <= i < j < |s| ==> Before(s[i], s[j])
  }

  predicate IndicesAscending(s: seq<Ranked>) {
    forall i, j :: 0 <= i < j < |s| ==> s[i].idx < s[j].idx
  }

  /** Insertion into a list sorted by descending probability: `x` goes in front of
      the first entry whose probability is not higher than its own. */
  function Insert(x: Ranked, s: seq<Ranked>): (r: seq<Ranked>)
    ensures multiset(r) == multiset(s) + multiset{x}
  {
    if s == [] || x.probability >= s[0].probability then [x] + s
    else
      assert s == [s[0]] + s[1..];
      [s[0]] + Insert(x, s[1..])
  }

  /** The in-place sort of the pairs by descending probability, as a stable
      insertion sort; it only permutes its input. */
  function SortDesc(s: seq<Ranked>): (r: seq<Ranked>)
    ensures multiset(r) == multiset(s)
  {
    if s == [] then []
    else
      assert s == [s[0]] + s[1..];
      Insert(s[0], SortDesc(s[1..]))
  }

  /** The end index of `slice(0, n)` on a list of length `len`: a negative `n`
      counts from the end. */
  function SliceEnd(len: nat, n: int): nat
  {
    if n < 0 then (if len + n < 0 then 0 else len + n)
    else if n < len then n else len
  }

  /** `probs` paired, sorted and cut with `slice(0, n)`. */
  function TopN(probs: seq<real>, n: int): seq<Ranked>
  {
    var sorted := SortDesc(Pair(probs));
    sorted[..SliceEnd(|sorted|, n)]
  }

  /** Inserting an entry with a lower index than all others keeps the list ordered. */
  lemma {:induction false} InsertOrdered(x: Ranked, s: seq<Ranked>)
    requires Ordered(s)
    requires forall j :: 0 <= j < |s| ==> x.idx < s[j].idx
    ensures Ordered(Insert(x, s))
  {
    if s == [] || x.probability >= s[0].probability {
    } else {
      var t := Insert(x, s[1..]);
      InsertOrdered(x, s[1..]);
      forall j | 0 <= j < |t|
        ensures Before(s[0], t[j])
      {
        assert t[j] in multiset(t);
        assert t[j] == x || t[j] in s[1..];
      }
    }
  }

  /** Sorting pairs whose indices ascend (as `Pair` makes them) puts them in `Before`
      order: descending probability, ties in ascending index order (stability). */
  lemma {:induction false} SortDescOrdered(s: seq<Ranked>)
    requires IndicesAscending(s)
    ensures Ordered(SortDesc(s))
  {
    if s != [] {
      var t := SortDesc(s[1..]);
      SortDescOrdered(s[1..]);
      forall j | 0 <= j < |t|
        ensures s[0].idx < t[j].idx
      {
        assert t[j] in multiset(t);
        assert t[j] in s[1..];
      }
      InsertOrdered(s[0], t);
    }
  }

  /** `Before` is asymmetric, so an ordered list has a unique first element. */
  lemma {:induction false} OrderedUnique(a: seq<Ranked>, b: seq<Ranked>)
    requires Ordered(a) && Ordered(b)
    requires multiset(a) == multiset(b)
    ensures a == b
  {
    if a != [] {
      assert a[0] in multiset(b);
      assert b != [];
      assert b[0] in multiset(a);
      // both heads come first in the other list too, and Before is asymmetric
      assert a[0] == b[0];
      assert a == [a[0]] + a[1..];
      assert b == [b[0]] + b[1..];
      assert multiset(a) == multiset{a[0]} + multiset(a[1..]);
      assert multiset(b) == multiset{b[0]} + multiset(b[1..]);
      assert multiset(a[1..]) == multiset(a) - multiset{a[0]};
      assert multiset(b[1..]) == multiset(b) - multiset{b[0]};
      OrderedUnique(a[1..], b[1..]);
    } else {
      assert |b| == |multiset(b)|;
    }
  }

  /** Every entry of the sorted list is some `(i, probs[i])`, and every such pair is
      in it. */
  lemma SortedEntries(probs: seq<real>)
    ensures var sorted := SortDesc(Pair(probs));
      && |sorted| == |probs|
      && (forall k :: 0 <= k < |sorted| ==>
            sorted[k].idx < |probs| && sorted[k].probability == probs[sorted[k].idx])
      && (forall i :: 0 <= i < |probs| ==> Ranked(i, probs[i]) in sorted)
  {
    var pairs := Pair(probs);
    var sorted := SortDesc(pairs);
    assert |sorted| == |multiset(sorted)| == |multiset(pairs)| == |pairs|;
    forall k | 0 <= k < |sorted|
      ensures sorted[k].idx < |probs| && sorted[k].probability == probs[sorted[k].idx]
    {
      assert sorted[k] in multiset(pairs);
      var i :| 0 <= i < |pairs| && pairs[i] == sorted[k];
    }
    forall i | 0 <= i < |probs|
      ensures Ranked(i, probs[i]) in sorted
    {
      assert pairs[i] in multiset(sorted);
    }
  }

  /** What both versions of `getTopClasses` promise about the entries they keep:
      `slice`'s length (`min(n, |probs|)` for `n >= 0`), each entry a class index
      with its own probability, no index twice, probabilities non-increasing, and
      equal probabilities in ascending index order (the sort is stable). */
  lemma TopNSpec(probs: seq<real>, n: int)
    ensures |TopN(probs, n)| == SliceEnd(|probs|, n)
    ensures n >= 0 ==> |TopN(probs, n)| == if n < |probs| then n else |probs|
    ensures forall k :: 0 <= k < |TopN(probs, n)| ==>
      TopN(probs, n)[k].idx < |probs| &&
      TopN(probs, n)[k].probability == probs[TopN(probs, n)[k].idx]
    ensures forall i, j :: 0 <= i < j < |TopN(probs, n)| ==>
      TopN(probs, n)[i].idx != TopN(probs, n)[j].idx
    ensures forall i, j :: 0 <= i < j < |TopN(probs, n)| ==>
      TopN(probs, n)[i].probability >= TopN(probs, n)[j].probability
    ensures forall i, j ::
      0 <= i < j < |TopN(probs, n)| &&
      TopN(probs, n)[i].probability == TopN(probs, n)[j].probability
      ==> TopN(probs, n)[i].idx < TopN(probs, n)[j].idx
  {
    var sorted := SortDesc(Pair(probs));
    var top := TopN(probs, n);
    SortedEntries(probs);
    SortDescOrdered(Pair(probs));
    forall i, j | 0 <= i < j < |top|
      ensures Before(top[i], top[j]) && top[i].idx != top[j].idx
    {
      assert top[i] == sorted[i] && top[j] == sorted[j];
    }
  }

  /** The kept entries really are the top ones: a class index that was not kept has
      a probability no higher than any kept entry's, and on a tie it has the higher
      index. */
  lemma TopNIsTop(probs: seq<real>, n: int, k: nat, j: nat)
    requires k < |TopN(probs, n)| && j < |probs|
    requires forall m :: 0 <= m < |TopN(probs, n)| ==> TopN(probs, n)[m].idx != j
    ensures probs[j] <= TopN(probs, n)[k].probability
    ensures probs[j] == TopN(probs, n)[k].probability ==> TopN(probs, n)[k].idx < j
  {
    var sorted := SortDesc(Pair(probs));
    var top := TopN(probs, n);
    SortedEntries(probs);
    SortDescOrdered(Pair(probs));
    var m :| 0 <= m < |sorted| && sorted[m] == Ranked(j, probs[j]);
    assert Before(sorted[k], sorted[m]);
  }

  /** Whatever stable sort orders the index-tagged pairs, `slice(0, n)` of its
      output is `TopN(probs, n)`: the result does not depend on the sort algorithm. */
  lemma TopNOfAnyStableSort(probs: seq<real>, n: int, sorted: seq<Ranked>)
    requires multiset(sorted) == multiset(Pair(probs))
    requires Ordered(sorted)
    ensures TopN(probs, n) == sorted[..SliceEnd(|sorted|, n)]
  {
    SortDescOrdered(Pair(probs));
    OrderedUnique(SortDesc(Pair(probs)), sorted);
  }
}
