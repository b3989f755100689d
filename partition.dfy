/**
 * The class split of `assign_objects_to_clients` (server.py): after the
 * shuffle, worker `k` of `n` is given `object_ids[k::n]`.
 */
module Partition {

  /** No element occurs twice. */
  predicate Distinct<T(==)>(s: seq<T>) {
    forall i, j :: 0 <= i < j < |s| ==> s[i] != s[j]
  }

  /** Python's extended slice `s[start::step]`. */
  function Slice<T>(s: seq<T>, start: nat, step: nat): seq<T>
    requires step >= 1
    decreases |s| - start
  {
    if start >= |s| then [] else [s[start]] + Slice(s, start + step, step)
  }

  /** The lists handed to `n` workers, in the order of the available list. */
  function RoundRobin<T>(s: seq<T>, n: nat): (hands: seq<seq<T>>)
    requires n >= 1
    ensures |hands| == n
  {
    seq(n, k requires 0 <= k < n => Slice(s, k, n))
  }

  /** Worker `k`'s `j`-th class is the one at position `k + j*n` of the shuffled list. */
  lemma {:induction false} SliceAt<T>(s: seq<T>, k: nat, n: nat, j: nat)
    requires n >= 1 && j < |Slice(s, k, n)|
    ensures k + j * n < |s| && Slice(s, k, n)[j] == s[k + j * n]
    decreases j
  {
    if j > 0 {
      SliceAt(s, k + n, n, j - 1);
      assert k + n + (j - 1) * n == k + j * n;
    }
  }

  /** Every element of a slice comes from the list. */
  lemma {:induction false} SliceFromList<T>(s: seq<T>, k: nat, n: nat, x: T)
    requires n >= 1 && x in Slice(s, k, n)
    ensures x in s
    decreases |s| - k
  {
    if x != s[k] {
      SliceFromList(s, k + n, n, x);
    }
  }

  /** |s[k::n]| is the ceiling of (|s| - k) / n, stated without division. */
  lemma {:induction false} SliceSizeBounds<T>(s: seq<T>, k: nat, n: nat)
    requires n >= 1
    ensures k >= |s| ==> |Slice(s, k, n)| == 0
    ensures k < |s| ==> (|Slice(s, k, n)| - 1) * n + k < |s| <= |Slice(s, k, n)| * n + k
    decreases |s| - k
  {
    if k < |s| {
      SliceSizeBounds(s, k + n, n);
      var c := |Slice(s, k + n, n)|;
      assert |Slice(s, k, n)| == c + 1;
      MultiplySucc(c, n);
      if k + n < |s| {
        MultiplySucc(c - 1, n);
      }
    }
  }

  lemma MultiplySucc(c: int, n: int)
    ensures (c + 1) * n == c * n + n
  {
  }

  /** |s[k::n]| == ceil((|s| - k) / n). */
  lemma SliceSize<T>(s: seq<T>, k: nat, n: nat)
    requires n >= 1 && k <= |s|
    ensures |Slice(s, k, n)| == (|s| - k + n - 1) / n
  {
    SliceSizeBounds(s, k, n);
    var c := |Slice(s, k, n)|;
    var m := |s| - k + n - 1;
    if k < |s| {
      assert c * n <= m < c * n + n by {
        assert (c - 1) * n == c * n - n;
      }
    } else {
      assert c == 0 && m < n;
    }
    DivideBetween(m, n, c);
  }

  lemma DivideBetween(m: nat, n: nat, q: nat)
    requires n >= 1 && q * n <= m < q * n + n
    ensures m / n == q
  {
    var d := m / n;
    assert d * n + m % n == m;
    if d < q {
      assert (d + 1) * n <= q * n by {
        MultiplyMonotone(d + 1, q, n);
      }
    } else if d > q {
      assert (q + 1) * n <= d * n by {
        MultiplyMonotone(q + 1, d, n);
      }
    }
  }

  lemma MultiplyMonotone(a: nat, b: nat, n: nat)
    requires a <= b
    ensures a * n <= b * n
  {
  }

  /** Slices further along the list are no longer. */
  lemma {:induction false} SliceSizeMonotone<T>(s: seq<T>, n: nat, i: nat, j: nat)
    requires n >= 1 && i <= j
    ensures |Slice(s, j, n)| <= |Slice(s, i, n)|
    decreases |s| - i
  {
    if j < |s| {
      SliceSizeMonotone(s, n, i + n, j + n);
    }
  }

  /** Any two workers' lists differ in length by at most one. */
  lemma RoundRobinBalanced<T>(s: seq<T>, n: nat, i: nat, j: nat)
    requires n >= 1 && i < n && j < n
    ensures |RoundRobin(s, n)[i]| <= |RoundRobin(s, n)[j]| + 1
  {
    if j < i {
      SliceSizeMonotone(s, n, j, i);
    } else if i < |s| {
      SliceSizeMonotone(s, n, j, i + n);
    }
  }

  /** How often `x` occurs in `s`. */
  function Count<T(==)>(s: seq<T>, x: T): nat
  {
    if s == [] then 0 else (if s[0] == x then 1 else 0) + Count(s[1..], x)
  }

  /** How often `x` occurs in the workers' lists together. */
  function CountAll<T(==)>(hands: seq<seq<T>>, x: T): nat
  {
    if hands == [] then 0 else CountAll(hands[..|hands| - 1], x) + Count(hands[|hands| - 1], x)
  }

  /** How often `x` occurs in s[lo::n], ..., s[(hi-1)::n] together. */
  function CountRange<T(==)>(s: seq<T>, lo: nat, hi: nat, n: nat, x: T): nat
    requires n >= 1
    decreases hi
  {
    if hi <= lo then 0 else CountRange(s, lo, hi - 1, n, x) + Count(Slice(s, hi - 1, n), x)
  }

  /** `Count` is the multiplicity of the multiset of the list. */
  lemma {:induction false} CountMultiplicity<T>(s: seq<T>, x: T)
    ensures Count(s, x) == multiset(s)[x]
  {
    if s != [] {
      CountMultiplicity(s[1..], x);
      assert s == [s[0]] + s[1..];
    }
  }

  lemma {:induction false} CountRangeFront<T>(s: seq<T>, lo: nat, hi: nat, n: nat, x: T)
    requires n >= 1 && lo < hi
    ensures CountRange(s, lo, hi, n, x) == Count(Slice(s, lo, n), x) + CountRange(s, lo + 1, hi, n, x)
    decreases hi
  {
    if hi > lo + 1 {
      CountRangeFront(s, lo, hi - 1, n, x);
    }
  }

  lemma {:induction false} CountRangePastEnd<T>(s: seq<T>, lo: nat, hi: nat, n: nat, x: T)
    requires n >= 1 && lo >= |s|
    ensures CountRange(s, lo, hi, n, x) == 0
    decreases hi
  {
    if hi > lo {
      CountRangePastEnd(s, lo, hi - 1, n, x);
    }
  }

  /** The slices s[k::n], ..., s[(k+n-1)::n] together hold s[k..], each occurrence once. */
  lemma {:induction false} CountRangeCovers<T>(s: seq<T>, k: nat, n: nat, x: T)
    requires n >= 1 && k <= |s|
    ensures CountRange(s, k, k + n, n, x) == Count(s[k..], x)
    decreases |s| - k
  {
    if k == |s| {
      CountRangePastEnd(s, k, k + n, n, x);
      assert s[k..] == [];
    } else {
      CountRangeCovers(s, k + 1, n, x);
      CountRangeFront(s, k, k + n, n, x);
      CountRangeLast(s, k + 1, k + 1 + n, n, x);
      SliceCount(s, k, n, x);
      DropCount(s, k, x);
    }
  }

  lemma CountRangeLast<T>(s: seq<T>, lo: nat, hi: nat, n: nat, x: T)
    requires n >= 1 && lo < hi
    ensures CountRange(s, lo, hi, n, x) == CountRange(s, lo, hi - 1, n, x) + Count(Slice(s, hi - 1, n), x)
  {
  }

  lemma SliceCount<T>(s: seq<T>, k: nat, n: nat, x: T)
    requires n >= 1 && k < |s|
    ensures Count(Slice(s, k, n), x) == (if s[k] == x then 1 else 0) + Count(Slice(s, k + n, n), x)
  {
    assert Slice(s, k, n)[1..] == Slice(s, k + n, n);
  }

  lemma DropCount<T>(s: seq<T>, k: nat, x: T)
    requires k < |s|
    ensures Count(s[k..], x) == (if s[k] == x then 1 else 0) + Count(s[k + 1..], x)
  {
    assert s[k..][1..] == s[k + 1..];
  }

  lemma {:induction false} CountAllPrefix<T>(s: seq<T>, n: nat, m: nat, x: T)
    requires n >= 1 && m <= n
    ensures CountAll(RoundRobin(s, n)[..m], x) == CountRange(s, 0, m, n, x)
  {
    if m > 0 {
      CountAllPrefix(s, n, m - 1, x);
      assert RoundRobin(s, n)[..m][..m - 1] == RoundRobin(s, n)[..m - 1];
    }
  }

  /**
   * The split is exact: the workers' lists together hold every element of
   * the shuffled list exactly as often as it occurs there.
   */
  lemma RoundRobinExact<T>(s: seq<T>, n: nat)
    requires n >= 1
    ensures forall x :: CountAll(RoundRobin(s, n), x) == multiset(s)[x]
  {
    forall x
      ensures CountAll(RoundRobin(s, n), x) == multiset(s)[x]
    {
      CountAllPrefix(s, n, n, x);
      assert RoundRobin(s, n)[..n] == RoundRobin(s, n);
      CountRangeCovers(s, 0, n, x);
      assert s[0..] == s;
      CountMultiplicity(s, x);
    }
  }

  lemma {:induction false} CountPositive<T>(s: seq<T>, x: T)
    ensures x in s <==> Count(s, x) > 0
  {
    if s != [] {
      CountPositive(s[1..], x);
      assert s == [s[0]] + s[1..];
    }
  }

  lemma {:induction false} DistinctOnce<T>(s: seq<T>, x: T)
    requires Distinct(s)
    ensures Count(s, x) <= 1
  {
    if s != [] {
      DistinctOnce(s[1..], x);
      if s[0] == x {
        assert x !in s[1..];
        CountPositive(s[1..], x);
      }
    }
  }

  lemma {:induction false} CountAllTwice<T>(hands: seq<seq<T>>, i: nat, j: nat, x: T)
    requires i < |hands| && j < |hands| && i != j && x in hands[i] && x in hands[j]
    ensures CountAll(hands, x) >= 2
    decreases |hands|
  {
    var last := |hands| - 1;
    var init := hands[..last];
    if i < last && j < last {
      CountAllTwice(init, i, j, x);
    } else {
      var other := if i == last then j else i;
      assert x in init[other];
      CountAllHas(init, other, x);
      CountPositive(hands[last], x);
    }
  }

  lemma {:induction false} CountAllHas<T>(hands: seq<seq<T>>, i: nat, x: T)
    requires i < |hands| && x in hands[i]
    ensures CountAll(hands, x) >= 1
    decreases |hands|
  {
    if i < |hands| - 1 {
      CountAllHas(hands[..|hands| - 1], i, x);
    } else {
      CountPositive(hands[i], x);
    }
  }

  lemma {:induction false} CountAllFind<T>(hands: seq<seq<T>>, x: T) returns (k: nat)
    requires CountAll(hands, x) > 0
    ensures k < |hands| && x in hands[k]
    decreases |hands|
  {
    var last := |hands| - 1;
    CountPositive(hands[last], x);
    if x in hands[last] {
      k := last;
    } else {
      k := CountAllFind(hands[..last], x);
    }
  }

  /**
   * For a shuffled list without repetitions (a permutation of the class
   * ids), every id is handed to exactly one worker, and every id a worker
   * is handed comes from the list.
   */
  lemma ExactlyOneOwner<T>(s: seq<T>, n: nat, x: T)
    requires n >= 1 && Distinct(s)
    ensures x in s <==> exists k :: 0 <= k < n && x in RoundRobin(s, n)[k]
    ensures forall i, j :: 0 <= i < n && 0 <= j < n && x in RoundRobin(s, n)[i] && x in RoundRobin(s, n)[j] ==> i == j
  {
    var hands := RoundRobin(s, n);
    RoundRobinExact(s, n);
    DistinctOnce(s, x);
    CountPositive(s, x);
    CountMultiplicity(s, x);
    if x in s {
      var k := CountAllFind(hands, x);
    }
    forall k | 0 <= k < n && x in hands[k]
      ensures x in s
    {
      SliceFromList(s, k, n, x);
    }
    forall i, j | 0 <= i < n && 0 <= j < n && x in hands[i] && x in hands[j]
      ensures i == j
    {
      if i != j {
        CountAllTwice(hands, i, j, x);
      }
    }
  }

  /** Four workers and four shuffled ids: each worker gets one id, in shuffled order. */
  lemma FourWorkers<T>(s: seq<T>)
    requires |s| == 4
    ensures RoundRobin(s, 4) == [[s[0]], [s[1]], [s[2]], [s[3]]]
  {
    assert Slice(s, 0, 4) == [s[0]];
    assert Slice(s, 1, 4) == [s[1]];
    assert Slice(s, 2, 4) == [s[2]];
    assert Slice(s, 3, 4) == [s[3]];
  }

  /** Two workers and four shuffled ids: the first gets positions 0 and 2, the second positions 1 and 3. */
  lemma TwoWorkers<T>(s: seq<T>)
    requires |s| == 4
    ensures RoundRobin(s, 2) == [[s[0], s[2]], [s[1], s[3]]]
  {
    assert Slice(s, 2, 2) == [s[2]];
    assert Slice(s, 0, 2) == [s[0], s[2]];
    assert Slice(s, 3, 2) == [s[3]];
    assert Slice(s, 1, 2) == [s[1], s[3]];
  }
}
