/** Heap order on the array of slots, and how sifting repairs it. */
module HeapOrder {
  import opened HeapShape

  /** `less` is a strict weak order. */
  ghost predicate IsStrictWeak<K(!new)>(less: (K, K) -> bool) {
    && (forall a, b :: less(a, b) ==> !less(b, a))
    && (forall a, b, c :: !less(a, b) && !less(b, c) ==> !less(a, c))
  }

  /** The node in slot `i` may lie above the one in slot `j`. */
  ghost predicate NotBelow<K(!new)>(less: (K, K) -> bool, s: seq<HNode<K>>, j: int, i: int) {
    1 <= i <= |s| && 1 <= j <= |s| ==> !less(s[j - 1].key, s[i - 1].key)
  }

  ghost predicate Ordered<K(!new)>(less: (K, K) -> bool, s: seq<HNode<K>>) {
    forall j :: NotBelow(less, s, j, j / 2)
  }

  /** Only slot `k` may be out of order, with its parent or with its children. */
  ghost predicate OrderedBut<K(!new)>(less: (K, K) -> bool, s: seq<HNode<K>>, k: int) {
    (forall j :: j != k && j / 2 != k ==> NotBelow(less, s, j, j / 2)) &&
    forall j :: j / 2 == k ==> NotBelow(less, s, j, k / 2)
  }

  /** Only slot `k` may be out of order, and only with its parent. */
  ghost predicate OrderedButUp<K(!new)>(less: (K, K) -> bool, s: seq<HNode<K>>, k: int) {
    OrderedBut(less, s, k) && forall j :: j / 2 == k ==> NotBelow(less, s, j, k)
  }

  lemma UpDone<K(!new)>(less: (K, K) -> bool, s: seq<HNode<K>>, k: int)
    requires OrderedButUp(less, s, k) && NotBelow(less, s, k, k / 2)
    ensures Ordered(less, s)
  {
    forall j ensures NotBelow(less, s, j, j / 2) {
      if j / 2 == k { assert NotBelow(less, s, j, k); }
    }
  }

  /** One step of sifting up. */
  lemma UpStep<K(!new)>(less: (K, K) -> bool, s: seq<HNode<K>>, k: int)
    requires IsStrictWeak(less) && OrderedButUp(less, s, k)
    requires 2 <= k <= |s| && less(s[k - 1].key, s[k / 2 - 1].key)
    ensures OrderedButUp(less, Swap(s, k / 2, k), k / 2)
  {
    var q, s' := k / 2, Swap(s, k / 2, k);
    forall j | j != q && j / 2 != q ensures NotBelow(less, s', j, j / 2) {
      if j / 2 == k {
        assert NotBelow(less, s, j, q);
      } else if j != k {
        assert NotBelow(less, s, j, j / 2);
      }
    }
    forall j | j / 2 == q ensures NotBelow(less, s', j, q / 2) && NotBelow(less, s', j, q) {
      assert NotBelow(less, s, q, q / 2);
      if j != k { assert NotBelow(less, s, j, q); }
    }
  }

  /** One step of sifting down, to a child `c` that is below `k` and not above its sibling. */
  lemma DownStep<K(!new)>(less: (K, K) -> bool, s: seq<HNode<K>>, k: int, c: int)
    requires IsStrictWeak(less) && OrderedBut(less, s, k) && 1 <= k && 2 <= c <= |s| && c / 2 == k
    requires less(s[c - 1].key, s[k - 1].key) && forall j :: j / 2 == k ==> NotBelow(less, s, j, c)
    ensures OrderedBut(less, Swap(s, k, c), c)
  {
    var s' := Swap(s, k, c);
    forall j | j != c && j / 2 != c ensures NotBelow(less, s', j, j / 2) {
      if j / 2 == k {
        assert NotBelow(less, s, j, c);
      } else if j == k {
        assert NotBelow(less, s, c, k / 2);
      } else {
        assert NotBelow(less, s, j, j / 2);
      }
    }
    forall j | j / 2 == c ensures NotBelow(less, s', j, c / 2) {
      assert NotBelow(less, s, j, c);
    }
  }

  /** A new last slot may only be out of order with its parent. */
  lemma AppendOrder<K(!new)>(less: (K, K) -> bool, s: seq<HNode<K>>, x: HNode<K>)
    requires Ordered(less, s)
    ensures OrderedButUp(less, s + [x], |s| + 1)
  {
    var s', k := s + [x], |s| + 1;
    forall j | j != k ensures NotBelow(less, s', j, j / 2) {
      assert NotBelow(less, s, j, j / 2);
    }
  }

  lemma PrefixOrder<K(!new)>(less: (K, K) -> bool, s: seq<HNode<K>>)
    requires Ordered(less, s) && s != []
    ensures Ordered(less, s[..|s| - 1])
  {
    forall j ensures NotBelow(less, s[..|s| - 1], j, j / 2) {
      assert NotBelow(less, s, j, j / 2);
    }
  }

  /** Another node in slot `k` may only be out of order there. */
  lemma ReplaceOrder<K(!new)>(less: (K, K) -> bool, s: seq<HNode<K>>, k: int, x: HNode<K>)
    requires IsStrictWeak(less) && Ordered(less, s) && 1 <= k <= |s|
    ensures OrderedBut(less, s[k - 1 := x], k)
  {
    var s' := s[k - 1 := x];
    forall j | j != k && j / 2 != k ensures NotBelow(less, s', j, j / 2) {
      assert NotBelow(less, s, j, j / 2);
    }
    forall j | j / 2 == k ensures NotBelow(less, s', j, k / 2) {
      assert NotBelow(less, s, j, k) by { assert NotBelow(less, s, j, j / 2); }
      assert NotBelow(less, s, k, k / 2);
    }
  }

  /** No node is below the one in slot 1. */
  lemma {:induction false} RootLeast<K(!new)>(less: (K, K) -> bool, s: seq<HNode<K>>, j: int)
    requires IsStrictWeak(less) && Ordered(less, s) && 1 <= j <= |s|
    ensures !less(s[j - 1].key, s[0].key)
  {
    assert NotBelow(less, s, j, j / 2);
    if j > 1 { RootLeast(less, s, j / 2); }
  }

  // ---------- draining a heap ----------

  /** What heap_dequeue does to the array: the minimum leaves, the rest is a heap again. */
  ghost predicate Dequeued<K(!new)>(less: (K, K) -> bool, s: seq<HNode<K>>, s': seq<HNode<K>>) {
    s != [] && Ordered(less, s) && Ordered(less, s') && multiset(s') == multiset(s) - multiset{s[0]}
  }

  /** Array `i` of the run is dequeued. */
  ghost predicate StepAt<K(!new)>(less: (K, K) -> bool, run: seq<seq<HNode<K>>>, i: int) {
    0 <= i < |run| - 1 ==> Dequeued(less, run[i], run[i + 1])
  }

  /** `run` lists the arrays of a heap while it is dequeued until it is empty. */
  ghost predicate Draining<K(!new)>(less: (K, K) -> bool, run: seq<seq<HNode<K>>>) {
    run != [] && run[|run| - 1] == [] && forall i :: StepAt(less, run, i)
  }

  /** Every array of the run but the last has a first slot. */
  ghost predicate Filled<K>(run: seq<seq<HNode<K>>>) {
    run != [] && forall i :: 0 <= i < |run| - 1 ==> run[i] != []
  }

  lemma DrainFilled<K(!new)>(less: (K, K) -> bool, run: seq<seq<HNode<K>>>)
    requires Draining(less, run)
    ensures Filled(run)
  {
    forall i | 0 <= i < |run| - 1 ensures run[i] != [] { assert StepAt(less, run, i); }
  }

  /** The nodes such a run hands out, in order. */
  ghost function Minima<K>(run: seq<seq<HNode<K>>>): (r: seq<HNode<K>>)
    requires Filled(run)
    ensures |r| == |run| - 1
  {
    seq(|run| - 1, i requires 0 <= i < |run| - 1 => run[i][0])
  }

  /** Draining a heap sorts it: what comes out is all that was in it, in non-decreasing order. */
  lemma DrainSorts<K(!new)>(less: (K, K) -> bool, run: seq<seq<HNode<K>>>)
    requires IsStrictWeak(less) && Draining(less, run)
    ensures Filled(run) && multiset(Minima(run)) == multiset(run[0])
    ensures forall i, j :: 0 <= i < j < |run| - 1 ==> !less(Minima(run)[j].key, Minima(run)[i].key)
  {
    DrainFilled(less, run);
    DrainKeeps(less, run, 0);
    assert Minima(run)[0..] == Minima(run);
    forall i, j | 0 <= i < j < |run| - 1 ensures !less(Minima(run)[j].key, Minima(run)[i].key) {
      DrainOrdered(less, run, i, j);
    }
  }

  lemma {:induction false} DrainKeeps<K(!new)>(less: (K, K) -> bool, run: seq<seq<HNode<K>>>, i: nat)
    requires Draining(less, run) && Filled(run) && i < |run|
    ensures multiset(Minima(run)[i..]) == multiset(run[i])
    decreases |run| - i
  {
    if i < |run| - 1 {
      assert StepAt(less, run, i);
      DrainKeeps(less, run, i + 1);
      assert Minima(run)[i..] == [run[i][0]] + Minima(run)[i + 1..];
    }
  }

  /** What is in a later array is in the earlier one. */
  lemma {:induction false} DrainShrinks<K(!new)>(less: (K, K) -> bool, run: seq<seq<HNode<K>>>, i: nat, j: nat,
                                                 x: HNode<K>)
    requires Draining(less, run) && i <= j < |run| && x in multiset(run[j])
    ensures x in multiset(run[i])
    decreases j
  {
    if i < j {
      assert StepAt(less, run, j - 1);
      DrainShrinks(less, run, i, j - 1, x);
    }
  }

  lemma DrainOrdered<K(!new)>(less: (K, K) -> bool, run: seq<seq<HNode<K>>>, i: nat, j: nat)
    requires IsStrictWeak(less) && Draining(less, run) && i < j < |run| - 1
    ensures run[i] != [] && run[j] != [] && !less(run[j][0].key, run[i][0].key)
  {
    assert StepAt(less, run, i) && StepAt(less, run, j);
    DrainShrinks(less, run, i, j, run[j][0]);
    FirstLeast(less, run[i], run[j][0]);
  }

  lemma FirstLeast<K(!new)>(less: (K, K) -> bool, s: seq<HNode<K>>, x: HNode<K>)
    requires IsStrictWeak(less) && Ordered(less, s) && x in multiset(s)
    ensures !less(x.key, s[0].key)
  {
    var k :| 0 <= k < |s| && s[k] == x;
    RootLeast(less, s, k + 1);
  }
}
