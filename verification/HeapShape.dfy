/** The pure side of heap-inl.h: the array of slots that the linked nodes stand for, heap order, and the
    bits of a slot number. */
module HeapShape {

  /** struct heap_node embedded in a user structure whose key never changes while it is in a heap. */
  class HNode<K> {
    const key: K
    var left: HNode?<K>
    var right: HNode?<K>
    var parent: HNode?<K>

    constructor (key: K)
      ensures this.key == key
    {
      this.key := key;
      left, right, parent := null, null, null;
    }
  }

  /** The node in slot `k` of the array numbering: the root is slot 1, slot k has children 2k and 2k + 1. */
  ghost function At<K>(s: seq<HNode<K>>, k: int): HNode?<K> {
    if 1 <= k <= |s| then s[k - 1] else null
  }

  datatype Cell<K> = Cell(left: HNode?<K>, right: HNode?<K>, parent: HNode?<K>)

  type Links<K> = map<HNode<K>, Cell<K>>

  /** The links of all nodes of `s` in the current state. */
  ghost function Cells<K>(s: set<HNode<K>>): Links<K>
    reads s
  {
    map n | n in s :: Cell(n.left, n.right, n.parent)
  }

  ghost function Members<K>(s: seq<HNode<K>>): set<HNode<K>> {
    set n | n in s
  }

  ghost predicate Differ<K>(s: seq<HNode<K>>, i: int, j: int) {
    1 <= i <= |s| && 1 <= j <= |s| && i != j ==> s[i - 1] != s[j - 1]
  }

  ghost predicate Distinct<K>(s: seq<HNode<K>>) {
    forall i, j :: Differ(s, i, j)
  }

  ghost function CellOf<K>(s: seq<HNode<K>>, k: int): Cell<K> {
    Cell(At(s, 2 * k), At(s, 2 * k + 1), At(s, k / 2))
  }

  /** The node in slot `k` is linked as its slot number says. */
  ghost predicate SlotOk<K>(s: seq<HNode<K>>, m: Links<K>, k: int) {
    1 <= k <= |s| ==> s[k - 1] in m && m[s[k - 1]] == CellOf(s, k)
  }

  /** The nodes are linked as the complete tree whose array is `s`. */
  ghost predicate Linked<K>(s: seq<HNode<K>>, min: HNode?<K>, m: Links<K>) {
    Distinct(s) && min == At(s, 1) && m.Keys == Members(s) && forall k :: SlotOk(s, m, k)
  }

  /** The array numbering, spelled out for the node `s[i]`: its children are `s[2 * i + 1]` and `s[2 * i + 2]`. */
  lemma LinkedIs<K>(s: seq<HNode<K>>, min: HNode?<K>, m: Links<K>, i: nat)
    requires Linked(s, min, m) && i < |s|
    ensures min == s[0] && s[i] in m
    ensures m[s[i]].left == if 2 * i + 1 < |s| then s[2 * i + 1] else null
    ensures m[s[i]].right == if 2 * i + 2 < |s| then s[2 * i + 2] else null
    ensures m[s[i]].parent == if i == 0 then null else s[(i - 1) / 2]
  {
    assert SlotOk(s, m, i + 1);
  }

  ghost function Swap<K>(s: seq<HNode<K>>, i: int, j: int): seq<HNode<K>>
    requires 1 <= i <= |s| && 1 <= j <= |s|
  {
    s[i - 1 := s[j - 1]][j - 1 := s[i - 1]]
  }

  lemma SwapKeeps<K>(s: seq<HNode<K>>, i: int, j: int)
    requires 1 <= i <= |s| && 1 <= j <= |s|
    ensures multiset(Swap(s, i, j)) == multiset(s)
    ensures Members(Swap(s, i, j)) == Members(s)
  {
    assert forall n :: n in Swap(s, i, j) <==> n in multiset(Swap(s, i, j));
  }

  lemma SwapDistinct<K>(s: seq<HNode<K>>, i: int, j: int)
    requires 1 <= i <= |s| && 1 <= j <= |s| && Distinct(s)
    ensures Distinct(Swap(s, i, j))
  {
    forall a, b ensures Differ(Swap(s, i, j), a, b) {
      assert Differ(s, if a == i then j else if a == j then i else a, if b == i then j else if b == j then i else b);
    }
  }

  /** Slots hold the same node only when they are the same slot. */
  lemma SameSlot<K>(s: seq<HNode<K>>, i: int, j: int)
    requires Distinct(s)
    ensures At(s, i) != null && At(s, i) == At(s, j) ==> i == j
  {
    assert Differ(s, i, j);
  }

  // ---------- heap_node_swap on the links ----------

  /** The nodes that swapping `p` with its child `c` touches are there and different. */
  ghost predicate CanSwap<K>(p: HNode<K>, c: HNode<K>, m: Links<K>) {
    p in m && c in m && p != c && (m[p].left == c || m[p].right == c) && m[p].left != m[p].right &&
    var sib := if m[p].left == c then m[p].right else m[p].left;
    var cl, cr, gp := m[c].left, m[c].right, m[p].parent;
    (sib != null ==> sib in m && sib != p && sib != c && sib != cl && sib != cr && sib != gp) &&
    (cl != null ==> cl in m && cl != p && cl != c && cl != cr && cl != gp) &&
    (cr != null ==> cr in m && cr != p && cr != c && cr != gp) &&
    (gp != null ==> gp in m && gp != p && gp != c && (m[gp].left == p || m[gp].right == p) && m[gp].left != m[gp].right)
  }

  /** What heap_node_swap does to the links. */
  ghost predicate Swapped<K>(p: HNode<K>, c: HNode<K>, min: HNode?<K>, m: Links<K>, min': HNode?<K>, m': Links<K>)
    requires CanSwap(p, c, m)
  {
    var left := m[p].left == c;
    var sib := if left then m[p].right else m[p].left;
    var cl, cr, gp := m[c].left, m[c].right, m[p].parent;
    m'.Keys == m.Keys && min' == (if gp == null then c else min) &&
    m'[c] == Cell(if left then p else sib, if left then sib else p, gp) &&
    m'[p] == Cell(cl, cr, c) &&
    (sib != null ==> m'[sib] == m[sib].(parent := c)) &&
    (cl != null ==> m'[cl] == m[cl].(parent := p)) &&
    (cr != null ==> m'[cr] == m[cr].(parent := p)) &&
    (gp != null ==> m'[gp] == if m[gp].left == p then m[gp].(left := c) else m[gp].(right := c)) &&
    forall n | n in m && n != p && n != c && n != sib && n != cl && n != cr && n != gp :: m'[n] == m[n]
  }

  lemma LinkedCanSwap<K>(s: seq<HNode<K>>, k: int, min: HNode?<K>, m: Links<K>)
    requires Linked(s, min, m) && 2 <= k <= |s|
    ensures CanSwap(At(s, k / 2), At(s, k), m)
    ensures m[At(s, k / 2)].left == At(s, k) <==> k % 2 == 0
  {
    var q, sib, g := k / 2, if k % 2 == 0 then k + 1 else k - 1, k / 2 / 2;
    assert SlotOk(s, m, q) && SlotOk(s, m, k) && SlotOk(s, m, g) && SlotOk(s, m, sib);
    assert SlotOk(s, m, 2 * k) && SlotOk(s, m, 2 * k + 1);
    SameSlot(s, q, k); SameSlot(s, 2 * q, 2 * q + 1); SameSlot(s, 2 * k, 2 * k + 1); SameSlot(s, 2 * g, 2 * g + 1);
    SameSlot(s, sib, q); SameSlot(s, sib, k); SameSlot(s, sib, 2 * k); SameSlot(s, sib, 2 * k + 1); SameSlot(s, sib, g);
    SameSlot(s, 2 * k, q); SameSlot(s, 2 * k, k); SameSlot(s, 2 * k, g);
    SameSlot(s, 2 * k + 1, q); SameSlot(s, 2 * k + 1, k); SameSlot(s, 2 * k + 1, g);
    SameSlot(s, g, q); SameSlot(s, g, k);
  }

  /** On the links of a complete tree it exchanges two slots. */
  lemma SwapLinks<K>(s: seq<HNode<K>>, k: int, min: HNode?<K>, m: Links<K>, min': HNode?<K>, m': Links<K>)
    requires Linked(s, min, m) && 2 <= k <= |s|
    requires CanSwap(At(s, k / 2), At(s, k), m)
    requires Swapped(At(s, k / 2), At(s, k), min, m, min', m')
    ensures Linked(Swap(s, k / 2, k), min', m')
  {
    var s' := Swap(s, k / 2, k);
    SwapKeeps(s, k / 2, k);
    SwapDistinct(s, k / 2, k);
    assert SlotOk(s, m, k / 2);
    forall j ensures SlotOk(s', m', j) {
      if 1 <= j <= |s| { SwapSlot(s, k, j, min, m, min', m'); }
    }
  }

  lemma SwapSlot<K>(s: seq<HNode<K>>, k: int, j: int, min: HNode?<K>, m: Links<K>, min': HNode?<K>, m': Links<K>)
    requires Linked(s, min, m) && 2 <= k <= |s| && 1 <= j <= |s|
    requires CanSwap(At(s, k / 2), At(s, k), m)
    requires Swapped(At(s, k / 2), At(s, k), min, m, min', m')
    ensures SlotOk(Swap(s, k / 2, k), m', j)
  {
    LinkedCanSwap(s, k, min, m);
    assert SlotOk(s, m, k / 2) && SlotOk(s, m, k);
    if j != k / 2 && j != k { SwapOther(s, k, j, min, m, min', m'); }
  }

  lemma SwapOther<K>(s: seq<HNode<K>>, k: int, j: int, min: HNode?<K>, m: Links<K>, min': HNode?<K>, m': Links<K>)
    requires Linked(s, min, m) && 2 <= k <= |s| && 1 <= j <= |s| && j != k && j != k / 2
    requires CanSwap(At(s, k / 2), At(s, k), m)
    requires Swapped(At(s, k / 2), At(s, k), min, m, min', m')
    ensures SlotOk(Swap(s, k / 2, k), m', j)
  {
    var q, g := k / 2, k / 2 / 2;
    assert SlotOk(s, m, q) && SlotOk(s, m, k) && SlotOk(s, m, j);
    if j == g {
      SwapAbove(s, k, min, m, min', m');
    } else if j / 2 == q || j / 2 == k {
      SwapBelow(s, k, j, min, m, min', m');
    } else {
      SwapFar(s, k, j, min, m, min', m');
      FarCell(s, k, j);
    }
  }

  lemma SwapBelow<K>(s: seq<HNode<K>>, k: int, j: int, min: HNode?<K>, m: Links<K>, min': HNode?<K>, m': Links<K>)
    requires Linked(s, min, m) && 2 <= k <= |s| && 1 <= j <= |s| && j != k
    requires j / 2 == k / 2 || j / 2 == k
    requires CanSwap(At(s, k / 2), At(s, k), m)
    requires Swapped(At(s, k / 2), At(s, k), min, m, min', m')
    ensures SlotOk(Swap(s, k / 2, k), m', j)
  {
    var q := k / 2;
    assert SlotOk(s, m, q) && SlotOk(s, m, k) && SlotOk(s, m, j);
    assert m'[At(s, j)] == m[At(s, j)].(parent := if j / 2 == q then At(s, k) else At(s, q));
  }

  lemma FarCell<K>(s: seq<HNode<K>>, k: int, j: int)
    requires 2 <= k <= |s| && 1 <= j <= |s| && j != k / 2 / 2 && j / 2 != k / 2 && j / 2 != k && j != k / 2
    ensures CellOf(Swap(s, k / 2, k), j) == CellOf(s, j)
  {
  }

  lemma SwapAbove<K>(s: seq<HNode<K>>, k: int, min: HNode?<K>, m: Links<K>, min': HNode?<K>, m': Links<K>)
    requires Linked(s, min, m) && 4 <= k <= |s|
    requires CanSwap(At(s, k / 2), At(s, k), m)
    requires Swapped(At(s, k / 2), At(s, k), min, m, min', m')
    ensures SlotOk(Swap(s, k / 2, k), m', k / 2 / 2)
  {
    var q, g := k / 2, k / 2 / 2;
    assert SlotOk(s, m, q) && SlotOk(s, m, k) && SlotOk(s, m, g);
    SameSlot(s, 2 * g, q);
  }

  lemma SwapFar<K>(s: seq<HNode<K>>, k: int, j: int, min: HNode?<K>, m: Links<K>, min': HNode?<K>, m': Links<K>)
    requires Linked(s, min, m) && 2 <= k <= |s| && 1 <= j <= |s|
    requires j != k && j != k / 2 && j != k / 2 / 2 && j / 2 != k / 2 && j / 2 != k
    requires CanSwap(At(s, k / 2), At(s, k), m)
    requires Swapped(At(s, k / 2), At(s, k), min, m, min', m')
    ensures At(s, j) in m && m'[At(s, j)] == m[At(s, j)]
  {
    var q, sib, g := k / 2, if k % 2 == 0 then k + 1 else k - 1, k / 2 / 2;
    assert SlotOk(s, m, q) && SlotOk(s, m, k) && SlotOk(s, m, j);
    SameSlot(s, j, q); SameSlot(s, j, k); SameSlot(s, j, sib);
    SameSlot(s, j, 2 * k); SameSlot(s, j, 2 * k + 1); SameSlot(s, j, g);
  }

  /** The slot of a stored node. */
  ghost function SlotIndex<K>(s: seq<HNode<K>>, n: HNode<K>): (k: int)
    requires n in s
    ensures 1 <= k <= |s| && s[k - 1] == n
  {
    var i :| 0 <= i < |s| && s[i] == n;
    i + 1
  }

  // ---------- the last slot ----------

  /** A cell made to point to `x` as the child with slot number `k`. */
  ghost function HangAt<K>(cell: Cell<K>, k: int, x: HNode?<K>): Cell<K> {
    if k % 2 == 0 then cell.(left := x) else cell.(right := x)
  }

  /** The links after `x` became the last slot. */
  ghost predicate Appended<K>(s: seq<HNode<K>>, x: HNode<K>, min: HNode?<K>, m: Links<K>, min': HNode?<K>,
                              m': Links<K>) {
    var k := |s| + 1;
    m'.Keys == m.Keys + {x} && m'[x] == Cell(null, null, At(s, k / 2)) &&
    min' == (if k == 1 then x else min) &&
    (forall n | n in m && n != At(s, k / 2) :: m'[n] == m[n]) &&
    (k > 1 ==> s[k / 2 - 1] in m && m'[s[k / 2 - 1]] == HangAt(m[s[k / 2 - 1]], k, x))
  }

  lemma AppendLinks<K>(s: seq<HNode<K>>, x: HNode<K>, min: HNode?<K>, m: Links<K>, min': HNode?<K>, m': Links<K>)
    requires Linked(s, min, m) && x !in s && Appended(s, x, min, m, min', m')
    ensures Linked(s + [x], min', m')
  {
    var s', k := s + [x], |s| + 1;
    forall i, j ensures Differ(s', i, j) {
      assert Differ(s, i, j);
    }
    forall j ensures SlotOk(s', m', j) {
      assert SlotOk(s, m, j) && SlotOk(s, m, k / 2);
      SameSlot(s, j, k / 2);
    }
  }

  /** The slots next to the one that is appended. */
  lemma AppendPlace<K>(s: seq<HNode<K>>, x: HNode<K>, min: HNode?<K>, m: Links<K>)
    requires Linked(s, min, m) && x !in m
    ensures x !in s && At(s, 1) == min
    ensures SlotOk(s, m, (|s| + 1) / 2 / 2) && SlotOk(s, m, (|s| + 1) / 2)
  {
    assert x in s ==> x in Members(s);
  }

  lemma LastOut<K>(s: seq<HNode<K>>, x: HNode<K>)
    requires x in s
    ensures multiset(s[..|s| - 1]) == multiset(s) - multiset{s[|s| - 1]}
    ensures x != s[|s| - 1] ==> x in s[..|s| - 1]
  {
    assert s == s[..|s| - 1] + [s[|s| - 1]];
  }

  /** The links after the last slot was unlinked; its node keeps its own. */
  ghost predicate Shortened<K>(s: seq<HNode<K>>, min: HNode?<K>, m: Links<K>, min': HNode?<K>, m': Links<K>)
    requires s != []
  {
    var k, x := |s|, s[|s| - 1];
    m'.Keys == m.Keys - {x} &&
    min' == (if k == 1 then null else min) &&
    (forall n | n in m' && n != At(s, k / 2) :: n in m && m'[n] == m[n]) &&
    (k > 1 ==> s[k / 2 - 1] in m && s[k / 2 - 1] in m' && m'[s[k / 2 - 1]] == HangAt(m[s[k / 2 - 1]], k, null))
  }

  lemma ShortenLinks<K>(s: seq<HNode<K>>, min: HNode?<K>, m: Links<K>, min': HNode?<K>, m': Links<K>)
    requires s != [] && Linked(s, min, m) && Shortened(s, min, m, min', m')
    ensures Linked(s[..|s| - 1], min', m')
  {
    var s', k := s[..|s| - 1], |s|;
    forall i, j ensures Differ(s', i, j) {
      assert Differ(s, i, j);
    }
    assert Members(s') == Members(s) - {s[k - 1]} by {
      forall n | n in s' ensures n != s[k - 1] {
        var i :| 0 <= i < |s'| && s'[i] == n;
        assert Differ(s, i + 1, k);
      }
    }
    forall j ensures SlotOk(s', m', j) {
      assert SlotOk(s, m, j) && SlotOk(s, m, k / 2) && Differ(s, j, k);
      SameSlot(s, j, k / 2);
    }
  }

  // ---------- another node in a slot ----------

  /** The neighbours of slot `k` are there and different. */
  ghost predicate CanReplace<K>(n: HNode<K>, m: Links<K>) {
    n in m &&
    var l, r, p := m[n].left, m[n].right, m[n].parent;
    (l != null ==> l in m && l != n && l != r && l != p) && (r != null ==> r in m && r != n && r != p) &&
    (p != null ==> p in m && p != n && (m[p].left == n || m[p].right == n) && m[p].left != m[p].right)
  }

  /** What putting `x` in the place of `n` does to the links. */
  ghost predicate Replaced<K>(n: HNode<K>, x: HNode<K>, min: HNode?<K>, m: Links<K>, min': HNode?<K>, m': Links<K>)
    requires CanReplace(n, m)
  {
    var l, r, p := m[n].left, m[n].right, m[n].parent;
    m'.Keys == m.Keys - {n} + {x} && m'[x] == m[n] && min' == (if p == null then x else min) &&
    (l != null ==> m'[l] == m[l].(parent := x)) &&
    (r != null ==> m'[r] == m[r].(parent := x)) &&
    (p != null ==> m'[p] == if m[p].left == n then m[p].(left := x) else m[p].(right := x)) &&
    forall o | o in m && o != n && o != l && o != r && o != p :: m'[o] == m[o]
  }

  lemma LinkedCanReplace<K>(s: seq<HNode<K>>, k: int, min: HNode?<K>, m: Links<K>)
    requires Linked(s, min, m) && 1 <= k <= |s|
    ensures CanReplace(s[k - 1], m)
    ensures k > 1 ==> (m[s[k / 2 - 1]].left == s[k - 1] <==> k % 2 == 0)
  {
    var g := k / 2;
    assert SlotOk(s, m, k) && SlotOk(s, m, g) && SlotOk(s, m, 2 * k) && SlotOk(s, m, 2 * k + 1);
    SameSlot(s, 2 * k, k); SameSlot(s, 2 * k + 1, k); SameSlot(s, 2 * k, 2 * k + 1); SameSlot(s, g, k);
    SameSlot(s, 2 * k, g); SameSlot(s, 2 * k + 1, g); SameSlot(s, 2 * g, 2 * g + 1);
  }

  lemma ReplaceLinks<K>(s: seq<HNode<K>>, k: int, x: HNode<K>, min: HNode?<K>, m: Links<K>, min': HNode?<K>,
                        m': Links<K>)
    requires Linked(s, min, m) && 1 <= k <= |s| && x !in s
    requires CanReplace(s[k - 1], m) && Replaced(s[k - 1], x, min, m, min', m')
    ensures Linked(s[k - 1 := x], min', m')
  {
    var s' := s[k - 1 := x];
    forall i, j ensures Differ(s', i, j) {
      assert Differ(s, i, j);
    }
    assert Members(s') == Members(s) - {s[k - 1]} + {x} by {
      assert s'[k - 1] == x;
      forall n | n in s && n != s[k - 1] ensures n in s' {
        var i :| 0 <= i < |s| && s[i] == n;
        assert s'[i] == n;
      }
      forall n | n in s' && n != x ensures n in s && n != s[k - 1] {
        var i :| 0 <= i < |s| && s'[i] == n;
        assert Differ(s, i + 1, k);
      }
    }
    assert SlotOk(s, m, k);
    forall j ensures SlotOk(s', m', j) {
      if 1 <= j <= |s| { ReplaceSlot(s, k, x, j, min, m, min', m'); }
    }
  }

  lemma ReplaceSlot<K>(s: seq<HNode<K>>, k: int, x: HNode<K>, j: int, min: HNode?<K>, m: Links<K>, min': HNode?<K>,
                       m': Links<K>)
    requires Linked(s, min, m) && 1 <= k <= |s| && 1 <= j <= |s| && x !in s
    requires CanReplace(s[k - 1], m) && Replaced(s[k - 1], x, min, m, min', m')
    ensures SlotOk(s[k - 1 := x], m', j)
  {
    assert SlotOk(s, m, k) && SlotOk(s, m, j);
    LinkedCanReplace(s, k, min, m);
    if j != k {
      SameSlot(s, j, k); SameSlot(s, j, 2 * k); SameSlot(s, j, 2 * k + 1); SameSlot(s, j, k / 2);
    }
  }
}
