/** Order facts of the splay loop. */
module SplayOrder {
  import opened Order
  import opened Edits
  import opened SplayShape
  import opened SplayStep

  ghost predicate Sorted<K(!new)>(cmp: (K, K) -> int, s: seq<SNode<K>>) {
    forall i, j :: 0 <= i < j < |s| ==> cmp(s[i].key, s[j].key) < 0
  }

  /** The left spine is below `k` and the right one above it. */
  ghost predicate Sided<K(!new)>(cmp: (K, K) -> int, k: K, w: Work<K>) {
    (forall n | n in SpineOrderL(w.left) :: cmp(k, n.key) > 0) &&
      (forall n | n in SpineOrderR(w.right) :: cmp(k, n.key) < 0)
  }

  /** Splitting off the root keeps the spines on their sides of the key. */
  lemma LinkSidedL<K(!new)>(cmp: (K, K) -> int, k: K, w: Work<K>)
    requires IsOrder(cmp) && w.t.T? && Sorted(cmp, All(w)) && Sided(cmp, k, w) && cmp(k, w.t.n.key) < 0
    ensures Sided(cmp, k, LinkedL(w))
  {
    var s, i := All(w), |SpineOrderL(w.left)| + |InOrder(w.t.l)|;
    assert s[i] == w.t.n;
    forall n | n in InOrder(w.t.r) ensures cmp(k, n.key) < 0 {
      var j :| 0 <= j < |InOrder(w.t.r)| && InOrder(w.t.r)[j] == n;
      assert s[i + 1 + j] == n;
    }
  }

  /** Splitting off the root keeps the spines on their sides of the key. */
  lemma LinkSidedR<K(!new)>(cmp: (K, K) -> int, k: K, w: Work<K>)
    requires IsOrder(cmp) && w.t.T? && Sorted(cmp, All(w)) && Sided(cmp, k, w) && cmp(k, w.t.n.key) > 0
    ensures Sided(cmp, k, LinkedR(w))
  {
    var s, i := All(w), |SpineOrderL(w.left)| + |InOrder(w.t.l)|;
    assert s[i] == w.t.n;
    forall n | n in InOrder(w.t.l) ensures cmp(k, n.key) > 0 {
      var j :| 0 <= j < |InOrder(w.t.l)| && InOrder(w.t.l)[j] == n;
      assert s[|SpineOrderL(w.left)| + j] == n;
    }
  }

  /** The root is the sought key or a neighbour of it: no stored key lies strictly between. */
  ghost predicate Near<K(!new)>(cmp: (K, K) -> int, k: K, t: Tree<K>) {
    t.T? &&
    (cmp(k, t.n.key) < 0 ==> forall n | n in InOrder(t.l) :: cmp(k, n.key) > 0) &&
    (cmp(k, t.n.key) > 0 ==> forall n | n in InOrder(t.r) :: cmp(k, n.key) < 0)
  }

  /** Nothing is stored further towards `k`. */
  ghost predicate Stuck<K>(cmp: (K, K) -> int, k: K, t: Tree<K>) {
    t.T? && ((cmp(k, t.n.key) < 0 && t.l.E?) || (cmp(k, t.n.key) > 0 && t.r.E?))
  }

  lemma AssembledNear<K(!new)>(cmp: (K, K) -> int, k: K, w: Work<K>)
    requires w.t.T? && Sided(cmp, k, w) && (cmp(k, w.t.n.key) == 0 || Stuck(cmp, k, w.t))
    ensures Near(cmp, k, Assembled(w))
  {
    CloseOrderL(w.left, w.t.l);
    CloseOrderR(w.right, w.t.r);
  }

  lemma SortedParts<K(!new)>(cmp: (K, K) -> int, t: Tree<K>)
    requires t.T? && Sorted(cmp, InOrder(t))
    ensures Sorted(cmp, InOrder(t.l)) && Sorted(cmp, InOrder(t.r))
    ensures forall n | n in InOrder(t.l) :: cmp(n.key, t.n.key) < 0
    ensures forall n | n in InOrder(t.r) :: cmp(t.n.key, n.key) < 0
  {
    var below := (y: SNode<K>, z: SNode<K>) => cmp(y.key, z.key) < 0;
    var a, n, b := InOrder(t.l), [t.n], InOrder(t.r);
    assert InOrder(t) == a + n + b;
    AscendingJoin(below, a + n, b);
    AscendingJoin(below, a, n);
    assert (a + n)[|a|] == t.n;
  }

  /** When the root is near `k` but not equal to it, no stored key is. */
  lemma NearDecides<K(!new)>(cmp: (K, K) -> int, k: K, t: Tree<K>)
    requires IsOrder(cmp) && Sorted(cmp, InOrder(t)) && Near(cmp, k, t)
    ensures cmp(k, t.n.key) != 0 ==> forall n | n in InOrder(t) :: cmp(k, n.key) != 0
    ensures cmp(k, t.n.key) <= 0 ==> forall n | n in InOrder(t.l) :: cmp(k, n.key) > 0
    ensures cmp(k, t.n.key) >= 0 ==> forall n | n in InOrder(t.r) :: cmp(k, n.key) < 0
    ensures cmp(k, t.n.key) < 0 ==> forall n | n in InOrder(t.r) :: cmp(k, n.key) < 0
    ensures cmp(k, t.n.key) > 0 ==> forall n | n in InOrder(t.l) :: cmp(k, n.key) > 0
  {
    SortedParts(cmp, t);
  }

  // ---------- insertion and removal at the root ----------

  /** `elm` on top: the old root goes to its right when `elm` is below it. */
  ghost function WithRoot<K>(t: Tree<K>, elm: SNode<K>, below: bool): Tree<K>
    requires t.T?
  {
    if below then T(t.l, elm, T(E, t.n, t.r)) else T(T(t.l, t.n, E), elm, t.r)
  }

  /** The old root keeps one of its subtrees. */
  lemma HalfLeaf<K>(t: Tree<K>, l: Tree<K>, r: Tree<K>, m: Links<K>)
    requires t.T? && Distinct(t) && (l.E? || l == t.l) && (r.E? || r == t.r)
    requires Rep(l, m) && Rep(r, m) && t.n in m && m[t.n] == Cell(Root(l), Root(r))
    ensures var v := T(l, t.n, r); Rep(v, m) && Nodes(v) == {t.n} + Nodes(l) + Nodes(r) && Distinct(v)
  {
  }

  lemma WithRootLinks<K>(t: Tree<K>, elm: SNode<K>, below: bool, root: SNode?<K>, m: Links<K>, m': Links<K>)
    requires t.T? && Linked(t, root, m) && elm !in m
    requires m'.Keys == m.Keys + {elm} && t.n in m' && Same(m, m', {t.n})
    requires below ==> m'[elm] == Cell(Root(t.l), t.n) && m'[t.n] == Cell(null, Root(t.r))
    requires !below ==> m'[elm] == Cell(t.n, Root(t.r)) && m'[t.n] == Cell(Root(t.l), null)
    ensures Linked(WithRoot(t, elm, below), elm, m')
  {
    RepFrame(t.l, m, m', {t.n});
    RepFrame(t.r, m, m', {t.n});
    var w := WithRoot(t, elm, below);
    assert Nodes(t) == {t.n} + Nodes(t.l) + Nodes(t.r);
    if below { HalfLeaf(t, E, t.r, m'); } else { HalfLeaf(t, t.l, E, m'); }
    assert Nodes(w) == {elm} + Nodes(w.l) + Nodes(w.r);
  }

  lemma InsertedOrder<K(!new)>(cmp: (K, K) -> int, t: Tree<K>, elm: SNode<K>)
    requires IsOrder(cmp) && Sorted(cmp, InOrder(t)) && Near(cmp, elm.key, t) && cmp(elm.key, t.n.key) != 0
    ensures var t' := WithRoot(t, elm, cmp(elm.key, t.n.key) < 0);
            Sorted(cmp, InOrder(t')) && Inserted(InOrder(t), elm, InOrder(t'))
    ensures elm !in Nodes(t)
  {
    NearDecides(cmp, elm.key, t);
    InOrderNodes(t);
    assert cmp(elm.key, elm.key) == 0;
    var below := cmp(elm.key, t.n.key) < 0;
    var l, r := InOrder(t.l), InOrder(t.r);
    if below {
      assert InOrder(T(E, t.n, t.r)) == [t.n] + r;
      assert InOrder(t) == l + ([t.n] + r);
      AddedBetween(cmp, l, elm, [t.n] + r);
    } else {
      assert InOrder(T(t.l, t.n, E)) == l + [t.n];
      AddedBetween(cmp, l + [t.n], elm, r);
    }
  }

  lemma AddedBetween<K(!new)>(cmp: (K, K) -> int, a: seq<SNode<K>>, x: SNode<K>, b: seq<SNode<K>>)
    requires IsOrder(cmp) && Sorted(cmp, a + b)
    requires forall n | n in a :: cmp(x.key, n.key) > 0
    requires forall n | n in b :: cmp(x.key, n.key) < 0
    ensures Sorted(cmp, a + [x] + b) && Inserted(a + b, x, a + [x] + b)
  {
    AscendingAdd((y: SNode<K>, z: SNode<K>) => cmp(y.key, z.key) < 0, a, x, b);
  }

  lemma RemovedOrder<K(!new)>(cmp: (K, K) -> int, a: seq<SNode<K>>, x: SNode<K>, b: seq<SNode<K>>)
    requires Sorted(cmp, a + [x] + b)
    ensures Sorted(cmp, a + b) && Removed(a + [x] + b, x, a + b)
  {
    AscendingDrop((y: SNode<K>, z: SNode<K>) => cmp(y.key, z.key) < 0, a, x, b);
  }

  lemma KeysDiffer<K(!new)>(cmp: (K, K) -> int, s: seq<SNode<K>>, i: nat, j: nat)
    requires IsOrder(cmp) && Sorted(cmp, s) && i < |s| && j < |s|
    ensures i != j ==> cmp(s[i].key, s[j].key) != 0
  {
    assert i < j ==> cmp(s[i].key, s[j].key) < 0;
    assert j < i ==> cmp(s[j].key, s[i].key) < 0;
  }

  /** Two stored nodes of equal keys are one. */
  lemma EqualIsSame<K(!new)>(cmp: (K, K) -> int, s: seq<SNode<K>>, x: SNode<K>, y: SNode<K>)
    requires IsOrder(cmp) && Sorted(cmp, s) && x in s && y in s && cmp(x.key, y.key) == 0
    ensures x == y
  {
    var i :| 0 <= i < |s| && s[i] == x;
    var j :| 0 <= j < |s| && s[j] == y;
    KeysDiffer(cmp, s, i, j);
  }

  lemma RightOnly<K>(t: Tree<K>, m: Links<K>, m': Links<K>)
    requires t.T? && t.l.E? && Rep(t, m) && Distinct(t) && m.Keys == Nodes(t)
    requires m'.Keys == m.Keys - {t.n} && Same(m, m', {t.n})
    ensures Linked(t.r, Root(t.r), m') && InOrder(t.r) == InOrder(t.l) + InOrder(t.r)
  {
    RepFrame(t.r, m, m', {t.n});
  }

  /** The left subtree as a tree of its own, and the right one beside it. */
  lemma LeftAlone<K>(t: Tree<K>, m: Links<K>, ml: Links<K>, mr: Links<K>)
    requires t.T? && Rep(t, m) && Distinct(t) && m.Keys == Nodes(t)
    requires ml.Keys == Nodes(t.l) && mr.Keys == Nodes(t.r)
    requires forall n | n in ml :: n in m && ml[n] == m[n]
    requires forall n | n in mr :: n in m && mr[n] == m[n]
    ensures Linked(t.l, Root(t.l), ml) && Linked(t.r, Root(t.r), mr)
  {
    RepFrame(t.l, m, ml, Nodes(t) - Nodes(t.l));
    RepFrame(t.r, m, mr, Nodes(t) - Nodes(t.r));
  }

  lemma SubtreesApart<K(!new)>(cmp: (K, K) -> int, t: Tree<K>, root: SNode?<K>, m: Links<K>, ml: Links<K>, mr: Links<K>)
    requires t.T? && Linked(t, root, m) && Sorted(cmp, InOrder(t))
    requires ml.Keys == Nodes(t.l) && mr.Keys == Nodes(t.r)
    requires forall n | n in ml && n in m :: ml[n] == m[n]
    requires forall n | n in mr && n in m :: mr[n] == m[n]
    ensures Linked(t.l, Root(t.l), ml) && Linked(t.r, Root(t.r), mr) && Sorted(cmp, InOrder(t.l))
    ensures Nodes(t.l) !! Nodes(t.r) && root == t.n && t.n in m && m[t.n] == Cell(Root(t.l), Root(t.r)) && Distinct(t)
  {
    assert Nodes(t) == {t.n} + Nodes(t.l) + Nodes(t.r);
    LeftAlone(t, m, ml, mr);
    SortedParts(cmp, t);
  }

  lemma RootListed<K>(t: Tree<K>)
    ensures t.T? ==> t.n in InOrder(t)
  {
  }

  /** Splaying the left subtree to a key above all of it leaves the root without right child. */
  lemma NothingRight<K(!new)>(cmp: (K, K) -> int, k: K, t: Tree<K>, u: Tree<K>)
    requires IsOrder(cmp) && t.T? && Sorted(cmp, InOrder(t)) && cmp(k, t.n.key) == 0
    requires InOrder(u) == InOrder(t.l) && Near(cmp, k, u)
    ensures u.r.E?
  {
    RootListed(u.r);
    SortedParts(cmp, t);
    var r := InOrder(u.r);
    assert forall n | n in r :: n in InOrder(u);
    assert forall n | n in r :: cmp(n.key, t.n.key) < 0;
    assert forall n | n in InOrder(u) :: cmp(k, n.key) > 0;
    assert u.n in InOrder(u);
  }

  lemma Joined<K>(t: Tree<K>, u: Tree<K>, root: SNode?<K>, ml: Links<K>, mr: Links<K>, m': Links<K>)
    requires t.T? && Distinct(t) && u.T? && u.r.E? && Linked(u, root, ml) && Linked(t.r, Root(t.r), mr)
    requires Nodes(u) == Nodes(t.l) && InOrder(u) == InOrder(t.l)
    requires m'.Keys == Nodes(t) - {t.n} && m'[u.n] == Cell(Root(u.l), Root(t.r))
    requires Same(ml, m', {u.n}) && Same(mr, m', {})
    ensures Linked(T(u.l, u.n, t.r), root, m') && InOrder(T(u.l, u.n, t.r)) == InOrder(t.l) + InOrder(t.r)
  {
    RepFrame(u.l, ml, m', {u.n});
    RepFrame(t.r, mr, m', {});
    assert Nodes(u) == {u.n} + Nodes(u.l) && Nodes(t) == {t.n} + Nodes(t.l) + Nodes(t.r);
    assert InOrder(u) == InOrder(u.l) + [u.n];
  }
}
