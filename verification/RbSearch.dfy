/** Order facts: what a walk down a sorted tree knows about the key it is looking for. */
module RbSearch {
  import opened Edits
  import opened Order
  import opened RbShape
  import opened RbRotate

  ghost predicate Sorted<K(!new)>(cmp: (K, K) -> int, s: seq<Node<K>>) {
    forall i, j :: 0 <= i < j < |s| ==> cmp(s[i].key, s[j].key) < 0
  }

  /** Everything before the hole is below `k` and everything after it above. */
  ghost predicate Between<K(!new)>(cmp: (K, K) -> int, c: Ctx<K>, k: K) {
    (forall n | n in Before(c) :: cmp(k, n.key) > 0) && (forall n | n in After(c) :: cmp(k, n.key) < 0)
  }

  lemma GoLeft<K(!new)>(cmp: (K, K) -> int, c: Ctx<K>, t: Tree<K>, k: K)
    requires IsOrder(cmp) && t.T? && Sorted(cmp, InOrder(Plug(c, t)))
    requires Between(cmp, c, k) && cmp(k, t.n.key) < 0
    ensures Between(cmp, InL(c, t.n, t.c, t.r), k)
  {
    InOrderPlug(c, t);
    var s, i := InOrder(Plug(c, t)), |Before(c)| + |InOrder(t.l)|;
    assert s[i] == t.n;
    forall n | n in InOrder(t.r) ensures cmp(k, n.key) < 0 {
      var j :| 0 <= j < |InOrder(t.r)| && InOrder(t.r)[j] == n;
      assert s[i + 1 + j] == n;
    }
  }

  lemma GoRight<K(!new)>(cmp: (K, K) -> int, c: Ctx<K>, t: Tree<K>, k: K)
    requires IsOrder(cmp) && t.T? && Sorted(cmp, InOrder(Plug(c, t)))
    requires Between(cmp, c, k) && cmp(k, t.n.key) > 0
    ensures Between(cmp, InR(c, t.n, t.c, t.l), k)
  {
    InOrderPlug(c, t);
    var s, i := InOrder(Plug(c, t)), |Before(c)| + |InOrder(t.l)|;
    assert s[i] == t.n;
    forall n | n in InOrder(t.l) ensures cmp(k, n.key) > 0 {
      var j :| 0 <= j < |InOrder(t.l)| && InOrder(t.l)[j] == n;
      assert s[|Before(c)| + j] == n;
    }
  }

  /** A new element between its neighbours keeps the sequence sorted. */
  lemma SortedInsert<K(!new)>(cmp: (K, K) -> int, a: seq<Node<K>>, x: Node<K>, b: seq<Node<K>>)
    requires IsOrder(cmp) && Sorted(cmp, a + b)
    requires forall n | n in a :: cmp(x.key, n.key) > 0
    requires forall n | n in b :: cmp(x.key, n.key) < 0
    ensures Sorted(cmp, a + [x] + b)
  {
    AscendingAdd((y: Node<K>, z: Node<K>) => cmp(y.key, z.key) < 0, a, x, b);
  }

  lemma SortedRemove<K(!new)>(cmp: (K, K) -> int, a: seq<Node<K>>, x: Node<K>, b: seq<Node<K>>)
    requires Sorted(cmp, a + [x] + b)
    ensures Sorted(cmp, a + b)
    ensures Removed(a + [x] + b, x, a + b)
  {
    AscendingDrop((y: Node<K>, z: Node<K>) => cmp(y.key, z.key) < 0, a, x, b);
  }

  lemma InsertedOrder<K(!new)>(cmp: (K, K) -> int, c: Ctx<K>, elm: Node<K>, t: Tree<K>, t': Tree<K>)
    requires IsOrder(cmp) && Plug(c, E) == t && Sorted(cmp, InOrder(t)) && Between(cmp, c, elm.key)
    requires InOrder(t') == InOrder(Plug(c, T(E, elm, Red, E)))
    ensures Sorted(cmp, InOrder(t')) && Inserted(InOrder(t), elm, InOrder(t'))
    ensures forall n | n in InOrder(t) :: cmp(elm.key, n.key) != 0
  {
    InOrderPlug(c, E);
    InOrderPlug(c, T(E, elm, Red, E));
    var a, b := Before(c), After(c);
    assert InOrder(t) == a + b && InOrder(t') == a + [elm] + b;
    SortedInsert(cmp, a, elm, b);
    assert (a + b)[..|a|] == a && (a + b)[|a|..] == b;
  }

  lemma NotStored<K(!new)>(cmp: (K, K) -> int, c: Ctx<K>, elm: Node<K>, t: Tree<K>)
    requires IsOrder(cmp) && Plug(c, E) == t && Between(cmp, c, elm.key)
    ensures elm !in Nodes(t)
  {
    InOrderPlug(c, E);
    InOrderNodes(t);
    assert InOrder(t) == Before(c) + After(c);
    assert cmp(elm.key, elm.key) == 0;
  }

  // ---------- neighbours in key order ----------

  ghost function First<K>(s: seq<Node<K>>): Node?<K> {
    if s == [] then null else s[0]
  }

  ghost function Last<K>(s: seq<Node<K>>): Node?<K> {
    if s == [] then null else s[|s| - 1]
  }

  /** `y` comes right after `x`, or `x` is the last one and `y` is null. */
  ghost predicate Follows<K>(s: seq<Node<K>>, x: Node<K>, y: Node?<K>) {
    exists i :: 0 <= i < |s| && s[i] == x && y == First(s[i + 1..])
  }

  lemma FollowsAt<K>(a: seq<Node<K>>, x: Node<K>, b: seq<Node<K>>)
    ensures Follows(a + [x] + b, x, First(b))
  {
    var s := a + [x] + b;
    assert s[|a|] == x && s[|a| + 1..] == b;
  }

  lemma NextIs<K(!new)>(cmp: (K, K) -> int, s: seq<Node<K>>, i: nat, y: Node?<K>)
    requires IsOrder(cmp) && Sorted(cmp, s) && i < |s| && Follows(s, s[i], y)
    ensures y == First(s[i + 1..])
  {
    var j :| 0 <= j < |s| && s[j] == s[i] && y == First(s[j + 1..]);
    assert cmp(s[i].key, s[i].key) == 0;
  }

  /** The first element of `b` is the least one not below `k`. */
  lemma LeastFrom<K(!new)>(cmp: (K, K) -> int, a: seq<Node<K>>, b: seq<Node<K>>, k: K)
    requires IsOrder(cmp) && Sorted(cmp, a + b)
    requires forall n | n in a :: cmp(k, n.key) > 0
    ensures forall n | n in a + b && cmp(k, n.key) <= 0 :: b != [] && cmp(b[0].key, n.key) <= 0
  {
    var s := a + b;
    forall j | 0 <= j < |a| ensures cmp(k, s[j].key) > 0 {
      assert s[j] == a[j];
    }
    forall n | n in s && cmp(k, n.key) <= 0 ensures b != [] && cmp(b[0].key, n.key) <= 0 {
      var i :| 0 <= i < |s| && s[i] == n;
      assert s[|a|] == b[0];
      assert cmp(n.key, n.key) == 0;
    }
  }

  /** A stored node with an equal key is the least that is not below the key. */
  lemma EqualIsLeast<K(!new)>(cmp: (K, K) -> int, s: seq<Node<K>>, x: Node<K>, k: K)
    requires IsOrder(cmp) && x in s && cmp(k, x.key) == 0
    ensures forall n | n in s && cmp(k, n.key) <= 0 :: cmp(x.key, n.key) <= 0
  {
    forall n | n in s && cmp(k, n.key) <= 0 ensures cmp(x.key, n.key) <= 0 {
      assert cmp(x.key, k) <= 0;
    }
  }

  // ---------- linking a new leaf ----------

  /** A leaf linked at the hole. */
  lemma LeafLinks<K>(c: Ctx<K>, elm: Node<K>, root: Node?<K>, m: Links<K>, root': Node?<K>, m': Links<K>)
    requires Zip(c, E, root, m) && elm !in m
    requires m'.Keys == m.Keys + {elm} && m'[elm] == Cell(null, null, Above(c), Red)
    requires !c.Top? ==> c.n in m && m'[c.n] == Hang(c, m[c.n], elm)
    requires root' == if c.Top? then elm else root
    requires Same(m, m', {elm} + Opt(Above(c)))
    ensures Zip(c, T(E, elm, Red, E), root', m')
    ensures InOrder(T(E, elm, Red, E)) == [elm]
  {
    RepCtxRehang(c, root, null, root', elm, m, m', {elm} + Opt(Above(c)));
  }
}
