/** The walk down a red-black tree that the searches share: where it is, and how long it gets. */
module RbWalk {
  import opened Order
  import opened Powers
  import opened RbFix
  import opened RbHeight
  import opened RbSearch
  import opened RbShape

  /** The walk for `k` down the tree `whole` is at the subtree `t`: only there `k` can be. */
  ghost predicate Walking<K(!new)>(cmp: (K, K) -> int, k: K, c: Ctx<K>, t: Tree<K>, whole: Tree<K>, root: Node?<K>,
                                         m: Links<K>) {
    Zip(c, t, root, m) && Plug(c, t) == whole && Between(cmp, c, k)
  }

  lemma WalkLeft<K(!new)>(cmp: (K, K) -> int, k: K, c: Ctx<K>, t: Tree<K>, whole: Tree<K>, root: Node?<K>, m: Links<K>)
    requires IsOrder(cmp) && Sorted(cmp, InOrder(whole)) && Walking(cmp, k, c, t, whole, root, m)
    requires t.T? && cmp(k, t.n.key) < 0
    ensures Walking(cmp, k, InL(c, t.n, t.c, t.r), t.l, whole, root, m)
    ensures t.n in m && m[t.n].left == Root(t.l)
  {
    GoLeft(cmp, c, t, k);
    FocusUp(InL(c, t.n, t.c, t.r), t.l, root, m);
  }

  lemma WalkRight<K(!new)>(cmp: (K, K) -> int, k: K, c: Ctx<K>, t: Tree<K>, whole: Tree<K>, root: Node?<K>, m: Links<K>)
    requires IsOrder(cmp) && Sorted(cmp, InOrder(whole)) && Walking(cmp, k, c, t, whole, root, m)
    requires t.T? && cmp(k, t.n.key) > 0
    ensures Walking(cmp, k, InR(c, t.n, t.c, t.l), t.r, whole, root, m)
    ensures t.n in m && m[t.n].right == Root(t.r)
  {
    GoRight(cmp, c, t, k);
    FocusUp(InR(c, t.n, t.c, t.l), t.r, root, m);
  }

  /** Where the walk ends: at a node of the tree, or between all nodes below the key and all above it. */
  lemma WalkEnds<K(!new)>(cmp: (K, K) -> int, k: K, c: Ctx<K>, t: Tree<K>, whole: Tree<K>, root: Node?<K>, m: Links<K>)
    requires Walking(cmp, k, c, t, whole, root, m)
    ensures t.T? ==> t.n in InOrder(whole)
    ensures t.E? ==> InOrder(whole) == Before(c) + After(c) && forall n | n in InOrder(whole) :: cmp(k, n.key) != 0
  {
    InOrderPlug(c, t);
    assert t.E? ==> Before(c) + InOrder(t) + After(c) == Before(c) + After(c);
  }

  lemma {:induction false} DepthInHeight<K>(c: Ctx<K>, t: Tree<K>)
    ensures Depth(c) + Height(t) <= Height(Plug(c, t))
    decreases c
  {
    if !c.Top? {
      FocusUp(c, t, null, map[]);
      DepthInHeight(c.up, Up(c, t));
    }
  }

  /** A walk, down or up, takes at most 2 lg(n + 1) steps in a tree of n nodes, and so does a repair on its way up. */
  lemma WalkBound<K>(c: Ctx<K>, t: Tree<K>, whole: Tree<K>, steps: nat)
    requires RedBlack(whole) && Plug(c, t) == whole && steps <= Depth(c) + Height(t)
    ensures Logarithmic(steps, |InOrder(whole)|)
  {
    DepthInHeight(c, t);
    Pow2Monotone(steps, Height(whole));
    HeightBound(whole);
  }
}
