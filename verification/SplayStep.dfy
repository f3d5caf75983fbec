/** One step of the top-down splay on the links: rotate the root, split it off to a spine, assemble. */
module SplayStep {
  import opened SplayShape

  /** The state of the loop: two spines that start at `d`, and the middle tree. */
  datatype Work<K> = Work(left: Spine<K>, t: Tree<K>, right: Spine<K>, d: SNode<K>)

  ghost predicate Apart<K>(w: Work<K>) {
    DistinctSpine(w.left) && DistinctSpine(w.right) && Distinct(w.t) &&
    w.d !in Nodes(w.t) && w.d !in SpineNodes(w.left) && w.d !in SpineNodes(w.right) &&
    SpineNodes(w.left) !! SpineNodes(w.right) && SpineNodes(w.left) !! Nodes(w.t) && SpineNodes(w.right) !! Nodes(w.t)
  }

  ghost predicate Going<K>(w: Work<K>, root: SNode?<K>, m: Links<K>) {
    root == Root(w.t) && Rep(w.t, m) && SpineL(w.left, w.d, m) && SpineR(w.right, w.d, m) && Apart(w) &&
    m.Keys == {w.d} + Nodes(w.t) + SpineNodes(w.left) + SpineNodes(w.right)
  }

  /** The nodes of a left spine in key order, outermost first. */
  ghost function SpineOrderL<K>(sp: Spine<K>): seq<SNode<K>> {
    match sp
    case Base => []
    case Snoc(up, n, sub) => SpineOrderL(up) + InOrder(sub) + [n]
  }

  ghost function SpineOrderR<K>(sp: Spine<K>): seq<SNode<K>> {
    match sp
    case Base => []
    case Snoc(up, n, sub) => [n] + InOrder(sub) + SpineOrderR(up)
  }

  /** Everything that takes part, in key order. */
  ghost function All<K>(w: Work<K>): seq<SNode<K>> {
    SpineOrderL(w.left) + InOrder(w.t) + SpineOrderR(w.right)
  }

  /** The fields a step reads. */
  lemma ReadRoot<K>(w: Work<K>, root: SNode?<K>, m: Links<K>)
    requires Going(w, root, m) && w.t.T?
    ensures w.t.n in m && m[w.t.n] == Cell(Root(w.t.l), Root(w.t.r))
    ensures w.t.l.T? ==> w.t.l.n in m && m[w.t.l.n] == Cell(Root(w.t.l.l), Root(w.t.l.r)) && w.t.l.n != w.t.n
    ensures w.t.r.T? ==> w.t.r.n in m && m[w.t.r.n] == Cell(Root(w.t.r.l), Root(w.t.r.r)) && w.t.r.n != w.t.n
    ensures w.d in m && Last(w.left, w.d) in m && Last(w.right, w.d) in m
    ensures w.d != w.t.n && Last(w.left, w.d) != w.t.n && Last(w.right, w.d) != w.t.n
  {
    assert Rep(w.t.l, m) && Rep(w.t.r, m);
    assert w.t.l.T? ==> w.t.l.n in Nodes(w.t.l);
    assert w.t.r.T? ==> w.t.r.n in Nodes(w.t.r);
    assert w.left.Snoc? ==> w.left.n in SpineNodes(w.left);
    assert w.right.Snoc? ==> w.right.n in SpineNodes(w.right);
  }

  lemma {:induction false} RotInOrder<K>(a: Tree<K>, x: SNode<K>, b: Tree<K>, y: SNode<K>, d: Tree<K>)
    ensures InOrder(T(a, x, T(b, y, d))) == InOrder(T(T(a, x, b), y, d))
  {
    calc {
      InOrder(T(a, x, T(b, y, d)));
      InOrder(a) + [x] + (InOrder(b) + [y] + InOrder(d));
      (InOrder(a) + [x] + InOrder(b)) + [y] + InOrder(d);
      InOrder(T(T(a, x, b), y, d));
    }
  }

  lemma {:induction false} RotNodes<K>(a: Tree<K>, x: SNode<K>, b: Tree<K>, y: SNode<K>, d: Tree<K>)
    ensures Nodes(T(a, x, T(b, y, d))) == Nodes(T(T(a, x, b), y, d))
    ensures Distinct(T(a, x, T(b, y, d))) <==> Distinct(T(T(a, x, b), y, d))
  {
    assert Nodes(T(b, y, d)) == {y} + Nodes(b) + Nodes(d);
    assert Nodes(T(a, x, b)) == {x} + Nodes(a) + Nodes(b);
  }

  // ---------- steps towards the left ----------

  ghost function RotatedR<K>(t: Tree<K>): Tree<K>
    requires t.T? && t.l.T?
  {
    T(t.l.l, t.l.n, T(t.l.r, t.n, t.r))
  }

  /** The links that SPLAY_ROTATE_RIGHT writes. */
  ghost function TurnedR<K>(m: Links<K>, x: SNode<K>, y: SNode<K>): Links<K>
    requires x in m && y in m
  {
    m[x := m[x].(left := m[y].right)][y := m[y].(right := x)]
  }

  /** What SPLAY_ROTATE_RIGHT at the root does to the links. */
  lemma RotateRLinks<K>(w: Work<K>, root: SNode?<K>, m: Links<K>, m': Links<K>)
    requires Going(w, root, m) && w.t.T? && w.t.l.T?
    requires w.t.n in m && w.t.l.n in m
    requires m'.Keys == m.Keys && Same(m, m', {w.t.n, w.t.l.n})
    requires m'[w.t.n] == m[w.t.n].(left := Root(w.t.l.r)) && m'[w.t.l.n] == m[w.t.l.n].(right := w.t.n)
    ensures Going(w.(t := RotatedR(w.t)), w.t.l.n, m')
    ensures InOrder(RotatedR(w.t)) == InOrder(w.t)
  {
    var t, u := w.t, w.t.l;
    var touched := {t.n, u.n};
    assert Nodes(t) == {t.n} + Nodes(u) + Nodes(t.r) && Nodes(u) == {u.n} + Nodes(u.l) + Nodes(u.r) && Distinct(u);
    assert Rep(u, m) && Rep(t.r, m);
    RepFrame(u.l, m, m', touched);
    RepFrame(u.r, m, m', touched);
    RepFrame(t.r, m, m', touched);
    SpineLFrame(w.left, w.d, m, m', touched);
    SpineRFrame(w.right, w.d, m, m', touched);
    RotatedKeepsR(t);
    assert Rep(RotatedR(t).r, m');
    assert Rep(RotatedR(t), m');
  }

  lemma RotateRStep<K>(w: Work<K>, root: SNode?<K>, m: Links<K>, m': Links<K>)
    requires Going(w, root, m) && w.t.T? && w.t.l.T?
    requires w.t.n in m && w.t.l.n in m
    requires m' == TurnedR(m, w.t.n, w.t.l.n)
    ensures Going(w.(t := RotatedR(w.t)), w.t.l.n, m')
    ensures InOrder(RotatedR(w.t)) == InOrder(w.t)
  {
    ReadRoot(w, root, m);
    RotateRLinks(w, root, m, m');
  }

  lemma {:induction false} RotatedKeepsR<K>(t: Tree<K>)
    requires t.T? && t.l.T?
    ensures InOrder(RotatedR(t)) == InOrder(t)
    ensures Nodes(RotatedR(t)) == Nodes(t) && (Distinct(t) ==> Distinct(RotatedR(t)))
  {
    RotInOrder(t.l.l, t.l.n, t.l.r, t.n, t.r);
    RotNodes(t.l.l, t.l.n, t.l.r, t.n, t.r);
  }

  /** SPLAY_LINKLEFT: the root and its right subtree go to the right spine. */
  lemma LinkLLinks<K>(w: Work<K>, root: SNode?<K>, m: Links<K>, m': Links<K>)
    requires Going(w, root, m) && w.t.T?
    requires Last(w.right, w.d) in m && w.t.n in m
    requires m'.Keys == m.Keys && Same(m, m', {Last(w.right, w.d)})
    requires m'[Last(w.right, w.d)] == m[Last(w.right, w.d)].(left := w.t.n)
    ensures Going(LinkedL(w), Root(w.t.l), m')
    ensures All(LinkedL(w)) == All(w)
  {
    var t, w', x := w.t, LinkedL(w), Last(w.right, w.d);
    assert Nodes(t) == {t.n} + Nodes(t.l) + Nodes(t.r) && Rep(t.l, m) && Rep(t.r, m);
    assert x != t.n && x !in Nodes(t) && x !in SpineNodes(w.left);
    RepFrame(t.l, m, m', {x});
    RepFrame(t.r, m, m', {x});
    SpineLFrame(w.left, w.d, m, m', {x});
    SpineRTip(w.right, w.d, m, m', {x});
    assert SpineR(w'.right, w.d, m');
    LinkLOrder(w);
  }

  lemma LinkLStep<K>(w: Work<K>, root: SNode?<K>, m: Links<K>, m': Links<K>)
    requires Going(w, root, m) && w.t.T?
    requires var x := Last(w.right, w.d); x in m && m' == m[x := m[x].(left := w.t.n)]
    ensures Going(LinkedL(w), Root(w.t.l), m')
    ensures All(LinkedL(w)) == All(w) && |InOrder(LinkedL(w).t)| < |InOrder(w.t)|
  {
    ReadRoot(w, root, m);
    LinkLLinks(w, root, m, m');
  }

  ghost function LinkedL<K>(w: Work<K>): Work<K>
    requires w.t.T?
  {
    w.(t := w.t.l, right := Snoc(w.right, w.t.n, w.t.r))
  }

  lemma LinkLOrder<K>(w: Work<K>)
    requires w.t.T?
    ensures All(LinkedL(w)) == All(w)
  {
    var a, l, n, r, b := SpineOrderL(w.left), InOrder(w.t.l), [w.t.n], InOrder(w.t.r), SpineOrderR(w.right);
    calc {
      All(w);
      a + (l + n + r) + b;
      a + l + (n + r + b);
      All(LinkedL(w));
    }
  }

  // ---------- steps towards the right ----------

  ghost function RotatedL<K>(t: Tree<K>): Tree<K>
    requires t.T? && t.r.T?
  {
    T(T(t.l, t.n, t.r.l), t.r.n, t.r.r)
  }

  /** The links that SPLAY_ROTATE_LEFT writes. */
  ghost function TurnedL<K>(m: Links<K>, x: SNode<K>, y: SNode<K>): Links<K>
    requires x in m && y in m
  {
    m[x := m[x].(right := m[y].left)][y := m[y].(left := x)]
  }

  /** What SPLAY_ROTATE_LEFT at the root does to the links. */
  lemma RotateLLinks<K>(w: Work<K>, root: SNode?<K>, m: Links<K>, m': Links<K>)
    requires Going(w, root, m) && w.t.T? && w.t.r.T?
    requires w.t.n in m && w.t.r.n in m
    requires m'.Keys == m.Keys && Same(m, m', {w.t.n, w.t.r.n})
    requires m'[w.t.n] == m[w.t.n].(right := Root(w.t.r.l)) && m'[w.t.r.n] == m[w.t.r.n].(left := w.t.n)
    ensures Going(w.(t := RotatedL(w.t)), w.t.r.n, m')
    ensures InOrder(RotatedL(w.t)) == InOrder(w.t)
  {
    var t, u := w.t, w.t.r;
    var touched := {t.n, u.n};
    assert Nodes(t) == {t.n} + Nodes(u) + Nodes(t.l) && Nodes(u) == {u.n} + Nodes(u.l) + Nodes(u.r) && Distinct(u);
    assert Rep(u, m) && Rep(t.l, m);
    RepFrame(u.l, m, m', touched);
    RepFrame(u.r, m, m', touched);
    RepFrame(t.l, m, m', touched);
    SpineLFrame(w.left, w.d, m, m', touched);
    SpineRFrame(w.right, w.d, m, m', touched);
    RotatedKeepsL(t);
    assert Rep(RotatedL(t).l, m');
    assert Rep(RotatedL(t), m');
  }

  lemma RotateLStep<K>(w: Work<K>, root: SNode?<K>, m: Links<K>, m': Links<K>)
    requires Going(w, root, m) && w.t.T? && w.t.r.T?
    requires w.t.n in m && w.t.r.n in m
    requires m' == TurnedL(m, w.t.n, w.t.r.n)
    ensures Going(w.(t := RotatedL(w.t)), w.t.r.n, m')
    ensures InOrder(RotatedL(w.t)) == InOrder(w.t)
  {
    ReadRoot(w, root, m);
    RotateLLinks(w, root, m, m');
  }

  lemma {:induction false} RotatedKeepsL<K>(t: Tree<K>)
    requires t.T? && t.r.T?
    ensures InOrder(RotatedL(t)) == InOrder(t)
    ensures Nodes(RotatedL(t)) == Nodes(t) && (Distinct(t) ==> Distinct(RotatedL(t)))
  {
    RotInOrder(t.l, t.n, t.r.l, t.r.n, t.r.r);
    RotNodes(t.l, t.n, t.r.l, t.r.n, t.r.r);
  }

  /** SPLAY_LINKRIGHT: the root and its left subtree go to the left spine. */
  lemma LinkRLinks<K>(w: Work<K>, root: SNode?<K>, m: Links<K>, m': Links<K>)
    requires Going(w, root, m) && w.t.T?
    requires Last(w.left, w.d) in m && w.t.n in m
    requires m'.Keys == m.Keys && Same(m, m', {Last(w.left, w.d)})
    requires m'[Last(w.left, w.d)] == m[Last(w.left, w.d)].(right := w.t.n)
    ensures Going(LinkedR(w), Root(w.t.r), m')
    ensures All(LinkedR(w)) == All(w)
  {
    var t, w', x := w.t, LinkedR(w), Last(w.left, w.d);
    assert Nodes(t) == {t.n} + Nodes(t.l) + Nodes(t.r) && Rep(t.l, m) && Rep(t.r, m);
    assert x != t.n && x !in Nodes(t) && x !in SpineNodes(w.right);
    RepFrame(t.l, m, m', {x});
    RepFrame(t.r, m, m', {x});
    SpineRFrame(w.right, w.d, m, m', {x});
    SpineLTip(w.left, w.d, m, m', {x});
    assert SpineL(w'.left, w.d, m');
    LinkROrder(w);
  }

  lemma LinkRStep<K>(w: Work<K>, root: SNode?<K>, m: Links<K>, m': Links<K>)
    requires Going(w, root, m) && w.t.T?
    requires var x := Last(w.left, w.d); x in m && m' == m[x := m[x].(right := w.t.n)]
    ensures Going(LinkedR(w), Root(w.t.r), m')
    ensures All(LinkedR(w)) == All(w) && |InOrder(LinkedR(w).t)| < |InOrder(w.t)|
  {
    ReadRoot(w, root, m);
    LinkRLinks(w, root, m, m');
  }

  ghost function LinkedR<K>(w: Work<K>): Work<K>
    requires w.t.T?
  {
    w.(t := w.t.r, left := Snoc(w.left, w.t.n, w.t.l))
  }

  lemma LinkROrder<K>(w: Work<K>)
    requires w.t.T?
    ensures All(LinkedR(w)) == All(w)
  {
    var a, l, n, r, b := SpineOrderL(w.left), InOrder(w.t.l), [w.t.n], InOrder(w.t.r), SpineOrderR(w.right);
    calc {
      All(w);
      a + (l + n + r) + b;
      (a + l + n) + r + b;
      All(LinkedR(w));
    }
  }

  // ---------- the end ----------

  /** SPLAY_ASSEMBLE: the spines become the subtrees of the root. */
  ghost function Assembled<K>(w: Work<K>): Tree<K>
    requires w.t.T?
  {
    T(CloseL(w.left, w.t.l), w.t.n, CloseR(w.right, w.t.r))
  }

  lemma {:induction false} CloseOrderL<K>(sp: Spine<K>, inner: Tree<K>)
    ensures InOrder(CloseL(sp, inner)) == SpineOrderL(sp) + InOrder(inner)
    decreases sp
  {
    if sp.Snoc? { CloseOrderL(sp.up, T(sp.sub, sp.n, inner)); }
  }

  lemma {:induction false} CloseOrderR<K>(sp: Spine<K>, inner: Tree<K>)
    ensures InOrder(CloseR(sp, inner)) == InOrder(inner) + SpineOrderR(sp)
    decreases sp
  {
    if sp.Snoc? { CloseOrderR(sp.up, T(inner, sp.n, sp.sub)); }
  }

  lemma Regroup<X>(a: seq<X>, l: seq<X>, n: seq<X>, r: seq<X>, b: seq<X>)
    ensures (a + l) + n + (r + b) == a + (l + n + r) + b
  {
  }

  lemma AssembleOrder<K>(w: Work<K>)
    requires w.t.T?
    ensures InOrder(Assembled(w)) == All(w)
  {
    var a, l, n, r, b := SpineOrderL(w.left), InOrder(w.t.l), [w.t.n], InOrder(w.t.r), SpineOrderR(w.right);
    CloseOrderL(w.left, w.t.l);
    CloseOrderR(w.right, w.t.r);
    calc {
      InOrder(Assembled(w));
      (a + l) + n + (r + b);
      { Regroup(a, l, n, r, b); }
      a + (l + n + r) + b;
      All(w);
    }
  }

  /** Hanging the root's subtrees below the ends of the spines. */
  lemma AssembleSpines<K>(w: Work<K>, root: SNode?<K>, m: Links<K>, m': Links<K>)
    requires Going(w, root, m) && w.t.T?
    requires Last(w.left, w.d) in m && Last(w.right, w.d) in m
    requires m'.Keys == m.Keys
    requires Same(m, m', {Last(w.left, w.d), Last(w.right, w.d)})
    requires m'[Last(w.left, w.d)].right == Root(w.t.l)
    requires Last(w.left, w.d) != Last(w.right, w.d) ==> m'[Last(w.left, w.d)].left == m[Last(w.left, w.d)].left
    requires m'[Last(w.right, w.d)].left == Root(w.t.r)
    requires Last(w.left, w.d) != Last(w.right, w.d) ==> m'[Last(w.right, w.d)].right == m[Last(w.right, w.d)].right
    ensures Rep(CloseL(w.left, w.t.l), m') && Distinct(CloseL(w.left, w.t.l))
    ensures Nodes(CloseL(w.left, w.t.l)) == Nodes(w.t.l) + SpineNodes(w.left)
    ensures Rep(CloseR(w.right, w.t.r), m') && Distinct(CloseR(w.right, w.t.r))
    ensures Nodes(CloseR(w.right, w.t.r)) == Nodes(w.t.r) + SpineNodes(w.right)
    ensures w.d in m' && m'[w.d] == Cell(Root(CloseR(w.right, w.t.r)), Root(CloseL(w.left, w.t.l)))
  {
    assert Nodes(w.t) == {w.t.n} + Nodes(w.t.l) + Nodes(w.t.r);
    var touched := {Last(w.left, w.d), Last(w.right, w.d)};
    assert Rep(w.t.l, m) && Rep(w.t.r, m);
    assert Nodes(w.t) !! touched;
    RepFrame(w.t.l, m, m', touched);
    RepFrame(w.t.r, m, m', touched);
    SpineLTip(w.left, w.d, m, m', touched);
    SpineRTip(w.right, w.d, m, m', touched);
    CloseLRep(w.left, w.t.l, w.d, m');
    CloseRRep(w.right, w.t.r, w.d, m');
  }

  lemma AssembleStep<K>(w: Work<K>, root: SNode?<K>, m: Links<K>, m1: Links<K>, m': Links<K>)
    requires Going(w, root, m) && w.t.T?
    requires Rep(CloseL(w.left, w.t.l), m1) && Distinct(CloseL(w.left, w.t.l))
    requires Nodes(CloseL(w.left, w.t.l)) == Nodes(w.t.l) + SpineNodes(w.left)
    requires Rep(CloseR(w.right, w.t.r), m1) && Distinct(CloseR(w.right, w.t.r))
    requires Nodes(CloseR(w.right, w.t.r)) == Nodes(w.t.r) + SpineNodes(w.right)
    requires m'.Keys == m.Keys - {w.d} && w.t.n in m'
    requires m'[w.t.n] == Cell(Root(CloseL(w.left, w.t.l)), Root(CloseR(w.right, w.t.r)))
    requires Same(m1, m', {w.d, w.t.n})
    ensures Linked(Assembled(w), root, m')
  {
    assert Nodes(w.t) == {w.t.n} + Nodes(w.t.l) + Nodes(w.t.r);
    var a, b := CloseL(w.left, w.t.l), CloseR(w.right, w.t.r);
    RepFrame(a, m1, m', {w.d, w.t.n});
    RepFrame(b, m1, m', {w.d, w.t.n});
    assert Nodes(Assembled(w)) == {w.t.n} + Nodes(a) + Nodes(b);
  }
}
