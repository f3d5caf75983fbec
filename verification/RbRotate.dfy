/** Rotations: RB_ROTATE_LEFT and RB_ROTATE_RIGHT, as a step on trees and as a step on links. */
module RbRotate {
  import opened RbShape

  ghost function RotL<K>(t: Tree<K>): Tree<K>
    requires t.T? && t.r.T?
  {
    T(T(t.l, t.n, t.c, t.r.l), t.r.n, t.r.c, t.r.r)
  }

  ghost function RotR<K>(t: Tree<K>): Tree<K>
    requires t.T? && t.l.T?
  {
    T(t.l.l, t.l.n, t.l.c, T(t.l.r, t.n, t.c, t.r))
  }

  /** A rotation keeps the in-order sequence and is undone by the opposite one. */
  lemma RotLKeeps<K>(t: Tree<K>)
    requires t.T? && t.r.T?
    ensures InOrder(RotL(t)) == InOrder(t)
    ensures RotR(RotL(t)) == t
  {
    RotInOrder(t.l, t.n, t.c, t.r.l, t.r.n, t.r.c, t.r.r);
  }

  lemma RotRKeeps<K>(t: Tree<K>)
    requires t.T? && t.l.T?
    ensures InOrder(RotR(t)) == InOrder(t)
    ensures RotL(RotR(t)) == t
  {
    RotInOrder(t.l.l, t.l.n, t.l.c, t.l.r, t.n, t.c, t.r);
  }

  lemma {:induction false} RotInOrder<K>(a: Tree<K>, x: Node<K>, cx: Color, b: Tree<K>, y: Node<K>, cy: Color,
                                         d: Tree<K>)
    ensures InOrder(T(a, x, cx, T(b, y, cy, d))) == InOrder(T(T(a, x, cx, b), y, cy, d))
  {
    calc {
      InOrder(T(a, x, cx, T(b, y, cy, d)));
      InOrder(a) + [x] + (InOrder(b) + [y] + InOrder(d));
      (InOrder(a) + [x] + InOrder(b)) + [y] + InOrder(d);
      InOrder(T(T(a, x, cx, b), y, cy, d));
    }
  }

  lemma {:induction false} RotNodes<K>(a: Tree<K>, x: Node<K>, cx: Color, b: Tree<K>, y: Node<K>, cy: Color, d: Tree<K>)
    ensures Nodes(T(a, x, cx, T(b, y, cy, d))) == Nodes(T(T(a, x, cx, b), y, cy, d))
    ensures Distinct(T(a, x, cx, T(b, y, cy, d))) <==> Distinct(T(T(a, x, cx, b), y, cy, d))
  {
    assert Nodes(T(b, y, cy, d)) == {y} + Nodes(b) + Nodes(d);
    assert Nodes(T(a, x, cx, b)) == {x} + Nodes(a) + Nodes(b);
  }

  ghost function Opt<K>(n: Node?<K>): set<Node<K>> {
    if n == null then {} else {n}
  }

  /** The nodes of a subtree `b` of a child `u` of `t`, taken apart. */
  lemma PairNodes<K>(t: Tree<K>, u: Tree<K>, b: Tree<K>)
    requires t.T? && u.T? && (u == t.l || u == t.r) && (b == u.l || b == u.r) && Distinct(t)
    ensures Distinct(u) && Distinct(b)
    ensures Nodes(t) == {t.n} + Nodes(t.l) + Nodes(t.r) && Nodes(u) == {u.n} + Nodes(u.l) + Nodes(u.r)
    ensures b.T? ==> Nodes(b) == {b.n} + Nodes(b.l) + Nodes(b.r) && b.n !in Nodes(b.l) && b.n !in Nodes(b.r)
  {
  }

  /** The nodes whose links a left rotation at `x` touches exist and are different ones. */
  ghost predicate CanRotL<K>(x: Node<K>, m: Links<K>) {
    x in m && m[x].right != null &&
    var y, p := m[x].right, m[x].parent;
    y in m && x != y &&
    (p != null ==> p in m && p != x && p != y && (m[p].left == x || m[p].right == x)) &&
    var b := m[y].left;
    b != null ==> b in m && b != x && b != y && b != p
  }

  /** What a left rotation at `x` does to the links. */
  ghost predicate RotatedL<K>(x: Node<K>, root: Node?<K>, m: Links<K>, root': Node?<K>, m': Links<K>)
    requires CanRotL(x, m)
  {
    var y, p := m[x].right, m[x].parent;
    var b := m[y].left;
    m'.Keys == m.Keys &&
    root' == (if p == null then y else root) &&
    m'[x] == m[x].(right := b, parent := y) &&
    m'[y] == m[y].(left := x, parent := p) &&
    (b != null ==> m'[b] == m[b].(parent := x)) &&
    (p != null ==> m'[p] == if m[p].left == x then m[p].(left := y) else m[p].(right := y)) &&
    Same(m, m', {x, y} + Opt(b) + Opt(p))
  }

  lemma ZipCanRotL<K>(c: Ctx<K>, t: Tree<K>, root: Node?<K>, m: Links<K>)
    requires t.T? && t.r.T? && Zip(c, t, root, m)
    ensures CanRotL(t.n, m) && m[t.n].right == t.r.n
  {
    PairNodes(t, t.r, t.r.l);
    assert Rep(t.r, t.n, m) && Rep(t.r.l, t.r.n, m);
  }

  lemma RotLSubtree<K>(c: Ctx<K>, t: Tree<K>, root: Node?<K>, m: Links<K>, root': Node?<K>, m': Links<K>)
    requires t.T? && t.r.T? && Zip(c, t, root, m)
    requires CanRotL(t.n, m) && RotatedL(t.n, root, m, root', m')
    ensures Rep(RotL(t), Above(c), m')
  {
    var u, b := t.r, t.r.l;
    var touched := {t.n, u.n} + Opt(Root(b)) + Opt(Above(c));
    PairNodes(t, u, b);
    assert Rep(u, t.n, m);
    RepFrame(t.l, t.n, m, m', touched);
    RepFrame(u.r, u.n, m, m', touched);
    RepReparent(b, u.n, t.n, m, m', touched);
    assert Rep(RotL(t).l, u.n, m');
  }

  /** On the links of a tree the link step is the tree step. */
  lemma RotLLinks<K>(c: Ctx<K>, t: Tree<K>, root: Node?<K>, m: Links<K>, root': Node?<K>, m': Links<K>)
    requires t.T? && t.r.T? && Zip(c, t, root, m)
    requires CanRotL(t.n, m) && RotatedL(t.n, root, m, root', m')
    ensures Zip(c, RotL(t), root', m')
  {
    var touched := {t.n, t.r.n} + Opt(Root(t.r.l)) + Opt(Above(c));
    RotLSubtree(c, t, root, m, root', m');
    RotNodes(t.l, t.n, t.c, t.r.l, t.r.n, t.r.c, t.r.r);
    assert touched - Opt(Above(c)) <= Nodes(t) by { PairNodes(t, t.r, t.r.l); }
    assert Rep(t.r, t.n, m);
    RepCtxRehang(c, root, t.n, root', t.r.n, m, m', touched);
  }

  /** The nodes whose links a right rotation at `x` touches exist and are different ones. */
  ghost predicate CanRotR<K>(x: Node<K>, m: Links<K>) {
    x in m && m[x].left != null &&
    var y, p := m[x].left, m[x].parent;
    y in m && x != y &&
    (p != null ==> p in m && p != x && p != y && (m[p].left == x || m[p].right == x)) &&
    var b := m[y].right;
    b != null ==> b in m && b != x && b != y && b != p
  }

  /** What a right rotation at `x` does to the links. */
  ghost predicate RotatedR<K>(x: Node<K>, root: Node?<K>, m: Links<K>, root': Node?<K>, m': Links<K>)
    requires CanRotR(x, m)
  {
    var y, p := m[x].left, m[x].parent;
    var b := m[y].right;
    m'.Keys == m.Keys &&
    root' == (if p == null then y else root) &&
    m'[x] == m[x].(left := b, parent := y) &&
    m'[y] == m[y].(right := x, parent := p) &&
    (b != null ==> m'[b] == m[b].(parent := x)) &&
    (p != null ==> m'[p] == if m[p].left == x then m[p].(left := y) else m[p].(right := y)) &&
    Same(m, m', {x, y} + Opt(b) + Opt(p))
  }

  lemma ZipCanRotR<K>(c: Ctx<K>, t: Tree<K>, root: Node?<K>, m: Links<K>)
    requires t.T? && t.l.T? && Zip(c, t, root, m)
    ensures CanRotR(t.n, m) && m[t.n].left == t.l.n
  {
    PairNodes(t, t.l, t.l.r);
    assert Rep(t.l, t.n, m) && Rep(t.l.r, t.l.n, m);
  }

  lemma RotRSubtree<K>(c: Ctx<K>, t: Tree<K>, root: Node?<K>, m: Links<K>, root': Node?<K>, m': Links<K>)
    requires t.T? && t.l.T? && Zip(c, t, root, m)
    requires CanRotR(t.n, m) && RotatedR(t.n, root, m, root', m')
    ensures Rep(RotR(t), Above(c), m')
  {
    var u, b := t.l, t.l.r;
    var touched := {t.n, u.n} + Opt(Root(b)) + Opt(Above(c));
    PairNodes(t, u, b);
    assert Rep(u, t.n, m);
    RepFrame(t.r, t.n, m, m', touched);
    RepFrame(u.l, u.n, m, m', touched);
    RepReparent(b, u.n, t.n, m, m', touched);
    assert Rep(RotR(t).r, u.n, m');
  }

  /** On the links of a tree the link step is the tree step. */
  lemma RotRLinks<K>(c: Ctx<K>, t: Tree<K>, root: Node?<K>, m: Links<K>, root': Node?<K>, m': Links<K>)
    requires t.T? && t.l.T? && Zip(c, t, root, m)
    requires CanRotR(t.n, m) && RotatedR(t.n, root, m, root', m')
    ensures Zip(c, RotR(t), root', m')
  {
    var touched := {t.n, t.l.n} + Opt(Root(t.l.r)) + Opt(Above(c));
    RotRSubtree(c, t, root, m, root', m');
    RotNodes(t.l.l, t.l.n, t.l.c, t.l.r, t.n, t.c, t.r);
    assert touched - Opt(Above(c)) <= Nodes(t) by { PairNodes(t, t.l, t.l.r); }
    assert Rep(t.l, t.n, m);
    RepCtxRehang(c, root, t.n, root', t.l.n, m, m', touched);
  }

}
