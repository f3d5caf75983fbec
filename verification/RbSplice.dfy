/** Taking a node out: splicing out a node with at most one child, putting the successor in another
    node's place, and the path from a node down to its successor. */
module RbSplice {
  import opened RbShape
  import opened RbRotate
  import opened RbFix
  import opened RbShort

  /** `b` is the only subtree of `t` that may hold nodes. */
  ghost predicate OnlyChild<K>(t: Tree<K>, b: Tree<K>) {
    t.T? && ((t.l.E? && b == t.r) || (t.r.E? && b == t.l))
  }

  /** The links after the root of `t` made way for its only child `b`. */
  lemma SpliceLinks<K>(c: Ctx<K>, t: Tree<K>, b: Tree<K>, root: Node?<K>, m: Links<K>, root': Node?<K>, m': Links<K>)
    requires Zip(c, t, root, m) && OnlyChild(t, b)
    requires m'.Keys == m.Keys - {t.n}
    requires b.T? ==> b.n in m && b.n in m' && m'[b.n] == m[b.n].(parent := Above(c))
    requires !c.Top? ==> c.n in m && c.n in m' && m'[c.n] == Hang(c, m[c.n], Root(b))
    requires root' == if c.Top? then Root(b) else root
    requires Same(m, m', {t.n} + Opt(Root(b)) + Opt(Above(c)))
    ensures Zip(c, b, root', m')
  {
    var touched := {t.n} + Opt(Root(b)) + Opt(Above(c));
    assert Nodes(t) == {t.n} + Nodes(b) && t.n !in Nodes(b) && Distinct(b) && Rep(b, t.n, m);
    assert b.T? ==> Nodes(b) == {b.n} + Nodes(b.l) + Nodes(b.r) && b.n !in Nodes(b.l) && b.n !in Nodes(b.r);
    RepReparent(b, t.n, Above(c), m, m', touched);
    RepCtxRehang(c, root, t.n, root', Root(b), m, m', touched);
  }

  /** The nodes whose links change are there and different. */
  lemma ReadSplice<K>(c: Ctx<K>, t: Tree<K>, b: Tree<K>, root: Node?<K>, m: Links<K>)
    requires Zip(c, t, root, m) && OnlyChild(t, b)
    ensures t.n in m
    ensures b.T? ==> b.n in m && b.n != t.n && b.n != Above(c)
    ensures !c.Top? ==> c.n in m && c.n != t.n && (m[c.n].left == t.n <==> c.InL?)
  {
    assert b.T? ==> b.n in Nodes(b) && b.n in Nodes(t) && b.n != t.n;
    if !c.Top? { ReadAbove(c, t, root, m); }
  }

  /** The neighbours of `x` are there and different. */
  ghost predicate CanReplace<K>(x: Node<K>, m: Links<K>) {
    x in m &&
    var l, r, p := m[x].left, m[x].right, m[x].parent;
    (l != null ==> l in m && l != x && l != p) && (r != null ==> r in m && r != x && r != p && r != l) &&
    (p != null ==> p in m && p != x && (m[p].left == x || m[p].right == x))
  }

  lemma ReadReplace<K>(c: Ctx<K>, t: Tree<K>, root: Node?<K>, m: Links<K>)
    requires t.T? && Zip(c, t, root, m)
    ensures t.n in m && m[t.n] == Cell(Root(t.l), Root(t.r), Above(c), t.c)
    ensures CanReplace(t.n, m)
    ensures !c.Top? ==> c.n in m && (m[c.n].left == t.n <==> c.InL?)
  {
    assert t.l.T? ==> t.l.n in Nodes(t.l);
    assert t.r.T? ==> t.r.n in Nodes(t.r);
    if !c.Top? { ReadAbove(c, t, root, m); }
  }

  /** What putting `y` in the place of `x` does to the links. */
  ghost predicate Replaced<K>(x: Node<K>, y: Node<K>, root: Node?<K>, m: Links<K>, root': Node?<K>, m': Links<K>)
    requires x in m
  {
    var l, r, p := m[x].left, m[x].right, m[x].parent;
    m'.Keys == m.Keys - {x} + {y} && m'[y] == m[x] &&
    (l != null ==> l in m && l in m' && m'[l] == m[l].(parent := y)) &&
    (r != null ==> r in m && r in m' && m'[r] == m[r].(parent := y)) &&
    (p != null ==> p in m && p in m' && m'[p] == if m[p].left == x then m[p].(left := y) else m[p].(right := y)) &&
    root' == (if p == null then y else root) &&
    Same(m, m', {x} + Opt(l) + Opt(r) + Opt(p))
  }

  lemma RootApart<K>(t: Tree<K>)
    requires Distinct(t)
    ensures t.T? ==> Nodes(t) == {t.n} + Nodes(t.l) + Nodes(t.r) && t.n !in Nodes(t.l) && t.n !in Nodes(t.r)
  {
  }

  lemma ReplaceNodes<K>(t: Tree<K>, y: Node<K>)
    requires t.T? && Distinct(t) && y !in Nodes(t)
    ensures Nodes(t.(n := y)) == Nodes(t) - {t.n} + {y} && Distinct(t.(n := y))
  {
    RootApart(t);
    assert Nodes(t.(n := y)) == {y} + Nodes(t.l) + Nodes(t.r);
  }

  lemma ReplaceSubtree<K>(c: Ctx<K>, t: Tree<K>, y: Node<K>, root: Node?<K>, m: Links<K>, root': Node?<K>, m': Links<K>)
    requires t.T? && Zip(c, t, root, m) && y !in m && t.n in m
    requires Replaced(t.n, y, root, m, root', m')
    ensures Rep(t.(n := y), Above(c), m')
    ensures Nodes(t.(n := y)) == Nodes(t) - {t.n} + {y} && Distinct(t.(n := y))
  {
    var touched := {t.n} + Opt(Root(t.l)) + Opt(Root(t.r)) + Opt(Above(c));
    var l, r := t.l, t.r;
    RootApart(t);
    RootApart(l);
    RootApart(r);
    RepReparent(l, t.n, y, m, m', touched);
    RepReparent(r, t.n, y, m, m', touched);
    ReplaceNodes(t, y);
  }

  /** The links after `y` took the place of the root of `t`. */
  lemma ReplaceLinks<K>(c: Ctx<K>, t: Tree<K>, y: Node<K>, root: Node?<K>, m: Links<K>, root': Node?<K>, m': Links<K>)
    requires t.T? && Zip(c, t, root, m) && y !in m && t.n in m
    requires Replaced(t.n, y, root, m, root', m')
    ensures Zip(c, t.(n := y), root', m')
  {
    ReplaceSubtree(c, t, y, root, m, root', m');
    ReadReplace(c, t, root, m);
    assert Opt(Root(t.l)) + Opt(Root(t.r)) <= Nodes(t);
    RepCtxRehang(c, root, t.n, root', y, m, m', {t.n} + Opt(Root(t.l)) + Opt(Root(t.r)) + Opt(Above(c)));
  }

  /** The subtree that a stored node is the root of. */
  lemma FindFocus<K>(t: Tree<K>, n: Node<K>) returns (c: Ctx<K>, u: Tree<K>)
    requires n in Nodes(t)
    ensures Plug(c, u) == t && Root(u) == n
  {
    c, u := FindBelow(Top, t, n);
  }

  lemma {:induction false} FindBelow<K>(c0: Ctx<K>, t: Tree<K>, n: Node<K>) returns (c: Ctx<K>, u: Tree<K>)
    requires n in Nodes(t)
    ensures Plug(c, u) == Plug(c0, t) && Root(u) == n
    decreases t
  {
    if n == t.n {
      c, u := c0, t;
    } else if n in Nodes(t.l) {
      c, u := FindBelow(InL(c0, t.n, t.c, t.r), t.l, n);
    } else {
      c, u := FindBelow(InR(c0, t.n, t.c, t.l), t.r, n);
    }
  }

  // ---------- the path to the successor ----------

  /** The path `p` continued upwards by `b`. */
  ghost function Graft<K>(p: Ctx<K>, b: Ctx<K>): Ctx<K> {
    match p
    case Top => b
    case InL(up, n, col, s) => InL(Graft(up, b), n, col, s)
    case InR(up, n, col, s) => InR(Graft(up, b), n, col, s)
  }

  lemma {:induction false} GraftDepth<K>(p: Ctx<K>, b: Ctx<K>)
    ensures Depth(Graft(p, b)) == Depth(p) + Depth(b)
  {
    if !p.Top? { GraftDepth(p.up, b); }
  }

  lemma {:induction false} GraftPlug<K>(p: Ctx<K>, b: Ctx<K>, t: Tree<K>)
    ensures Plug(Graft(p, b), t) == Plug(b, Plug(p, t))
    decreases p
  {
    match p
    case Top =>
    case InL(up, n, col, r) => GraftPlug(up, b, T(t, n, col, r));
    case InR(up, n, col, l) => GraftPlug(up, b, T(l, n, col, t));
  }

  lemma GraftZip<K>(p: Ctx<K>, b: Ctx<K>, t: Tree<K>, root: Node?<K>, m: Links<K>)
    ensures Zip(Graft(p, b), t, root, m) <==> Zip(b, Plug(p, t), root, m)
  {
    GraftPlug(p, b, t);
    ZipUp(Graft(p, b), t, root, m);
    ZipUp(b, Plug(p, t), root, m);
  }

  /** A tree seen from deep in the right subtree of `n`, and from `n`. */
  lemma GraftFocus<K>(p: Ctx<K>, c: Ctx<K>, l: Tree<K>, n: Node<K>, col: Color, r: Tree<K>, root: Node?<K>, m: Links<K>)
    ensures Zip(Graft(p, InR(c, n, col, l)), r, root, m) <==> Zip(c, T(l, n, col, Plug(p, r)), root, m)
  {
    GraftZip(p, InR(c, n, col, l), r, root, m);
    FocusUp(InR(c, n, col, l), Plug(p, r), root, m);
  }

  /** The colour rules of a path do not depend on which node lies on it. */
  lemma {:induction false} GraftCtxRB<K>(p: Ctx<K>, c: Ctx<K>, x: Node<K>, y: Node<K>, col: Color, l: Tree<K>, h: nat)
    requires CtxRB(Graft(p, InR(c, x, col, l)), h)
    ensures CtxRB(Graft(p, InR(c, y, col, l)), h)
    decreases p
  {
    if !p.Top? {
      GraftCtxRB(p.up, c, x, y, col, l, if p.c.Red? then h else h + 1);
    }
  }

  lemma {:induction false} GraftAbove<K>(p: Ctx<K>, c: Ctx<K>, x: Node<K>, col: Color, l: Tree<K>)
    requires DistinctCtx(Graft(p, InR(c, x, col, l)))
    ensures x in CtxNodes(Graft(p, InR(c, x, col, l)))
    ensures Above(Graft(p, InR(c, x, col, l))) == x <==> p.Top?
    decreases p
  {
    if !p.Top? { GraftAbove(p.up, c, x, col, l); }
  }

  /** All steps of the path go left. */
  ghost predicate LeftSpine<K>(p: Ctx<K>) {
    p.Top? || (p.InL? && LeftSpine(p.up))
  }

  lemma {:induction false} LeftSpineBefore<K>(p: Ctx<K>)
    requires LeftSpine(p)
    ensures Before(p) == []
    decreases p
  {
    if !p.Top? { LeftSpineBefore(p.up); }
  }

  /** The in-order sequence around one node. */
  lemma OrderAt<K>(c: Ctx<K>, l: Tree<K>, n: Node<K>, col: Color, r: Tree<K>)
    ensures InOrder(Plug(c, T(l, n, col, r))) == (Before(c) + InOrder(l)) + [n] + (InOrder(r) + After(c))
  {
    InOrderPlug(c, T(l, n, col, r));
    Reassociate(Before(c), InOrder(l), [n], InOrder(r), After(c));
  }

  lemma Reassociate<X>(a: seq<X>, l: seq<X>, x: seq<X>, r: seq<X>, w: seq<X>)
    ensures a + (l + x + r) + w == (a + l) + x + (r + w)
  {
  }

  /** What the right subtree lists, with and without its first node. */
  lemma Lead<X>(y: seq<X>, r: seq<X>, w: seq<X>)
    ensures [] + ([] + y + r) + w == y + ([] + r + w)
  {
  }

  lemma SpineOrder<K>(p: Ctx<K>, u: Tree<K>)
    requires u.T? && u.l.E? && LeftSpine(p)
    ensures InOrder(Plug(p, u)) == [u.n] + InOrder(Plug(p, u.r))
  {
    var y, r, w := [u.n], InOrder(u.r), After(p);
    LeftSpineBefore(p);
    InOrderPlug(p, u);
    InOrderPlug(p, u.r);
    calc {
      InOrder(Plug(p, u));
      [] + ([] + y + r) + w;
      { Lead(y, r, w); }
      y + ([] + r + w);
      y + InOrder(Plug(p, u.r));
    }
  }

  /** Putting the successor in a node's place and splicing it out of its own removes just the node. */
  lemma SuccessorOrder<K>(c: Ctx<K>, l: Tree<K>, n: Node<K>, col: Color, p: Ctx<K>, u: Tree<K>)
    requires u.T? && u.l.E? && LeftSpine(p)
    ensures var a, b := Before(c) + InOrder(l), InOrder(Plug(p, u)) + After(c);
            InOrder(Plug(c, T(l, n, col, Plug(p, u)))) == a + [n] + b &&
            InOrder(Plug(c, T(l, u.n, col, Plug(p, u.r)))) == a + b
  {
    var y, r := u.n, Plug(p, u.r);
    SpineOrder(p, u);
    OrderAt(c, l, n, col, Plug(p, u));
    OrderAt(c, l, y, col, r);
    SeqShift(Before(c) + InOrder(l), [y], InOrder(r), After(c));
  }

  lemma SeqShift<X>(a: seq<X>, y: seq<X>, r: seq<X>, w: seq<X>)
    ensures a + y + (r + w) == a + ((y + r) + w)
  {
  }

  lemma OnlyOrder<K>(l: Tree<K>, n: Node<K>, col: Color, r: Tree<K>, b: Tree<K>)
    requires OnlyChild(T(l, n, col, r), b)
    ensures InOrder(b) == InOrder(l) + InOrder(r)
  {
  }

  lemma Gap<X>(a: seq<X>, l: seq<X>, r: seq<X>, w: seq<X>)
    ensures a + (l + r) + w == (a + l) + (r + w)
  {
  }

  /** Splicing out a node with at most one child removes just the node. */
  lemma SpliceOrder<K>(c: Ctx<K>, l: Tree<K>, n: Node<K>, col: Color, r: Tree<K>, b: Tree<K>)
    requires OnlyChild(T(l, n, col, r), b)
    ensures var a, d := Before(c) + InOrder(l), InOrder(r) + After(c);
            InOrder(Plug(c, T(l, n, col, r))) == a + [n] + d && InOrder(Plug(c, b)) == a + d
  {
    OrderAt(c, l, n, col, r);
    InOrderPlug(c, b);
    OnlyOrder(l, n, col, r, b);
    Gap(Before(c), InOrder(l), InOrder(r), After(c));
  }

  // ---------- what removing a node does to the colours ----------

  /** A spliced-out red node leaves the rules intact; a black one leaves its child short. */
  lemma SpliceColors<K>(c: Ctx<K>, t: Tree<K>, b: Tree<K>, h: nat)
    requires CtxRB(c, h) && RB(t, h) && (IsRed(t) ==> !c.Top? && !CtxIsRed(c)) && OnlyChild(t, b)
    ensures t.c.Red? ==> RedBlack(Plug(c, b))
    ensures t.c.Black? ==> h > 0 && Short(c, b, h - 1)
  {
    if t.c.Red? {
      RedBlackPlug(c, b, h);
    }
  }

  /** The same after the successor, the root of `u`, took the place of `x` further up. */
  lemma SuccessorColors<K>(p: Ctx<K>, c: Ctx<K>, x: Node<K>, col: Color, l: Tree<K>, u: Tree<K>)
    requires u.T? && u.l.E? && RedBlack(Plug(Graft(p, InR(c, x, col, l)), u))
    ensures var d := Graft(p, InR(c, u.n, col, l));
            (u.c.Red? ==> RedBlack(Plug(d, u.r))) &&
            (u.c.Black? ==> BlackHeight(u) > 0 && Short(d, u.r, BlackHeight(u) - 1))
  {
    RedBlackUnplug(Graft(p, InR(c, x, col, l)), u);
    GraftCtxRB(p, c, x, u.n, col, l, BlackHeight(u));
    SpliceColors(Graft(p, InR(c, u.n, col, l)), u, u.r, BlackHeight(u));
  }
}
