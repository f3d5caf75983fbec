/** Repair steps of the red-black tree on zippers: moving the focus, repainting, and what each repair
    case of RB_INSERT_COLOR and RB_REMOVE_COLOR does to the colour rules. */
module RbFix {
  import opened RbShape
  import opened RbRotate

  /** The subtree one level further up. */
  ghost function Up<K>(c: Ctx<K>, t: Tree<K>): Tree<K>
    requires !c.Top?
  {
    if c.InL? then T(t, c.n, c.c, c.sib) else T(c.sib, c.n, c.c, t)
  }

  lemma FocusUp<K>(c: Ctx<K>, t: Tree<K>, root: Node?<K>, m: Links<K>)
    requires !c.Top?
    ensures Zip(c, t, root, m) <==> Zip(c.up, Up(c, t), root, m)
    ensures Plug(c, t) == Plug(c.up, Up(c, t))
  {
    assert Nodes(Up(c, t)) == {c.n} + Nodes(c.sib) + Nodes(t);
  }

  /** The fields read at the node above the focus. */
  lemma ReadAbove<K>(c: Ctx<K>, t: Tree<K>, root: Node?<K>, m: Links<K>)
    requires !c.Top? && Zip(c, t, root, m)
    ensures c.n in m && m[c.n].parent == Above(c.up) && m[c.n].color == c.c
    ensures c.InL? ==> m[c.n].left == Root(t) && m[c.n].right == Root(c.sib)
    ensures c.InR? ==> m[c.n].right == Root(t) && m[c.n].left == Root(c.sib)
    ensures Root(t) == Root(c.sib) ==> t.E? && c.sib.E?
    ensures c.sib.T? ==> c.sib.n in m && m[c.sib.n].color == c.sib.c && m[c.sib.n].left == Root(c.sib.l)
                         && m[c.sib.n].right == Root(c.sib.r)
    ensures t.T? ==> t.n in m && m[t.n] == Cell(Root(t.l), Root(t.r), c.n, t.c)
    ensures c.up.Top? <==> root == c.n
  {
    assert t.T? && c.sib.T? ==> t.n in Nodes(t) && c.sib.n in CtxNodes(c);
    assert RepCtx(c.up, root, c.n, m);
    if !c.up.Top? {
      RootAbove(c.up, root, c.n, m);
    }
  }

  /** The root lies on the path. */
  lemma {:induction false} RootAbove<K>(c: Ctx<K>, root: Node?<K>, hole: Node?<K>, m: Links<K>)
    requires !c.Top? && RepCtx(c, root, hole, m)
    ensures root in CtxNodes(c)
    decreases c
  {
    if !c.up.Top? { RootAbove(c.up, root, c.n, m); }
  }

  /** The fields read at the focus. */
  lemma ReadFocus<K>(c: Ctx<K>, t: Tree<K>, root: Node?<K>, m: Links<K>)
    requires Zip(c, t, root, m)
    ensures t.T? ==> t.n in m && m[t.n].parent == Above(c) && m[t.n].color == t.c
    ensures c.Top? <==> root == Root(t)
  {
    if !c.Top? { RootAbove(c, root, Root(t), m); }
  }

  /** The fields read at the children of the sibling. */
  lemma ReadSibling<K>(c: Ctx<K>, t: Tree<K>, root: Node?<K>, m: Links<K>)
    requires !c.Top? && c.sib.T? && Zip(c, t, root, m)
    ensures c.sib.n in m && m[c.sib.n].left == Root(c.sib.l) && m[c.sib.n].right == Root(c.sib.r)
    ensures c.sib.l.T? ==> c.sib.l.n in m && m[c.sib.l.n].color == c.sib.l.c
    ensures c.sib.r.T? ==> c.sib.r.n in m && m[c.sib.r.n].color == c.sib.r.c
  {
    assert Rep(c.sib, c.n, m);
    assert Rep(c.sib.l, c.sib.n, m) && Rep(c.sib.r, c.sib.n, m);
  }

  lemma PlugInOrder<K>(c: Ctx<K>, t: Tree<K>, t': Tree<K>)
    requires InOrder(t) == InOrder(t')
    ensures InOrder(Plug(c, t)) == InOrder(Plug(c, t'))
  {
    InOrderPlug(c, t);
    InOrderPlug(c, t');
  }

  // ---------- painting ----------

  ghost function Paint<K>(m: Links<K>, n: Node<K>, col: Color): Links<K>
    requires n in m
  {
    m[n := m[n].(color := col)]
  }

  lemma Painted<K>(c: Ctx<K>, t: Tree<K>, root: Node?<K>, m: Links<K>, col: Color)
    requires t.T? && Zip(c, t, root, m)
    ensures Zip(c, t.(c := col), root, Paint(m, t.n, col))
    ensures InOrder(t.(c := col)) == InOrder(t)
  {
    var m' := Paint(m, t.n, col);
    RepFrame(t.l, t.n, m, m', {t.n});
    RepFrame(t.r, t.n, m, m', {t.n});
    RepCtxFrame(c, root, t.n, m, m', {t.n});
  }

  lemma PaintedL<K>(c: Ctx<K>, t: Tree<K>, root: Node?<K>, m: Links<K>, col: Color)
    requires t.T? && t.l.T? && Zip(c, t, root, m)
    ensures Zip(c, t.(l := t.l.(c := col)), root, Paint(m, t.l.n, col))
    ensures InOrder(t.(l := t.l.(c := col))) == InOrder(t)
  {
    var d := InL(c, t.n, t.c, t.r);
    FocusUp(d, t.l, root, m);
    Painted(d, t.l, root, m, col);
    FocusUp(d, t.l.(c := col), root, Paint(m, t.l.n, col));
  }

  lemma PaintedR<K>(c: Ctx<K>, t: Tree<K>, root: Node?<K>, m: Links<K>, col: Color)
    requires t.T? && t.r.T? && Zip(c, t, root, m)
    ensures Zip(c, t.(r := t.r.(c := col)), root, Paint(m, t.r.n, col))
    ensures InOrder(t.(r := t.r.(c := col))) == InOrder(t)
  {
    var d := InR(c, t.n, t.c, t.l);
    FocusUp(d, t.r, root, m);
    Painted(d, t.r, root, m, col);
    FocusUp(d, t.r.(c := col), root, Paint(m, t.r.n, col));
  }

  /** The repainting of a red uncle's case. */
  ghost function UncleTree<K>(g: Tree<K>): Tree<K>
    requires g.T? && g.l.T? && g.r.T?
  {
    T(g.l.(c := Black), g.n, Red, g.r.(c := Black))
  }

  lemma UncleLinks<K>(c: Ctx<K>, g: Tree<K>, root: Node?<K>, m: Links<K>)
    requires g.T? && g.l.T? && g.r.T? && Zip(c, g, root, m)
    ensures Zip(c, UncleTree(g), root, Paint(Paint(Paint(m, g.r.n, Black), g.l.n, Black), g.n, Red))
    ensures Zip(c, UncleTree(g), root, Paint(Paint(Paint(m, g.l.n, Black), g.r.n, Black), g.n, Red))
    ensures InOrder(Plug(c, UncleTree(g))) == InOrder(Plug(c, g))
  {
    PaintedR(c, g, root, m, Black);
    var g1 := g.(r := g.r.(c := Black));
    PaintedL(c, g1, root, Paint(m, g.r.n, Black), Black);
    var g2, m2 := T(g.l.(c := Black), g.n, g.c, g.r.(c := Black)), Paint(Paint(m, g.r.n, Black), g.l.n, Black);
    assert g2 == g1.(l := g1.l.(c := Black));
    Painted(c, g2, root, m2, Red);
    PlugInOrder(c, UncleTree(g), g);
    assert g.l.n != g.r.n by { assert g.l.n in Nodes(g.l) && g.r.n in Nodes(g.r); }
    assert m2 == Paint(Paint(m, g.l.n, Black), g.r.n, Black);
  }

  /** The repainting that precedes the last rotation of a repair. */
  ghost function OuterTreeL<K>(g: Tree<K>): Tree<K>
    requires g.T? && g.l.T?
  {
    T(g.l.(c := Black), g.n, Red, g.r)
  }

  ghost function OuterTreeR<K>(g: Tree<K>): Tree<K>
    requires g.T? && g.r.T?
  {
    T(g.l, g.n, Red, g.r.(c := Black))
  }

  lemma OuterLinksL<K>(c: Ctx<K>, g: Tree<K>, root: Node?<K>, m: Links<K>)
    requires g.T? && g.l.T? && Zip(c, g, root, m)
    ensures Zip(c, OuterTreeL(g), root, Paint(Paint(m, g.l.n, Black), g.n, Red))
    ensures InOrder(Plug(c, OuterTreeL(g))) == InOrder(Plug(c, g))
  {
    PaintedL(c, g, root, m, Black);
    Painted(c, g.(l := g.l.(c := Black)), root, Paint(m, g.l.n, Black), Red);
    PlugInOrder(c, OuterTreeL(g), g);
  }

  lemma OuterLinksR<K>(c: Ctx<K>, g: Tree<K>, root: Node?<K>, m: Links<K>)
    requires g.T? && g.r.T? && Zip(c, g, root, m)
    ensures Zip(c, OuterTreeR(g), root, Paint(Paint(m, g.r.n, Black), g.n, Red))
    ensures InOrder(Plug(c, OuterTreeR(g))) == InOrder(Plug(c, g))
  {
    PaintedR(c, g, root, m, Black);
    Painted(c, g.(r := g.r.(c := Black)), root, Paint(m, g.r.n, Black), Red);
    PlugInOrder(c, OuterTreeR(g), g);
  }

  /** The lower of the two red nodes after the inner rotation. */
  ghost function InnerTreeL<K>(c: Ctx<K>, t: Tree<K>): Tree<K>
    requires !c.Top? && t.T?
  {
    T(c.sib, c.n, Red, t.l)
  }

  ghost function InnerCtxL<K>(c: Ctx<K>, t: Tree<K>): Ctx<K>
    requires !c.Top? && t.T?
  {
    InL(c.up, t.n, Red, t.r)
  }

  ghost function InnerTreeR<K>(c: Ctx<K>, t: Tree<K>): Tree<K>
    requires !c.Top? && t.T?
  {
    T(t.r, c.n, Red, c.sib)
  }

  ghost function InnerCtxR<K>(c: Ctx<K>, t: Tree<K>): Ctx<K>
    requires !c.Top? && t.T?
  {
    InR(c.up, t.n, Red, t.l)
  }

  // ---------- insertion ----------

  /** RB_INSERT_COLOR's loop invariant: the only violation is the red root of `t` below `c`. */
  ghost predicate RedAt<K>(c: Ctx<K>, t: Tree<K>, h: nat) {
    CtxRB(c, h) && RB(t, h) && IsRed(t)
  }

  lemma UncleColors<K>(c: Ctx<K>, t: Tree<K>, h: nat)
    requires RedAt(c, t, h) && CtxIsRed(c) && IsRed(c.up.sib)
    ensures Up(c.up, Up(c, t)).l.T? && Up(c.up, Up(c, t)).r.T?
    ensures RedAt(c.up.up, UncleTree(Up(c.up, Up(c, t))), h + 1)
  {
    var g := Up(c.up, Up(c, t));
    assert CtxRB(c.up, h) && CtxRB(c.up.up, h + 1);
    assert RB(g.l.(c := Black), h + 1) && RB(g.r.(c := Black), h + 1);
  }

  /** A red uncle: parent and uncle turn black, the grandparent red, and the violation moves up two levels. */
  lemma UncleStep<K>(c: Ctx<K>, t: Tree<K>, h: nat, root: Node?<K>, m: Links<K>)
    requires RedAt(c, t, h) && CtxIsRed(c) && IsRed(c.up.sib) && Zip(c, t, root, m)
    ensures c.up.sib.n in m && c.n in m && c.up.n in m
    ensures var t' := UncleTree(Up(c.up, Up(c, t)));
            RedAt(c.up.up, t', h + 1) && InOrder(Plug(c.up.up, t')) == InOrder(Plug(c, t)) &&
            Zip(c.up.up, t', root, Paint(Paint(Paint(m, c.up.sib.n, Black), c.n, Black), c.up.n, Red))
  {
    var p := Up(c, t);
    var g := Up(c.up, p);
    ReadAbove(c, t, root, m);
    FocusUp(c, t, root, m);
    ReadAbove(c.up, p, root, m);
    FocusUp(c.up, p, root, m);
    UncleLinks(c.up.up, g, root, m);
    UncleColors(c, t, h);
  }

  /** No red uncle: after the parent turned black and the grandparent red, one rotation ends the repair. */
  lemma OuterStepL<K>(c: Ctx<K>, t: Tree<K>, h: nat, g: Tree<K>)
    requires RedAt(c, t, h) && CtxIsRed(c) && c.InL? && c.up.InL?
    requires g == Up(c.up, Up(c, t)) && !IsRed(c.up.sib)
    ensures var g' := OuterTreeL(g);
            var d := InL(c.up.up, c.n, Black, RotR(g').r);
            RedAt(d, t, h) && RotR(g') == Up(d, t)
  {
    assert CtxRB(c.up, h) && CtxRB(c.up.up, h + 1);
    assert RB(T(c.sib, g.n, Red, g.r), h);
  }

  lemma OuterStepR<K>(c: Ctx<K>, t: Tree<K>, h: nat, g: Tree<K>)
    requires RedAt(c, t, h) && CtxIsRed(c) && c.InR? && c.up.InR?
    requires g == Up(c.up, Up(c, t)) && !IsRed(c.up.sib)
    ensures var g' := OuterTreeR(g);
            var d := InR(c.up.up, c.n, Black, RotL(g').l);
            RedAt(d, t, h) && RotL(g') == Up(d, t)
  {
    assert CtxRB(c.up, h) && CtxRB(c.up.up, h + 1);
    assert RB(T(g.l, g.n, Red, c.sib), h);
  }

  /** An inner red node: rotating its parent away makes the old parent the outer red node. */
  lemma InnerStepL<K>(c: Ctx<K>, t: Tree<K>, h: nat, root: Node?<K>, m: Links<K>, root': Node?<K>, m': Links<K>)
    requires RedAt(c, t, h) && CtxIsRed(c) && c.InR? && Zip(c, t, root, m)
    requires CanRotL(c.n, m) && RotatedL(c.n, root, m, root', m')
    ensures RedAt(InnerCtxL(c, t), InnerTreeL(c, t), h)
    ensures Zip(InnerCtxL(c, t), InnerTreeL(c, t), root', m')
    ensures InOrder(Plug(InnerCtxL(c, t), InnerTreeL(c, t))) == InOrder(Plug(c, t))
  {
    var p, d, u := Up(c, t), InnerCtxL(c, t), InnerTreeL(c, t);
    FocusUp(c, t, root, m);
    RotLLinks(c.up, p, root, m, root', m');
    RotLKeeps(p);
    PlugInOrder(c.up, p, RotL(p));
    assert Up(d, u) == RotL(p);
    FocusUp(d, u, root', m');
  }

  lemma InnerStepR<K>(c: Ctx<K>, t: Tree<K>, h: nat, root: Node?<K>, m: Links<K>, root': Node?<K>, m': Links<K>)
    requires RedAt(c, t, h) && CtxIsRed(c) && c.InL? && Zip(c, t, root, m)
    requires CanRotR(c.n, m) && RotatedR(c.n, root, m, root', m')
    ensures RedAt(InnerCtxR(c, t), InnerTreeR(c, t), h)
    ensures Zip(InnerCtxR(c, t), InnerTreeR(c, t), root', m')
    ensures InOrder(Plug(InnerCtxR(c, t), InnerTreeR(c, t))) == InOrder(Plug(c, t))
  {
    var p, d, u := Up(c, t), InnerCtxR(c, t), InnerTreeR(c, t);
    FocusUp(c, t, root, m);
    RotRLinks(c.up, p, root, m, root', m');
    RotRKeeps(p);
    PlugInOrder(c.up, p, RotR(p));
    assert Up(d, u) == RotR(p);
    FocusUp(d, u, root', m');
  }

  /** Painting the root black ends the repair. */
  lemma RootBlack<K>(c: Ctx<K>, t: Tree<K>, h: nat)
    requires RedAt(c, t, h) && !CtxIsRed(c)
    ensures Plug(c, t).T? && RedBlack(Plug(c, t).(c := Black))
  {
    if c.Top? {
      RBHeight(t.(c := Black), h + 1);
    } else {
      RedBlackPlug(c, t, h);
      PlugNonEmpty(c, t);
    }
  }

  lemma {:induction false} PlugNonEmpty<K>(c: Ctx<K>, t: Tree<K>)
    requires !c.Top?
    ensures Plug(c, t).T?
    decreases c
  {
    if !c.up.Top? { PlugNonEmpty(c.up, Up(c, t)); }
  }
}
