/** Repair steps of RB_REMOVE_COLOR: the subtree at the focus is short by one black node. */
module RbShort {
  import opened RbShape
  import opened RbRotate
  import opened RbFix

  /** RB_REMOVE_COLOR's loop invariant: `c` expects one more black node than `t` has; a red root of `t` may
      have red children, it is about to turn black. */
  ghost predicate Short<K>(c: Ctx<K>, t: Tree<K>, h: nat) {
    CtxRB(c, h + 1) && if IsRed(t) then RB(t.(c := Black), h + 1) else RB(t, h)
  }

  /** The repair ends: a red root turns black, or the whole tree is what was short. */
  lemma ShortEnds<K>(c: Ctx<K>, t: Tree<K>, h: nat)
    requires Short(c, t, h) && (c.Top? || IsRed(t))
    ensures t.E? ==> c.Top? && RedBlack(t)
    ensures t.T? ==> RedBlack(Plug(c, t.(c := Black)))
  {
    if t.E? {
    } else if c.Top? {
      RBHeight(t.(c := Black), if IsRed(t) then h + 1 else h);
    } else {
      RedBlackPlug(c, t.(c := Black), h + 1);
    }
  }

  lemma PlugRedBlack<K>(c: Ctx<K>, t: Tree<K>, h: nat)
    requires CtxRB(c, h) && RB(t, h) && (IsRed(t) ==> !c.Top? && !CtxIsRed(c))
    ensures Short(Top, Plug(c, t), BlackHeight(Plug(c, t)))
  {
    RedBlackPlug(c, t, h);
  }

  /** The same tree seen from the sibling. */
  lemma FocusSibling<K>(c: Ctx<K>, t: Tree<K>, root: Node?<K>, m: Links<K>)
    requires !c.Top?
    ensures c.InL? ==> (Zip(c, t, root, m) <==> Zip(InR(c.up, c.n, c.c, t), c.sib, root, m))
    ensures c.InR? ==> (Zip(c, t, root, m) <==> Zip(InL(c.up, c.n, c.c, t), c.sib, root, m))
  {
    FocusUp(c, t, root, m);
    if c.InL? {
      FocusUp(InR(c.up, c.n, c.c, t), c.sib, root, m);
    } else {
      FocusUp(InL(c.up, c.n, c.c, t), c.sib, root, m);
    }
  }

  /** A node that is short has a sibling. */
  lemma HasSibling<K>(c: Ctx<K>, t: Tree<K>, h: nat)
    requires Short(c, t, h) && !c.Top?
    ensures c.sib.T? && RB(c.sib, h + 1)
  {
  }

  // ---------- the focus is a left child ----------

  /** The path after the rotation that gives the focus a black sibling. */
  ghost function RedSiblingL<K>(c: Ctx<K>): Ctx<K>
    requires c.InL? && c.sib.T?
  {
    InL(InL(c.up, c.sib.n, Black, c.sib.r), c.n, Red, c.sib.l)
  }

  lemma RedSiblingPaintL<K>(c: Ctx<K>, t: Tree<K>, root: Node?<K>, m: Links<K>)
    requires c.InL? && c.sib.T? && Zip(c, t, root, m)
    ensures c.n in m && c.sib.n in m
    ensures Zip(c.up, OuterTreeR(Up(c, t)), root, Paint(Paint(m, c.sib.n, Black), c.n, Red))
    ensures InOrder(Plug(c.up, OuterTreeR(Up(c, t)))) == InOrder(Plug(c, t))
    ensures CanRotL(c.n, Paint(Paint(m, c.sib.n, Black), c.n, Red))
  {
    ReadAbove(c, t, root, m);
    FocusUp(c, t, root, m);
    OuterLinksR(c.up, Up(c, t), root, m);
    ZipCanRotL(c.up, OuterTreeR(Up(c, t)), root, Paint(Paint(m, c.sib.n, Black), c.n, Red));
  }

  lemma RedSiblingRotatedL<K>(c: Ctx<K>, t: Tree<K>, root: Node?<K>, m: Links<K>, root': Node?<K>, m': Links<K>)
    requires c.InL? && c.sib.T?
    requires Zip(c.up, OuterTreeR(Up(c, t)), root, m)
    requires CanRotL(c.n, m) && RotatedL(c.n, root, m, root', m')
    ensures Zip(RedSiblingL(c), t, root', m')
    ensures InOrder(Plug(RedSiblingL(c), t)) == InOrder(Plug(c.up, OuterTreeR(Up(c, t))))
  {
    var g, d := OuterTreeR(Up(c, t)), RedSiblingL(c);
    RotLLinks(c.up, g, root, m, root', m');
    RotLKeeps(g);
    PlugInOrder(c.up, g, RotL(g));
    FocusUp(d.up, Up(d, t), root', m');
    FocusUp(d, t, root', m');
  }

  lemma RedSiblingShortL<K>(c: Ctx<K>, t: Tree<K>, h: nat)
    requires Short(c, t, h) && c.InL? && IsRed(c.sib)
    ensures Short(RedSiblingL(c), t, h) && RedSiblingL(c).sib.T? && !IsRed(RedSiblingL(c).sib)
  {
    assert CtxRB(c.up, h + 2) && RB(c.sib.r, h + 1) && RB(c.sib.l, h + 1);
    assert CtxRB(RedSiblingL(c).up, h + 1);
  }

  /** Both children of the sibling are black: it turns red and the parent is what is short. */
  lemma PushUpL<K>(c: Ctx<K>, t: Tree<K>, h: nat, root: Node?<K>, m: Links<K>)
    requires Short(c, t, h) && c.InL? && c.sib.T? && Zip(c, t, root, m)
    requires !IsRed(t) && !IsRed(c.sib) && !IsRed(c.sib.l) && !IsRed(c.sib.r)
    ensures c.sib.n in m
    ensures var p := Up(InL(c.up, c.n, c.c, c.sib.(c := Red)), t);
            Short(c.up, p, if IsRed(p) then h else h + 1) &&
            Zip(c.up, p, root, Paint(m, c.sib.n, Red)) && InOrder(Plug(c.up, p)) == InOrder(Plug(c, t))
  {
    ReadAbove(c, t, root, m);
    FocusUp(c, t, root, m);
    PaintedR(c.up, Up(c, t), root, m, Red);
    var p := Up(InL(c.up, c.n, c.c, c.sib.(c := Red)), t);
    PlugInOrder(c.up, Up(c, t), p);
    assert RB(c.sib.(c := Red), h);
  }

  /** The sibling's far child is black: a rotation at the sibling makes it red. */
  ghost function NearRedL<K>(c: Ctx<K>): Ctx<K>
    requires c.InL? && c.sib.T? && c.sib.l.T?
  {
    InL(c.up, c.n, c.c, RotR(OuterTreeL(c.sib)))
  }

  lemma NearRedPaintL<K>(c: Ctx<K>, t: Tree<K>, root: Node?<K>, m: Links<K>)
    requires c.InL? && c.sib.T? && c.sib.l.T? && Zip(c, t, root, m)
    ensures c.sib.n in m && c.sib.l.n in m
    ensures Zip(InR(c.up, c.n, c.c, t), OuterTreeL(c.sib), root, Paint(Paint(m, c.sib.l.n, Black), c.sib.n, Red))
    ensures CanRotR(c.sib.n, Paint(Paint(m, c.sib.l.n, Black), c.sib.n, Red))
  {
    FocusSibling(c, t, root, m);
    assert Rep(c.sib, c.n, m);
    OuterLinksL(InR(c.up, c.n, c.c, t), c.sib, root, m);
    ZipCanRotR(InR(c.up, c.n, c.c, t), OuterTreeL(c.sib), root, Paint(Paint(m, c.sib.l.n, Black), c.sib.n, Red));
  }

  lemma NearRedRotatedL<K>(c: Ctx<K>, t: Tree<K>, h: nat, root: Node?<K>, m: Links<K>, root': Node?<K>, m': Links<K>)
    requires Short(c, t, h) && c.InL? && c.sib.T? && !IsRed(c.sib) && IsRed(c.sib.l) && !IsRed(c.sib.r)
    requires Zip(InR(c.up, c.n, c.c, t), OuterTreeL(c.sib), root, m)
    requires CanRotR(c.sib.n, m) && RotatedR(c.sib.n, root, m, root', m')
    ensures Zip(NearRedL(c), t, root', m')
    ensures Short(NearRedL(c), t, h)
    ensures InOrder(Plug(NearRedL(c), t)) == InOrder(Plug(c, t))
  {
    var d, w, e := InR(c.up, c.n, c.c, t), OuterTreeL(c.sib), NearRedL(c);
    RotRLinks(d, w, root, m, root', m');
    RotRKeeps(w);
    FocusSibling(e, t, root', m');
    assert InOrder(w) == InOrder(c.sib) by { assert InOrder(w.l) == InOrder(c.sib.l); }
    assert InOrder(Up(c, t)) == InOrder(Up(e, t));
    PlugInOrder(c.up, Up(c, t), Up(e, t));
    assert RB(c.sib.l, h) && RB(c.sib.r, h);
    assert RB(e.sib.r, h) && RB(e.sib.l, h);
  }

  /** The sibling's far child is red: repaint three nodes and rotate at the parent. */
  ghost function FarRedL<K>(c: Ctx<K>, t: Tree<K>): Tree<K>
    requires c.InL? && c.sib.T? && c.sib.r.T?
  {
    Up(InL(c.up, c.n, Black, c.sib.(c := c.c, r := c.sib.r.(c := Black))), t)
  }

  lemma FarRedPaintL<K>(c: Ctx<K>, t: Tree<K>, root: Node?<K>, m: Links<K>)
    requires c.InL? && c.sib.T? && c.sib.r.T? && Zip(c, t, root, m)
    ensures c.n in m && c.sib.n in m && c.sib.r.n in m
    ensures var m' := Paint(Paint(Paint(m, c.sib.n, c.c), c.n, Black), c.sib.r.n, Black);
            Zip(c.up, FarRedL(c, t), root, m') && CanRotL(c.n, m')
    ensures InOrder(Plug(c.up, FarRedL(c, t))) == InOrder(Plug(c, t))
    ensures m[c.n].color == c.c && m[c.sib.n].right == Root(c.sib.r)
  {
    var g, w := Up(c, t), c.sib;
    ReadAbove(c, t, root, m);
    FocusUp(c, t, root, m);
    assert Rep(w, c.n, m);
    PaintedR(c.up, g, root, m, c.c);
    var g1, m1 := g.(r := w.(c := c.c)), Paint(m, w.n, c.c);
    Painted(c.up, g1, root, m1, Black);
    var g2, m2 := g1.(c := Black), Paint(m1, c.n, Black);
    var d, v := InR(c.up, c.n, Black, t), w.(c := c.c);
    FocusUp(d, v, root, m2);
    PaintedR(d, v, root, m2, Black);
    FocusUp(d, v.(r := v.r.(c := Black)), root, Paint(m2, w.r.n, Black));
    PlugInOrder(c.up, g, FarRedL(c, t));
    ZipCanRotL(c.up, FarRedL(c, t), root, Paint(m2, w.r.n, Black));
  }

  lemma FarRedRotatedL<K>(c: Ctx<K>, t: Tree<K>, h: nat, root: Node?<K>, m: Links<K>, root': Node?<K>, m': Links<K>)
    requires Short(c, t, h) && c.InL? && c.sib.T? && !IsRed(t) && !IsRed(c.sib) && IsRed(c.sib.r)
    requires Zip(c.up, FarRedL(c, t), root, m)
    requires CanRotL(c.n, m) && RotatedL(c.n, root, m, root', m')
    ensures var w := Plug(c.up, RotL(FarRedL(c, t)));
            Zip(Top, w, root', m') && Short(Top, w, BlackHeight(w)) && InOrder(w) == InOrder(Plug(c.up, FarRedL(c, t)))
  {
    var g := FarRedL(c, t);
    var g' := RotL(g);
    RotLLinks(c.up, g, root, m, root', m');
    RotLKeeps(g);
    PlugInOrder(c.up, g, g');
    ZipUp(c.up, g', root', m');
    assert RB(c.sib.l, h) && RB(c.sib.r, h);
    assert RB(g'.l, h + 1) && RB(g'.r, h + 1);
    PlugRedBlack(c.up, g', if c.c.Red? then h + 1 else h + 2);
  }

  // ---------- the focus is a right child ----------

  /** The path after the rotation that gives the focus a black sibling. */
  ghost function RedSiblingR<K>(c: Ctx<K>): Ctx<K>
    requires c.InR? && c.sib.T?
  {
    InR(InR(c.up, c.sib.n, Black, c.sib.l), c.n, Red, c.sib.r)
  }

  lemma RedSiblingPaintR<K>(c: Ctx<K>, t: Tree<K>, root: Node?<K>, m: Links<K>)
    requires c.InR? && c.sib.T? && Zip(c, t, root, m)
    ensures c.n in m && c.sib.n in m
    ensures Zip(c.up, OuterTreeL(Up(c, t)), root, Paint(Paint(m, c.sib.n, Black), c.n, Red))
    ensures InOrder(Plug(c.up, OuterTreeL(Up(c, t)))) == InOrder(Plug(c, t))
    ensures CanRotR(c.n, Paint(Paint(m, c.sib.n, Black), c.n, Red))
  {
    ReadAbove(c, t, root, m);
    FocusUp(c, t, root, m);
    OuterLinksL(c.up, Up(c, t), root, m);
    ZipCanRotR(c.up, OuterTreeL(Up(c, t)), root, Paint(Paint(m, c.sib.n, Black), c.n, Red));
  }

  lemma RedSiblingRotatedR<K>(c: Ctx<K>, t: Tree<K>, root: Node?<K>, m: Links<K>, root': Node?<K>, m': Links<K>)
    requires c.InR? && c.sib.T?
    requires Zip(c.up, OuterTreeL(Up(c, t)), root, m)
    requires CanRotR(c.n, m) && RotatedR(c.n, root, m, root', m')
    ensures Zip(RedSiblingR(c), t, root', m')
    ensures InOrder(Plug(RedSiblingR(c), t)) == InOrder(Plug(c.up, OuterTreeL(Up(c, t))))
  {
    var g, d := OuterTreeL(Up(c, t)), RedSiblingR(c);
    RotRLinks(c.up, g, root, m, root', m');
    RotRKeeps(g);
    PlugInOrder(c.up, g, RotR(g));
    FocusUp(d.up, Up(d, t), root', m');
    FocusUp(d, t, root', m');
  }

  lemma RedSiblingShortR<K>(c: Ctx<K>, t: Tree<K>, h: nat)
    requires Short(c, t, h) && c.InR? && IsRed(c.sib)
    ensures Short(RedSiblingR(c), t, h) && RedSiblingR(c).sib.T? && !IsRed(RedSiblingR(c).sib)
  {
    assert CtxRB(c.up, h + 2) && RB(c.sib.l, h + 1) && RB(c.sib.r, h + 1);
    assert CtxRB(RedSiblingR(c).up, h + 1);
  }

  /** Both children of the sibling are black: it turns red and the parent is what is short. */
  lemma PushUpR<K>(c: Ctx<K>, t: Tree<K>, h: nat, root: Node?<K>, m: Links<K>)
    requires Short(c, t, h) && c.InR? && c.sib.T? && Zip(c, t, root, m)
    requires !IsRed(t) && !IsRed(c.sib) && !IsRed(c.sib.l) && !IsRed(c.sib.r)
    ensures c.sib.n in m
    ensures var p := Up(InR(c.up, c.n, c.c, c.sib.(c := Red)), t);
            Short(c.up, p, if IsRed(p) then h else h + 1) &&
            Zip(c.up, p, root, Paint(m, c.sib.n, Red)) && InOrder(Plug(c.up, p)) == InOrder(Plug(c, t))
  {
    ReadAbove(c, t, root, m);
    FocusUp(c, t, root, m);
    PaintedL(c.up, Up(c, t), root, m, Red);
    var p := Up(InR(c.up, c.n, c.c, c.sib.(c := Red)), t);
    PlugInOrder(c.up, Up(c, t), p);
    assert RB(c.sib.(c := Red), h);
  }

  /** The sibling's far child is black: a rotation at the sibling makes it red. */
  ghost function NearRedR<K>(c: Ctx<K>): Ctx<K>
    requires c.InR? && c.sib.T? && c.sib.r.T?
  {
    InR(c.up, c.n, c.c, RotL(OuterTreeR(c.sib)))
  }

  lemma NearRedPaintR<K>(c: Ctx<K>, t: Tree<K>, root: Node?<K>, m: Links<K>)
    requires c.InR? && c.sib.T? && c.sib.r.T? && Zip(c, t, root, m)
    ensures c.sib.n in m && c.sib.r.n in m
    ensures Zip(InL(c.up, c.n, c.c, t), OuterTreeR(c.sib), root, Paint(Paint(m, c.sib.r.n, Black), c.sib.n, Red))
    ensures CanRotL(c.sib.n, Paint(Paint(m, c.sib.r.n, Black), c.sib.n, Red))
  {
    FocusSibling(c, t, root, m);
    assert Rep(c.sib, c.n, m);
    OuterLinksR(InL(c.up, c.n, c.c, t), c.sib, root, m);
    ZipCanRotL(InL(c.up, c.n, c.c, t), OuterTreeR(c.sib), root, Paint(Paint(m, c.sib.r.n, Black), c.sib.n, Red));
  }

  lemma NearRedRotatedR<K>(c: Ctx<K>, t: Tree<K>, h: nat, root: Node?<K>, m: Links<K>, root': Node?<K>, m': Links<K>)
    requires Short(c, t, h) && c.InR? && c.sib.T? && !IsRed(c.sib) && IsRed(c.sib.r) && !IsRed(c.sib.l)
    requires Zip(InL(c.up, c.n, c.c, t), OuterTreeR(c.sib), root, m)
    requires CanRotL(c.sib.n, m) && RotatedL(c.sib.n, root, m, root', m')
    ensures Zip(NearRedR(c), t, root', m')
    ensures Short(NearRedR(c), t, h)
    ensures InOrder(Plug(NearRedR(c), t)) == InOrder(Plug(c, t))
  {
    var d, w, e := InL(c.up, c.n, c.c, t), OuterTreeR(c.sib), NearRedR(c);
    RotLLinks(d, w, root, m, root', m');
    RotLKeeps(w);
    FocusSibling(e, t, root', m');
    assert InOrder(w) == InOrder(c.sib) by { assert InOrder(w.r) == InOrder(c.sib.r); }
    assert InOrder(Up(c, t)) == InOrder(Up(e, t));
    PlugInOrder(c.up, Up(c, t), Up(e, t));
    assert RB(c.sib.r, h) && RB(c.sib.l, h);
    assert RB(e.sib.l, h) && RB(e.sib.r, h);
  }

  /** The sibling's far child is red: repaint three nodes and rotate at the parent. */
  ghost function FarRedR<K>(c: Ctx<K>, t: Tree<K>): Tree<K>
    requires c.InR? && c.sib.T? && c.sib.l.T?
  {
    Up(InR(c.up, c.n, Black, c.sib.(c := c.c, l := c.sib.l.(c := Black))), t)
  }

  lemma FarRedPaintR<K>(c: Ctx<K>, t: Tree<K>, root: Node?<K>, m: Links<K>)
    requires c.InR? && c.sib.T? && c.sib.l.T? && Zip(c, t, root, m)
    ensures c.n in m && c.sib.n in m && c.sib.l.n in m
    ensures var m' := Paint(Paint(Paint(m, c.sib.n, c.c), c.n, Black), c.sib.l.n, Black);
            Zip(c.up, FarRedR(c, t), root, m') && CanRotR(c.n, m')
    ensures InOrder(Plug(c.up, FarRedR(c, t))) == InOrder(Plug(c, t))
    ensures m[c.n].color == c.c && m[c.sib.n].left == Root(c.sib.l)
  {
    var g, w := Up(c, t), c.sib;
    ReadAbove(c, t, root, m);
    FocusUp(c, t, root, m);
    assert Rep(w, c.n, m);
    PaintedL(c.up, g, root, m, c.c);
    var g1, m1 := g.(l := w.(c := c.c)), Paint(m, w.n, c.c);
    Painted(c.up, g1, root, m1, Black);
    var g2, m2 := g1.(c := Black), Paint(m1, c.n, Black);
    var d, v := InL(c.up, c.n, Black, t), w.(c := c.c);
    FocusUp(d, v, root, m2);
    PaintedL(d, v, root, m2, Black);
    FocusUp(d, v.(l := v.l.(c := Black)), root, Paint(m2, w.l.n, Black));
    PlugInOrder(c.up, g, FarRedR(c, t));
    ZipCanRotR(c.up, FarRedR(c, t), root, Paint(m2, w.l.n, Black));
  }

  lemma FarRedRotatedR<K>(c: Ctx<K>, t: Tree<K>, h: nat, root: Node?<K>, m: Links<K>, root': Node?<K>, m': Links<K>)
    requires Short(c, t, h) && c.InR? && c.sib.T? && !IsRed(t) && !IsRed(c.sib) && IsRed(c.sib.l)
    requires Zip(c.up, FarRedR(c, t), root, m)
    requires CanRotR(c.n, m) && RotatedR(c.n, root, m, root', m')
    ensures var w := Plug(c.up, RotR(FarRedR(c, t)));
            Zip(Top, w, root', m') && Short(Top, w, BlackHeight(w)) && InOrder(w) == InOrder(Plug(c.up, FarRedR(c, t)))
  {
    var g := FarRedR(c, t);
    var g' := RotR(g);
    RotRLinks(c.up, g, root, m, root', m');
    RotRKeeps(g);
    PlugInOrder(c.up, g, g');
    ZipUp(c.up, g', root', m');
    assert RB(c.sib.r, h) && RB(c.sib.l, h);
    assert RB(g'.r, h + 1) && RB(g'.l, h + 1);
    PlugRedBlack(c.up, g', if c.c.Red? then h + 1 else h + 2);
  }

}
