/** The red-black half of tree.h: RB_HEAD with the operations RB_GENERATE defines. */
module RbTree {
  import opened Order
  import opened Edits
  import opened RbShape
  import opened RbRotate
  import opened RbFix
  import opened RbSearch
  import opened RbShort
  import opened RbSplice
  import opened RbHeight
  import opened RbWalk

  class RbTree<K(!new)> {
    const cmp: (K, K) -> int
    var root: Node?<K>
    ghost var tree: Tree<K>

    /** Every link, colour, and key is as tree.h promises. */
    ghost predicate Valid()
      reads this, Nodes(tree)
    {
      IsOrder(cmp) && Zip(Top, tree, root, Cells(Nodes(tree))) && RedBlack(tree) && Sorted(cmp, Elements())
    }

    /** The stored nodes in key order. */
    ghost function Elements(): seq<Node<K>>
      reads this`tree
    {
      InOrder(tree)
    }

    /** RB_INIT. */
    constructor (cmp: (K, K) -> int)
      requires IsOrder(cmp)
      ensures Valid() && Elements() == [] && this.cmp == cmp
    {
      this.cmp := cmp;
      root, tree := null, E;
    }

    /** Records the tree that the links of `s` now stand for. */
    ghost method Adopt(t: Tree<K>, s: set<Node<K>>)
      requires IsOrder(cmp) && Zip(Top, t, root, Cells(s)) && RedBlack(t) && Sorted(cmp, InOrder(t))
      modifies this`tree
      ensures Valid() && tree == t
    {
      ghost var m := Cells(s);
      assert Nodes(t) == s;
      tree := t;
      assert Cells(s) == m;
    }

    /** RB_ROTATE_LEFT. */
    method RotateLeft(elm: Node<K>, ghost s: set<Node<K>>) returns (tmp: Node<K>)
      requires CanRotL(elm, Cells(s))
      modifies this`root, s
      ensures tmp == old(elm.right)
      ensures RotatedL(elm, old(root), old(Cells(s)), root, Cells(s))
    {
      tmp := elm.right;
      elm.right := tmp.left;
      if elm.right != null {
        tmp.left.parent := elm;
      }
      tmp.parent := elm.parent;
      if tmp.parent != null {
        if elm == elm.parent.left {
          elm.parent.left := tmp;
        } else {
          elm.parent.right := tmp;
        }
      } else {
        root := tmp;
      }
      tmp.left := elm;
      elm.parent := tmp;
    }

    /** RB_ROTATE_RIGHT. */
    method RotateRight(elm: Node<K>, ghost s: set<Node<K>>) returns (tmp: Node<K>)
      requires CanRotR(elm, Cells(s))
      modifies this`root, s
      ensures tmp == old(elm.left)
      ensures RotatedR(elm, old(root), old(Cells(s)), root, Cells(s))
    {
      tmp := elm.left;
      elm.left := tmp.right;
      if elm.left != null {
        tmp.right.parent := elm;
      }
      tmp.parent := elm.parent;
      if tmp.parent != null {
        if elm == elm.parent.left {
          elm.parent.left := tmp;
        } else {
          elm.parent.right := tmp;
        }
      } else {
        root := tmp;
      }
      tmp.right := elm;
      elm.parent := tmp;
    }

    method SetColor(n: Node<K>, col: Color, ghost s: set<Node<K>>)
      requires n in s
      modifies n`color
      ensures Cells(s) == Paint(old(Cells(s)), n, col)
    {
      n.color := col;
    }

    /** RB_SET_BLACKRED. */
    method SetBlackRed(black: Node<K>, red: Node<K>, ghost s: set<Node<K>>)
      requires black in s && red in s
      modifies black`color, red`color
      ensures Cells(s) == Paint(Paint(old(Cells(s)), black, Black), red, Red)
    {
      black.color := Black;
      red.color := Red;
    }

    method PaintUncle(tmp: Node<K>, parent: Node<K>, gparent: Node<K>, ghost s: set<Node<K>>)
      requires tmp in s && parent in s && gparent in s
      modifies s
      ensures Cells(s) == Paint(Paint(Paint(old(Cells(s)), tmp, Black), parent, Black), gparent, Red)
    {
      SetColor(tmp, Black, s);
      SetBlackRed(parent, gparent, s);
    }

    /** A red uncle `tmp`: repaint and go on from the grandparent. */
    method InsertColorUncle(tmp: Node<K>, parent: Node<K>, gparent: Node<K>,
                            ghost c: Ctx<K>, ghost t: Tree<K>, ghost h: nat, ghost s: set<Node<K>>)
      returns (ghost t': Tree<K>)
      requires Zip(c, t, root, Cells(s)) && RedAt(c, t, h) && CtxIsRed(c) && IsRed(c.up.sib)
      requires tmp == c.up.sib.n && parent == c.n && gparent == c.up.n
      modifies s
      ensures Zip(c.up.up, t', root, Cells(s)) && RedAt(c.up.up, t', h + 1) && t'.n == gparent
      ensures InOrder(Plug(c.up.up, t')) == InOrder(Plug(c, t))
      ensures Depth(c.up.up) < Depth(c)
    {
      UncleStep(c, t, h, root, Cells(s));
      PaintUncle(tmp, parent, gparent, s);
      t' := UncleTree(Up(c.up, Up(c, t)));
    }

    /** The rest of a round of RB_INSERT_COLOR whose parent is a left child and whose uncle is not red. */
    method InsertColorBlackUncleLeft(elm: Node<K>, parent: Node<K>, gparent: Node<K>,
                           ghost c: Ctx<K>, ghost t: Tree<K>, ghost h: nat, ghost s: set<Node<K>>)
      returns (elm': Node<K>, ghost c': Ctx<K>, ghost t': Tree<K>, ghost h': nat)
      requires Zip(c, t, root, Cells(s)) && RedAt(c, t, h) && CtxIsRed(c) && c.up.InL? && !IsRed(c.up.sib)
      requires elm == t.n && parent == c.n && gparent == c.up.n
      modifies this`root, s
      ensures Zip(c', t', root, Cells(s)) && RedAt(c', t', h') && Root(t') == elm'
      ensures InOrder(Plug(c', t')) == InOrder(Plug(c, t))
      ensures Depth(c') < Depth(c)
    {
      ghost var m := Cells(s);
      ReadAbove(c, t, root, m);
      FocusUp(c, t, root, m);
      var low, high := elm, parent;
      ghost var d, u := c, t;
      if parent.right == elm {
        ZipCanRotL(c.up, Up(c, t), root, m);
        var tmp := RotateLeft(parent, s);
        InnerStepL(c, t, h, old(root), m, root, Cells(s));
        d, u := InnerCtxL(c, t), InnerTreeL(c, t);
        low, high := parent, elm;
      }
      elm', c', t', h' := InsertColorOuterLeft(low, high, gparent, d, u, h, s);
    }

    /** The end of such a round: `low` is the outer red grandchild of `gparent` and the uncle is not red. */
    method InsertColorOuterLeft(low: Node<K>, high: Node<K>, gparent: Node<K>,
                                ghost d: Ctx<K>, ghost u: Tree<K>, ghost h: nat, ghost s: set<Node<K>>)
      returns (elm': Node<K>, ghost c': Ctx<K>, ghost t': Tree<K>, ghost h': nat)
      requires Zip(d, u, root, Cells(s)) && RedAt(d, u, h) && CtxIsRed(d) && d.InL? && d.up.InL? && !IsRed(d.up.sib)
      requires low == u.n && high == d.n && gparent == d.up.n
      modifies this`root, s
      ensures Zip(c', t', root, Cells(s)) && RedAt(c', t', h') && Root(t') == elm'
      ensures InOrder(Plug(c', t')) == InOrder(Plug(d, u))
      ensures Depth(c') < Depth(d)
    {
      ghost var m := Cells(s);
      ghost var d1, p := d.up, Up(d, u);
      ghost var d2, g := d1.up, Up(d1, p);
      FocusUp(d, u, root, m);
      FocusUp(d1, p, root, m);
      OuterStepL(d, u, h, g);
      ghost var g1 := OuterTreeL(g);
      OuterLinksL(d2, g, root, m);
      SetBlackRed(high, gparent, s);
      ghost var m1 := Cells(s);
      ZipCanRotR(d2, g1, root, m1);
      var tmp := RotateRight(gparent, s);
      RotRLinks(d2, g1, old(root), m1, root, Cells(s));
      RotRKeeps(g1);
      PlugInOrder(d2, g1, RotR(g1));
      elm', c', t', h' := low, InL(d2, high, Black, RotR(g1).r), u, h;
      FocusUp(c', t', root, Cells(s));
    }

    /** The rest of a round of RB_INSERT_COLOR whose parent is a right child and whose uncle is not red. */
    method InsertColorBlackUncleRight(elm: Node<K>, parent: Node<K>, gparent: Node<K>,
                           ghost c: Ctx<K>, ghost t: Tree<K>, ghost h: nat, ghost s: set<Node<K>>)
      returns (elm': Node<K>, ghost c': Ctx<K>, ghost t': Tree<K>, ghost h': nat)
      requires Zip(c, t, root, Cells(s)) && RedAt(c, t, h) && CtxIsRed(c) && c.up.InR? && !IsRed(c.up.sib)
      requires elm == t.n && parent == c.n && gparent == c.up.n
      modifies this`root, s
      ensures Zip(c', t', root, Cells(s)) && RedAt(c', t', h') && Root(t') == elm'
      ensures InOrder(Plug(c', t')) == InOrder(Plug(c, t))
      ensures Depth(c') < Depth(c)
    {
      ghost var m := Cells(s);
      ReadAbove(c, t, root, m);
      FocusUp(c, t, root, m);
      var low, high := elm, parent;
      ghost var d, u := c, t;
      if parent.left == elm {
        ZipCanRotR(c.up, Up(c, t), root, m);
        var tmp := RotateRight(parent, s);
        InnerStepR(c, t, h, old(root), m, root, Cells(s));
        d, u := InnerCtxR(c, t), InnerTreeR(c, t);
        low, high := parent, elm;
      }
      elm', c', t', h' := InsertColorOuterRight(low, high, gparent, d, u, h, s);
    }

    /** The end of such a round: `low` is the outer red grandchild of `gparent` and the uncle is not red. */
    method InsertColorOuterRight(low: Node<K>, high: Node<K>, gparent: Node<K>,
                                ghost d: Ctx<K>, ghost u: Tree<K>, ghost h: nat, ghost s: set<Node<K>>)
      returns (elm': Node<K>, ghost c': Ctx<K>, ghost t': Tree<K>, ghost h': nat)
      requires Zip(d, u, root, Cells(s)) && RedAt(d, u, h) && CtxIsRed(d) && d.InR? && d.up.InR? && !IsRed(d.up.sib)
      requires low == u.n && high == d.n && gparent == d.up.n
      modifies this`root, s
      ensures Zip(c', t', root, Cells(s)) && RedAt(c', t', h') && Root(t') == elm'
      ensures InOrder(Plug(c', t')) == InOrder(Plug(d, u))
      ensures Depth(c') < Depth(d)
    {
      ghost var m := Cells(s);
      ghost var d1, p := d.up, Up(d, u);
      ghost var d2, g := d1.up, Up(d1, p);
      FocusUp(d, u, root, m);
      FocusUp(d1, p, root, m);
      OuterStepR(d, u, h, g);
      ghost var g1 := OuterTreeR(g);
      OuterLinksR(d2, g, root, m);
      SetBlackRed(high, gparent, s);
      ghost var m1 := Cells(s);
      ZipCanRotL(d2, g1, root, m1);
      var tmp := RotateLeft(gparent, s);
      RotLLinks(d2, g1, old(root), m1, root, Cells(s));
      RotLKeeps(g1);
      PlugInOrder(d2, g1, RotL(g1));
      elm', c', t', h' := low, InR(d2, high, Black, RotL(g1).l), u, h;
      FocusUp(c', t', root, Cells(s));
    }

    /** One round of RB_INSERT_COLOR whose parent is a left child. */
    method InsertColorLeft(elm: Node<K>, parent: Node<K>, gparent: Node<K>,
                           ghost c: Ctx<K>, ghost t: Tree<K>, ghost h: nat, ghost s: set<Node<K>>)
      returns (elm': Node<K>, ghost c': Ctx<K>, ghost t': Tree<K>, ghost h': nat)
      requires Zip(c, t, root, Cells(s)) && RedAt(c, t, h) && CtxIsRed(c) && c.up.InL?
      requires elm == t.n && parent == c.n && gparent == c.up.n
      modifies this`root, s
      ensures Zip(c', t', root, Cells(s)) && RedAt(c', t', h') && Root(t') == elm'
      ensures InOrder(Plug(c', t')) == InOrder(Plug(c, t))
      ensures Depth(c') < Depth(c)
    {
      FocusUp(c, t, root, Cells(s));
      ReadAbove(c.up, Up(c, t), root, Cells(s));
      var tmp := gparent.right;
      if tmp != null && tmp.color == Red {
        elm', c', h' := gparent, c.up.up, h + 1;
        t' := InsertColorUncle(tmp, parent, gparent, c, t, h, s);
      } else {
        elm', c', t', h' := InsertColorBlackUncleLeft(elm, parent, gparent, c, t, h, s);
      }
    }

    /** One round of RB_INSERT_COLOR whose parent is a right child. */
    method InsertColorRight(elm: Node<K>, parent: Node<K>, gparent: Node<K>,
                           ghost c: Ctx<K>, ghost t: Tree<K>, ghost h: nat, ghost s: set<Node<K>>)
      returns (elm': Node<K>, ghost c': Ctx<K>, ghost t': Tree<K>, ghost h': nat)
      requires Zip(c, t, root, Cells(s)) && RedAt(c, t, h) && CtxIsRed(c) && c.up.InR?
      requires elm == t.n && parent == c.n && gparent == c.up.n
      modifies this`root, s
      ensures Zip(c', t', root, Cells(s)) && RedAt(c', t', h') && Root(t') == elm'
      ensures InOrder(Plug(c', t')) == InOrder(Plug(c, t))
      ensures Depth(c') < Depth(c)
    {
      FocusUp(c, t, root, Cells(s));
      ReadAbove(c.up, Up(c, t), root, Cells(s));
      var tmp := gparent.left;
      if tmp != null && tmp.color == Red {
        elm', c', h' := gparent, c.up.up, h + 1;
        t' := InsertColorUncle(tmp, parent, gparent, c, t, h, s);
      } else {
        elm', c', t', h' := InsertColorBlackUncleRight(elm, parent, gparent, c, t, h, s);
      }
    }

    /** RB_INSERT_COLOR, for a tree whose only violation may be the red node `elm` below a red parent; `repairs` counts
        the rounds of its loop. */
    method InsertColor(start: Node<K>, ghost c0: Ctx<K>, ghost t0: Tree<K>, ghost h0: nat, ghost s: set<Node<K>>)
      returns (ghost result: Tree<K>, ghost repairs: nat)
      requires Zip(c0, t0, root, Cells(s)) && Root(t0) == start && RedAt(c0, t0, h0)
      modifies this`root, s
      ensures Zip(Top, result, root, Cells(s)) && RedBlack(result)
      ensures InOrder(result) == InOrder(Plug(c0, t0)) && repairs <= Depth(c0)
    {
      var elm := start;
      repairs := 0;
      ghost var c, t, h := c0, t0, h0;
      while elm.parent != null && elm.parent.color == Red
        invariant Zip(c, t, root, Cells(s)) && Root(t) == elm && RedAt(c, t, h)
        invariant InOrder(Plug(c, t)) == InOrder(Plug(c0, t0)) && repairs + Depth(c) <= Depth(c0)
        decreases Depth(c)
      {
        repairs := repairs + 1;
        ReadAbove(c, t, root, Cells(s));
        ReadAbove(c.up, Up(c, t), root, Cells(s)) by {
          FocusUp(c, t, root, Cells(s));
        }
        var parent := elm.parent;
        var gparent := parent.parent;
        if parent == gparent.left {
          elm, c, t, h := InsertColorLeft(elm, parent, gparent, c, t, h, s);
        } else {
          elm, c, t, h := InsertColorRight(elm, parent, gparent, c, t, h, s);
        }
      }
      assert !CtxIsRed(c) by {
        if !c.Top? { ReadAbove(c, t, root, Cells(s)); }
      }
      RootBlack(c, t, h);
      result := Plug(c, t);
      ZipUp(c, t, root, Cells(s));
      Painted(Top, result, root, Cells(s), Black);
      result := result.(c := Black);
      SetColor(root, Black, s);
    }

    /** The walk of RB_INSERT: the stored node with an equal key, or the free place below `parent`. */
    method Descend(elm: Node<K>)
      returns (tmp: Node?<K>, parent: Node?<K>, comp: int, ghost c: Ctx<K>, ghost t: Tree<K>, ghost steps: nat)
      requires Valid()
      ensures Valid()
      ensures Zip(c, t, root, Cells(Nodes(tree))) && Plug(c, t) == tree
      ensures Root(t) == tmp
      ensures tmp != null ==> cmp(elm.key, tmp.key) == 0
      ensures tmp == null ==>
              Above(c) == parent && Between(cmp, c, elm.key) && (c.InL? ==> comp < 0) && (c.InR? ==> comp > 0)
      ensures Logarithmic(steps, |Elements()|)
    {
      tmp, parent, comp, steps := root, null, 0, 0;
      c, t := Top, tree;
      ghost var m := Cells(Nodes(tree));
      while tmp != null
        invariant Cells(Nodes(tree)) == m
        invariant Walking(cmp, elm.key, c, t, tree, root, m)
        invariant Root(t) == tmp && Above(c) == parent && steps == Depth(c)
        invariant c.InL? ==> comp < 0
        invariant c.InR? ==> comp > 0
        decreases t
      {
        steps := steps + 1;
        parent := tmp;
        comp := cmp(elm.key, parent.key);
        if comp < 0 {
          WalkLeft(cmp, elm.key, c, t, tree, root, m);
          tmp := tmp.left;
          c, t := InL(c, t.n, t.c, t.r), t.l;
        } else if comp > 0 {
          WalkRight(cmp, elm.key, c, t, tree, root, m);
          tmp := tmp.right;
          c, t := InR(c, t.n, t.c, t.l), t.r;
        } else {
          break;
        }
      }
      WalkBound(c, t, tree, steps);
    }

    /** RB_SET and the link from the parent. */
    method LinkLeaf(elm: Node<K>, parent: Node?<K>, comp: int, ghost c: Ctx<K>, ghost s: set<Node<K>>)
      requires Zip(c, E, root, Cells(s)) && elm !in s
      requires Above(c) == parent && (c.InL? ==> comp < 0) && (c.InR? ==> comp > 0)
      modifies this`root, elm, s
      ensures Zip(c, T(E, elm, Red, E), root, Cells(s + {elm}))
    {
      ghost var m := Cells(s);
      elm.parent := parent;
      elm.left, elm.right := null, null;
      elm.color := Red;
      if parent != null {
        ReadAbove(c, E, root, m);
        if comp < 0 {
          parent.left := elm;
        } else {
          parent.right := elm;
        }
      } else {
        root := elm;
      }
      LeafLinks(c, elm, old(root), m, root, Cells(s + {elm}));
    }

    /** RB_INSERT from the free place on. */
    method InsertLeaf(elm: Node<K>, parent: Node?<K>, comp: int, ghost c: Ctx<K>) returns (ghost repairs: nat)
      requires Valid() && Plug(c, E) == tree && Between(cmp, c, elm.key)
      requires Above(c) == parent && (c.InL? ==> comp < 0) && (c.InR? ==> comp > 0)
      modifies this, elm, Nodes(tree)
      ensures Valid() && Inserted(old(Elements()), elm, Elements())
      ensures forall n | n in old(Elements()) :: cmp(elm.key, n.key) != 0
      ensures Logarithmic(repairs, |old(Elements())|)
    {
      ghost var t0, s := tree, Nodes(tree);
      ZipUp(c, E, root, Cells(s));
      RedBlackUnplug(c, E);
      NotStored(cmp, c, elm, tree);
      LinkLeaf(elm, parent, comp, c, s);
      ghost var t;
      t, repairs := InsertColor(elm, c, T(E, elm, Red, E), 0, s + {elm});
      WalkBound(c, E, t0, repairs);
      InsertedOrder(cmp, c, elm, t0, t);
      Adopt(t, s + {elm});
    }

    /** RB_INSERT: returns the stored node with an equal key, or links `elm` and returns null; `steps` counts the
        rounds of the search, `repairs` those of RB_INSERT_COLOR. */
    method Insert(elm: Node<K>) returns (found: Node?<K>, ghost steps: nat, ghost repairs: nat)
      requires Valid()
      modifies this, elm, Nodes(tree)
      ensures Valid()
      ensures found == null ==> Inserted(old(Elements()), elm, Elements())
      ensures found == null ==> forall n | n in old(Elements()) :: cmp(elm.key, n.key) != 0
      ensures found != null ==> found in old(Elements()) && cmp(elm.key, found.key) == 0
      ensures found != null ==> root == old(root) && tree == old(tree) && unchanged(elm)
      ensures Logarithmic(steps, |old(Elements())|) && Logarithmic(repairs, |old(Elements())|)
    {
      var parent, comp;
      ghost var c, t;
      found, parent, comp, c, t, steps := Descend(elm);
      if found == null {
        repairs := InsertLeaf(elm, parent, comp, c);
      } else {
        repairs := 0;
        WalkBound(Top, tree, tree, 0);
        InOrderPlug(c, t);
      }
    }

    // ---------- RB_REMOVE_COLOR, the node that is short being a left child ----------

    /** Its sibling `tmp` is red: a rotation gives it a black one. */
    method RemoveColorRedLeft(parent: Node<K>, tmp: Node<K>, ghost c: Ctx<K>, ghost t: Tree<K>, ghost h: nat,
                              ghost s: set<Node<K>>)
      requires Zip(c, t, root, Cells(s)) && Short(c, t, h) && c.InL? && IsRed(c.sib) && parent == c.n && tmp == c.sib.n
      modifies this`root, s
      ensures Zip(RedSiblingL(c), t, root, Cells(s)) && InOrder(Plug(RedSiblingL(c), t)) == InOrder(Plug(c, t))
    {
      RedSiblingPaintL(c, t, root, Cells(s));
      SetBlackRed(tmp, parent, s);
      ghost var root1, m1 := root, Cells(s);
      var _ := RotateLeft(parent, s);
      RedSiblingRotatedL(c, t, root1, m1, root, Cells(s));
    }

    /** The sibling is black and so are its children: it turns red and the parent is what is short. */
    method RemoveColorPushLeft(tmp: Node<K>, ghost c: Ctx<K>, ghost t: Tree<K>, ghost h: nat, ghost s: set<Node<K>>)
      returns (ghost t': Tree<K>, ghost h': nat)
      requires Zip(c, t, root, Cells(s)) && Short(c, t, h) && c.InL? && c.sib.T? && tmp == c.sib.n
      requires !IsRed(t) && !IsRed(c.sib) && !IsRed(c.sib.l) && !IsRed(c.sib.r)
      modifies s
      ensures Zip(c.up, t', root, Cells(s)) && Short(c.up, t', h') && Root(t') == c.n && IsRed(t') == c.c.Red?
      ensures InOrder(Plug(c.up, t')) == InOrder(Plug(c, t))
    {
      PushUpL(c, t, h, root, Cells(s));
      SetColor(tmp, Red, s);
      t' := Up(InL(c.up, c.n, c.c, c.sib.(c := Red)), t);
      h' := if IsRed(t') then h else h + 1;
    }

    /** Only the sibling's near child is red: a rotation at the sibling moves it to the far side. */
    method RemoveColorNearLeft(tmp: Node<K>, ghost c: Ctx<K>, ghost t: Tree<K>, ghost h: nat, ghost s: set<Node<K>>)
      requires Zip(c, t, root, Cells(s)) && Short(c, t, h) && c.InL? && c.sib.T? && tmp == c.sib.n
      requires !IsRed(c.sib) && IsRed(c.sib.l) && !IsRed(c.sib.r)
      modifies this`root, s
      ensures Zip(NearRedL(c), t, root, Cells(s)) && Short(NearRedL(c), t, h)
      ensures InOrder(Plug(NearRedL(c), t)) == InOrder(Plug(c, t))
    {
      ReadAbove(c, t, root, Cells(s));
      NearRedPaintL(c, t, root, Cells(s));
      var near := tmp.left;
      if near != null {
        SetColor(near, Black, s);
      }
      SetColor(tmp, Red, s);
      ghost var root1, m1 := root, Cells(s);
      near := RotateRight(tmp, s);
      NearRedRotatedL(c, t, h, root1, m1, root, Cells(s));
    }

    /** The colours before the last rotation. */
    method PaintFarLeft(parent: Node<K>, tmp: Node<K>, ghost s: set<Node<K>>)
      requires parent in s && tmp in s && tmp.right != null && tmp.right in s
      modifies s
      ensures Cells(s) ==
              Paint(Paint(Paint(old(Cells(s)), tmp, old(parent.color)), parent, Black), old(tmp.right), Black)
    {
      SetColor(tmp, parent.color, s);
      SetColor(parent, Black, s);
      if tmp.right != null {
        SetColor(tmp.right, Black, s);
      }
    }

    /** The sibling's far child is red: a rotation at the parent ends the repair. */
    method RemoveColorFarLeft(parent: Node<K>, tmp: Node<K>, ghost c: Ctx<K>, ghost t: Tree<K>, ghost h: nat,
                              ghost s: set<Node<K>>)
      returns (ghost t': Tree<K>)
      requires Zip(c, t, root, Cells(s)) && Short(c, t, h) && c.InL? && c.sib.T? && parent == c.n && tmp == c.sib.n
      requires !IsRed(t) && !IsRed(c.sib) && IsRed(c.sib.r)
      modifies this`root, s
      ensures Zip(Top, t', root, Cells(s)) && Short(Top, t', BlackHeight(t')) && Root(t') == root
      ensures InOrder(t') == InOrder(Plug(c, t))
    {
      FarRedPaintL(c, t, root, Cells(s));
      PaintFarLeft(parent, tmp, s);
      ghost var root1, m1 := root, Cells(s);
      var _ := RotateLeft(parent, s);
      FarRedRotatedL(c, t, h, root1, m1, root, Cells(s));
      t' := Plug(c.up, RotL(FarRedL(c, t)));
    }

    /** A round with a black sibling; `done` when nothing is left to repair. */
    method RemoveColorBlackLeft(parent: Node<K>, sibling: Node<K>, ghost c: Ctx<K>, ghost t: Tree<K>, ghost h: nat,
                                ghost s: set<Node<K>>)
      returns (done: bool, ghost c': Ctx<K>, ghost t': Tree<K>, ghost h': nat)
      requires Zip(c, t, root, Cells(s)) && Short(c, t, h) && c.InL? && !IsRed(t) && c.sib.T? && !IsRed(c.sib)
      requires parent == c.n && sibling == c.sib.n
      modifies this`root, s
      ensures Zip(c', t', root, Cells(s)) && Short(c', t', h') && InOrder(Plug(c', t')) == InOrder(Plug(c, t))
      ensures c' == if done then Top else c.up
      ensures !done ==> Root(t') == parent && IsRed(t') == c.c.Red?
    {
      var tmp := sibling;
      ReadSibling(c, t, root, Cells(s));
      if (tmp.left == null || tmp.left.color == Black) && (tmp.right == null || tmp.right.color == Black) {
        t', h' := RemoveColorPushLeft(tmp, c, t, h, s);
        done, c' := false, c.up;
      } else {
        ghost var d := c;
        if tmp.right == null || tmp.right.color == Black {
          RemoveColorNearLeft(tmp, c, t, h, s);
          d := NearRedL(c);
          ReadAbove(d, t, root, Cells(s));
          tmp := parent.right;
        }
        t' := RemoveColorFarLeft(parent, tmp, d, t, h, s);
        done, c', h' := true, Top, BlackHeight(t');
      }
    }

    /** A whole round. */
    method RemoveColorLeft(parent: Node<K>, ghost c: Ctx<K>, ghost t: Tree<K>, ghost h: nat, ghost s: set<Node<K>>)
      returns (done: bool, ghost c': Ctx<K>, ghost t': Tree<K>, ghost h': nat)
      requires Zip(c, t, root, Cells(s)) && Short(c, t, h) && c.InL? && !IsRed(t) && parent == c.n
      modifies this`root, s
      ensures Zip(c', t', root, Cells(s)) && Short(c', t', h') && InOrder(Plug(c', t')) == InOrder(Plug(c, t))
      ensures done ==> c'.Top?
      ensures !done ==> Root(t') == parent && (Depth(c') < Depth(c) || (Depth(c') == Depth(c) && IsRed(t')))
    {
      HasSibling(c, t, h);
      ReadAbove(c, t, root, Cells(s));
      var tmp := parent.right;
      ghost var d := c;
      if tmp.color == Red {
        RemoveColorRedLeft(parent, tmp, c, t, h, s);
        RedSiblingShortL(c, t, h);
        d := RedSiblingL(c);
        ReadAbove(d, t, root, Cells(s));
        tmp := parent.right;
      }
      done, c', t', h' := RemoveColorBlackLeft(parent, tmp, d, t, h, s);
    }

    // ---------- RB_REMOVE_COLOR, the node that is short being a right child ----------

    /** Its sibling `tmp` is red: a rotation gives it a black one. */
    method RemoveColorRedRight(parent: Node<K>, tmp: Node<K>, ghost c: Ctx<K>, ghost t: Tree<K>, ghost h: nat,
                               ghost s: set<Node<K>>)
      requires Zip(c, t, root, Cells(s)) && Short(c, t, h) && c.InR? && IsRed(c.sib) && parent == c.n && tmp == c.sib.n
      modifies this`root, s
      ensures Zip(RedSiblingR(c), t, root, Cells(s)) && InOrder(Plug(RedSiblingR(c), t)) == InOrder(Plug(c, t))
    {
      RedSiblingPaintR(c, t, root, Cells(s));
      SetBlackRed(tmp, parent, s);
      ghost var root1, m1 := root, Cells(s);
      var _ := RotateRight(parent, s);
      RedSiblingRotatedR(c, t, root1, m1, root, Cells(s));
    }

    /** The sibling is black and so are its children: it turns red and the parent is what is short. */
    method RemoveColorPushRight(tmp: Node<K>, ghost c: Ctx<K>, ghost t: Tree<K>, ghost h: nat, ghost s: set<Node<K>>)
      returns (ghost t': Tree<K>, ghost h': nat)
      requires Zip(c, t, root, Cells(s)) && Short(c, t, h) && c.InR? && c.sib.T? && tmp == c.sib.n
      requires !IsRed(t) && !IsRed(c.sib) && !IsRed(c.sib.l) && !IsRed(c.sib.r)
      modifies s
      ensures Zip(c.up, t', root, Cells(s)) && Short(c.up, t', h') && Root(t') == c.n && IsRed(t') == c.c.Red?
      ensures InOrder(Plug(c.up, t')) == InOrder(Plug(c, t))
    {
      PushUpR(c, t, h, root, Cells(s));
      SetColor(tmp, Red, s);
      t' := Up(InR(c.up, c.n, c.c, c.sib.(c := Red)), t);
      h' := if IsRed(t') then h else h + 1;
    }

    /** Only the sibling's near child is red: a rotation at the sibling moves it to the far side. */
    method RemoveColorNearRight(tmp: Node<K>, ghost c: Ctx<K>, ghost t: Tree<K>, ghost h: nat, ghost s: set<Node<K>>)
      requires Zip(c, t, root, Cells(s)) && Short(c, t, h) && c.InR? && c.sib.T? && tmp == c.sib.n
      requires !IsRed(c.sib) && IsRed(c.sib.r) && !IsRed(c.sib.l)
      modifies this`root, s
      ensures Zip(NearRedR(c), t, root, Cells(s)) && Short(NearRedR(c), t, h)
      ensures InOrder(Plug(NearRedR(c), t)) == InOrder(Plug(c, t))
    {
      ReadAbove(c, t, root, Cells(s));
      NearRedPaintR(c, t, root, Cells(s));
      var near := tmp.right;
      if near != null {
        SetColor(near, Black, s);
      }
      SetColor(tmp, Red, s);
      ghost var root1, m1 := root, Cells(s);
      near := RotateLeft(tmp, s);
      NearRedRotatedR(c, t, h, root1, m1, root, Cells(s));
    }

    /** The colours before the last rotation. */
    method PaintFarRight(parent: Node<K>, tmp: Node<K>, ghost s: set<Node<K>>)
      requires parent in s && tmp in s && tmp.left != null && tmp.left in s
      modifies s
      ensures Cells(s) ==
              Paint(Paint(Paint(old(Cells(s)), tmp, old(parent.color)), parent, Black), old(tmp.left), Black)
    {
      SetColor(tmp, parent.color, s);
      SetColor(parent, Black, s);
      if tmp.left != null {
        SetColor(tmp.left, Black, s);
      }
    }

    /** The sibling's far child is red: a rotation at the parent ends the repair. */
    method RemoveColorFarRight(parent: Node<K>, tmp: Node<K>, ghost c: Ctx<K>, ghost t: Tree<K>, ghost h: nat,
                               ghost s: set<Node<K>>)
      returns (ghost t': Tree<K>)
      requires Zip(c, t, root, Cells(s)) && Short(c, t, h) && c.InR? && c.sib.T? && parent == c.n && tmp == c.sib.n
      requires !IsRed(t) && !IsRed(c.sib) && IsRed(c.sib.l)
      modifies this`root, s
      ensures Zip(Top, t', root, Cells(s)) && Short(Top, t', BlackHeight(t')) && Root(t') == root
      ensures InOrder(t') == InOrder(Plug(c, t))
    {
      FarRedPaintR(c, t, root, Cells(s));
      PaintFarRight(parent, tmp, s);
      ghost var root1, m1 := root, Cells(s);
      var _ := RotateRight(parent, s);
      FarRedRotatedR(c, t, h, root1, m1, root, Cells(s));
      t' := Plug(c.up, RotR(FarRedR(c, t)));
    }

    /** A round with a black sibling; `done` when nothing is left to repair. */
    method RemoveColorBlackRight(parent: Node<K>, sibling: Node<K>, ghost c: Ctx<K>, ghost t: Tree<K>, ghost h: nat,
                                 ghost s: set<Node<K>>)
      returns (done: bool, ghost c': Ctx<K>, ghost t': Tree<K>, ghost h': nat)
      requires Zip(c, t, root, Cells(s)) && Short(c, t, h) && c.InR? && !IsRed(t) && c.sib.T? && !IsRed(c.sib)
      requires parent == c.n && sibling == c.sib.n
      modifies this`root, s
      ensures Zip(c', t', root, Cells(s)) && Short(c', t', h') && InOrder(Plug(c', t')) == InOrder(Plug(c, t))
      ensures c' == if done then Top else c.up
      ensures !done ==> Root(t') == parent && IsRed(t') == c.c.Red?
    {
      var tmp := sibling;
      ReadSibling(c, t, root, Cells(s));
      if (tmp.left == null || tmp.left.color == Black) && (tmp.right == null || tmp.right.color == Black) {
        t', h' := RemoveColorPushRight(tmp, c, t, h, s);
        done, c' := false, c.up;
      } else {
        ghost var d := c;
        if tmp.left == null || tmp.left.color == Black {
          RemoveColorNearRight(tmp, c, t, h, s);
          d := NearRedR(c);
          ReadAbove(d, t, root, Cells(s));
          tmp := parent.left;
        }
        t' := RemoveColorFarRight(parent, tmp, d, t, h, s);
        done, c', h' := true, Top, BlackHeight(t');
      }
    }

    /** A whole round. */
    method RemoveColorRight(parent: Node<K>, ghost c: Ctx<K>, ghost t: Tree<K>, ghost h: nat, ghost s: set<Node<K>>)
      returns (done: bool, ghost c': Ctx<K>, ghost t': Tree<K>, ghost h': nat)
      requires Zip(c, t, root, Cells(s)) && Short(c, t, h) && c.InR? && !IsRed(t) && parent == c.n
      modifies this`root, s
      ensures Zip(c', t', root, Cells(s)) && Short(c', t', h') && InOrder(Plug(c', t')) == InOrder(Plug(c, t))
      ensures done ==> c'.Top?
      ensures !done ==> Root(t') == parent && (Depth(c') < Depth(c) || (Depth(c') == Depth(c) && IsRed(t')))
    {
      HasSibling(c, t, h);
      ReadAbove(c, t, root, Cells(s));
      var tmp := parent.left;
      ghost var d := c;
      if tmp.color == Red {
        RemoveColorRedRight(parent, tmp, c, t, h, s);
        RedSiblingShortR(c, t, h);
        d := RedSiblingR(c);
        ReadAbove(d, t, root, Cells(s));
        tmp := parent.left;
      }
      done, c', t', h' := RemoveColorBlackRight(parent, tmp, d, t, h, s);
    }

    /** After the loop of RB_REMOVE_COLOR. */
    method RemoveColorEnd(elm: Node?<K>, ghost c: Ctx<K>, ghost t: Tree<K>, ghost h: nat, ghost s: set<Node<K>>)
      returns (ghost result: Tree<K>)
      requires Zip(c, t, root, Cells(s)) && Short(c, t, h) && elm == Root(t)
      requires IsRed(t) || elm == root
      modifies s
      ensures Zip(Top, result, root, Cells(s)) && RedBlack(result)
      ensures InOrder(result) == InOrder(Plug(c, t))
    {
      ReadFocus(c, t, root, Cells(s));
      ShortEnds(c, t, h);
      result := t;
      if elm != null {
        Painted(c, t, root, Cells(s), Black);
        PlugInOrder(c, t, t.(c := Black));
        SetColor(elm, Black, s);
        ZipUp(c, t.(c := Black), root, Cells(s));
        result := Plug(c, t.(c := Black));
      }
    }

    /** RB_REMOVE_COLOR: the subtree below `parent` is short by one black node. */
    method RemoveColor(parent0: Node?<K>, elm0: Node?<K>, ghost c0: Ctx<K>, ghost t0: Tree<K>, ghost h0: nat,
                       ghost s: set<Node<K>>)
      returns (ghost result: Tree<K>, ghost repairs: nat)
      requires Zip(c0, t0, root, Cells(s)) && Short(c0, t0, h0) && elm0 == Root(t0) && parent0 == Above(c0)
      modifies this`root, s
      ensures Zip(Top, result, root, Cells(s)) && RedBlack(result)
      ensures InOrder(result) == InOrder(Plug(c0, t0)) && repairs <= Depth(c0) + 1
    {
      var parent, elm := parent0, elm0;
      repairs := 0;
      ghost var c, t, h := c0, t0, h0;
      while (elm == null || elm.color == Black) && elm != root
        invariant Zip(c, t, root, Cells(s)) && Short(c, t, h) && elm == Root(t) && parent == Above(c)
        invariant InOrder(Plug(c, t)) == InOrder(Plug(c0, t0))
        invariant repairs + Depth(c) <= Depth(c0) + if IsRed(t) then 1 else 0
        decreases Depth(c), if IsRed(t) then 0 else 1
      {
        repairs := repairs + 1;
        var done;
        ReadFocus(c, t, root, Cells(s));
        ReadAbove(c, t, root, Cells(s));
        if parent.left == elm {
          done, c, t, h := RemoveColorLeft(parent, c, t, h, s);
        } else {
          done, c, t, h := RemoveColorRight(parent, c, t, h, s);
        }
        if done {
          elm := root;
          break;
        }
        elm := parent;
        ReadFocus(c, t, root, Cells(s));
        parent := elm.parent;
      }
      result := RemoveColorEnd(elm, c, t, h, s);
    }

    // ---------- RB_REMOVE ----------

    /** Makes way for the only child of `elm`. */
    method SpliceOut(elm: Node<K>, child: Node?<K>, parent: Node?<K>, ghost c: Ctx<K>, ghost t: Tree<K>,
                     ghost b: Tree<K>, ghost s: set<Node<K>>)
      requires Zip(c, t, root, Cells(s)) && OnlyChild(t, b) && elm == t.n && child == Root(b) && parent == Above(c)
      modifies this`root, s
      ensures Zip(c, b, root, Cells(s - {elm}))
    {
      ghost var m := Cells(s);
      ReadSplice(c, t, b, root, m);
      if child != null {
        child.parent := parent;
      }
      if parent != null {
        if parent.left == elm {
          parent.left := child;
        } else {
          parent.right := child;
        }
      } else {
        root := child;
      }
      SpliceLinks(c, t, b, old(root), m, root, Cells(s - {elm}));
    }

    /** Puts `elm` in the place of `gone`: its links, its colour, and its neighbours' links. */
    method ReplaceNode(gone: Node<K>, elm: Node<K>, ghost s: set<Node<K>>)
      requires CanReplace(gone, Cells(s)) && Cells(s)[gone].left != null && elm !in s
      modifies this`root, elm, s
      ensures Replaced(gone, elm, old(root), old(Cells(s)), root, Cells(s - {gone} + {elm}))
    {
      elm.left, elm.right, elm.parent, elm.color := gone.left, gone.right, gone.parent, gone.color;
      if gone.parent != null {
        if gone.parent.left == gone {
          gone.parent.left := elm;
        } else {
          gone.parent.right := elm;
        }
      } else {
        root := elm;
      }
      gone.left.parent := elm;
      if gone.right != null {
        gone.right.parent := elm;
      }
    }

    /** The end of RB_REMOVE: only a black node leaves something to repair. */
    method RemoveFinish(color: Color, parent: Node?<K>, child: Node?<K>, ghost c: Ctx<K>, ghost t: Tree<K>,
                        ghost h: int, ghost s: set<Node<K>>)
      returns (ghost result: Tree<K>, ghost repairs: nat)
      requires Zip(c, t, root, Cells(s)) && child == Root(t) && parent == Above(c)
      requires color.Red? ==> RedBlack(Plug(c, t))
      requires color.Black? ==> h >= 0 && Short(c, t, h)
      modifies this`root, s
      ensures Zip(Top, result, root, Cells(s)) && RedBlack(result) && InOrder(result) == InOrder(Plug(c, t))
      ensures repairs <= Depth(c) + 1
    {
      if color == Black {
        result, repairs := RemoveColor(parent, child, c, t, h, s);
      } else {
        repairs := 0;
        result := Plug(c, t);
        ZipUp(c, t, root, Cells(s));
      }
    }

    /** RB_REMOVE of a node with at most one child. */
    method RemoveSimple(elm: Node<K>, child: Node?<K>, ghost c: Ctx<K>, ghost t: Tree<K>, ghost b: Tree<K>,
                        ghost s: set<Node<K>>)
      returns (ghost result: Tree<K>, ghost repairs: nat)
      requires Zip(c, t, root, Cells(s)) && RedBlack(Plug(c, t)) && OnlyChild(t, b) && elm == t.n && child == Root(b)
      modifies this`root, s
      ensures Zip(Top, result, root, Cells(s - {elm})) && RedBlack(result)
      ensures InOrder(result) == InOrder(Plug(c, b)) && repairs <= Depth(c) + 1
    {
      ReadFocus(c, t, root, Cells(s));
      var parent := elm.parent;
      var color := elm.color;
      RedBlackUnplug(c, t);
      SpliceColors(c, t, b, BlackHeight(t));
      SpliceOut(elm, child, parent, c, t, b, s);
      result, repairs := RemoveFinish(color, parent, child, c, b, BlackHeight(t) - 1, s - {elm});
    }

    /** The walk of RB_REMOVE and RB_NEXT from the right child `first` to the left-most node of its subtree. */
    method Leftmost(first: Node<K>, ghost b: Ctx<K>, ghost t: Tree<K>, ghost s: set<Node<K>>)
      returns (elm: Node<K>, ghost p: Ctx<K>, ghost u: Tree<K>, ghost steps: nat)
      requires Zip(b, t, root, Cells(s)) && Root(t) == first
      ensures Plug(p, u) == t && LeftSpine(p) && Root(u) == elm && u.l.E?
      ensures Zip(Graft(p, b), u, root, Cells(s)) && Plug(Graft(p, b), u) == Plug(b, t)
      ensures steps == Depth(p)
    {
      elm, p, u, steps := first, Top, t, 0;
      ghost var m := Cells(s);
      while elm.left != null
        invariant Cells(s) == m
        invariant Zip(Graft(p, b), u, root, m) && Root(u) == elm && LeftSpine(p) && Plug(p, u) == t
        invariant steps == Depth(p)
        decreases u
      {
        steps := steps + 1;
        elm := elm.left;
        p, u := InL(p, u.n, u.c, u.r), u.l;
        FocusUp(Graft(p, b), u, root, m);
      }
      GraftPlug(p, b, u);
    }

    /** The walk to the successor of a node with two children. */
    method Successor(gone: Node<K>, ghost c: Ctx<K>, ghost t: Tree<K>, ghost s: set<Node<K>>)
      returns (elm: Node<K>, ghost p: Ctx<K>, ghost u: Tree<K>, ghost steps: nat)
      requires Zip(c, t, root, Cells(s)) && Root(t) == gone && t.l.T? && t.r.T?
      ensures t.r == Plug(p, u) && LeftSpine(p) && Root(u) == elm && u.l.E?
      ensures var d := Graft(p, InR(c, gone, t.c, t.l));
              Zip(d, u, root, Cells(s)) && Plug(d, u) == Plug(c, t) && elm in s && elm.parent == Above(d)
      ensures elm.right == Root(u.r) && elm.color == u.c && steps == Depth(p)
    {
      ghost var b := InR(c, gone, t.c, t.l);
      FocusUp(b, t.r, root, Cells(s));
      ReadFocus(b, t.r, root, Cells(s));
      elm, p, u, steps := Leftmost(gone.right, b, t.r, s);
      ReadFocus(Graft(p, b), u, root, Cells(s));
    }

    /** RB_REMOVE of a node with two children: its successor is spliced out and takes its place. */
    method RemoveInner(gone: Node<K>, ghost c: Ctx<K>, ghost t: Tree<K>, ghost s: set<Node<K>>)
      returns (ghost result: Tree<K>, ghost p: Ctx<K>, ghost u: Tree<K>, ghost steps: nat, ghost repairs: nat)
      requires Zip(c, t, root, Cells(s)) && RedBlack(Plug(c, t)) && Root(t) == gone && t.l.T? && t.r.T?
      modifies this`root, s
      ensures Zip(Top, result, root, Cells(s - {gone})) && RedBlack(result)
      ensures t.r == Plug(p, u) && LeftSpine(p) && u.T? && u.l.E?
      ensures InOrder(result) == InOrder(Plug(c, T(t.l, u.n, t.c, Plug(p, u.r))))
      ensures steps == Depth(p) && repairs <= Depth(p) + Depth(c) + 2
    {
      var elm;
      elm, p, u, steps := Successor(gone, c, t, s);
      SuccessorColors(p, c, gone, t.c, t.l, u);
      var parent, child, color := SpliceSuccessor(gone, elm, c, t.l, t.c, p, u, s);
      result, repairs := FinishInner(gone, elm, parent, child, color, c, t.l, t.c, p, u.r, BlackHeight(u) - 1, s);
    }

    /** The spliced-out successor takes the place of `gone`, and the colours are repaired. */
    method FinishInner(gone: Node<K>, elm: Node<K>, parent: Node?<K>, child: Node?<K>, color: Color, ghost c: Ctx<K>,
                       ghost l: Tree<K>, ghost col: Color, ghost p: Ctx<K>, ghost r: Tree<K>, ghost h: int,
                       ghost s: set<Node<K>>)
      returns (ghost result: Tree<K>, ghost repairs: nat)
      requires gone in s && elm in s && gone != elm && l.T? &&
               Zip(Graft(p, InR(c, gone, col, l)), r, root, Cells(s - {elm}))
      requires parent == Above(Graft(p, InR(c, elm, col, l))) && child == Root(r)
      requires color.Red? ==> RedBlack(Plug(Graft(p, InR(c, elm, col, l)), r))
      requires color.Black? ==> h >= 0 && Short(Graft(p, InR(c, elm, col, l)), r, h)
      modifies this`root, s
      ensures Zip(Top, result, root, Cells(s - {gone})) && RedBlack(result)
      ensures InOrder(result) == InOrder(Plug(c, T(l, elm, col, Plug(p, r))))
      ensures repairs <= Depth(p) + Depth(c) + 2
    {
      Transplant(gone, elm, c, l, col, p, r, s - {elm}, s - {gone});
      result, repairs := RemoveFinish(color, parent, child, Graft(p, InR(c, elm, col, l)), r, h, s - {gone});
      GraftDepth(p, InR(c, elm, col, l));
      GraftPlug(p, InR(c, elm, col, l), r);
    }

    /** The successor is spliced out; `parent` is above its child once it stands in the place of `gone`. */
    method SpliceSuccessor(gone: Node<K>, elm: Node<K>, ghost c: Ctx<K>, ghost l: Tree<K>, ghost col: Color,
                           ghost p: Ctx<K>, ghost u: Tree<K>, ghost s: set<Node<K>>)
      returns (parent: Node?<K>, child: Node?<K>, color: Color)
      requires Zip(Graft(p, InR(c, gone, col, l)), u, root, Cells(s)) && Root(u) == elm && u.l.E?
      requires elm in s && elm.parent == Above(Graft(p, InR(c, gone, col, l))) && elm.right == Root(u.r) &&
               elm.color == u.c
      modifies this`root, s
      ensures Zip(Graft(p, InR(c, gone, col, l)), u.r, root, Cells(s - {elm}))
      ensures parent == Above(Graft(p, InR(c, elm, col, l))) && child == Root(u.r) && color == u.c
    {
      child := elm.right;
      parent := elm.parent;
      color := elm.color;
      GraftAbove(p, c, gone, col, l);
      SpliceOut(elm, child, parent, Graft(p, InR(c, gone, col, l)), u, u.r, s);
      if parent == gone {
        parent := elm;
      }
    }

    /** The spliced-out successor `elm` takes the place of `gone`. */
    method Transplant(gone: Node<K>, elm: Node<K>, ghost c: Ctx<K>, ghost l: Tree<K>, ghost col: Color,
                      ghost p: Ctx<K>, ghost r: Tree<K>, ghost s: set<Node<K>>, ghost s': set<Node<K>>)
      requires s' == s - {gone} + {elm}
      requires l.T? && elm !in s && Zip(Graft(p, InR(c, gone, col, l)), r, root, Cells(s))
      modifies this`root, elm, s
      ensures Zip(Graft(p, InR(c, elm, col, l)), r, root, Cells(s'))
    {
      ghost var root0, m, t := root, Cells(s), T(l, gone, col, Plug(p, r));
      GraftFocus(p, c, l, gone, col, r, root0, m);
      ReadReplace(c, t, root0, m);
      ReplaceNode(gone, elm, s);
      ghost var m' := Cells(s');
      ReplaceLinks(c, t, elm, root0, m, root, m');
      GraftFocus(p, c, l, elm, col, r, root, m');
    }

    /** The cases of RB_REMOVE, the node being at the place `c`, `t`. */
    method RemoveAt(elm: Node<K>, ghost c: Ctx<K>, ghost t: Tree<K>, ghost s: set<Node<K>>)
      returns (ghost t': Tree<K>, ghost steps: nat, ghost repairs: nat)
      requires Zip(c, t, root, Cells(s)) && RedBlack(Plug(c, t)) && Root(t) == elm
      modifies this`root, s
      ensures Zip(Top, t', root, Cells(s - {elm})) && RedBlack(t')
      ensures var a, b := Before(c) + InOrder(t.l), InOrder(t.r) + After(c);
              InOrder(Plug(c, t)) == a + [elm] + b && InOrder(t') == a + b
      ensures steps <= Depth(c) + Height(t) && repairs <= Depth(c) + Height(t)
    {
      ReadReplace(c, t, root, Cells(s));
      steps := 0;
      if elm.left == null {
        t', repairs := RemoveSimple(elm, elm.right, c, t, t.r, s);
        SpliceOrder(c, t.l, elm, t.c, t.r, t.r);
      } else if elm.right == null {
        t', repairs := RemoveSimple(elm, elm.left, c, t, t.l, s);
        SpliceOrder(c, t.l, elm, t.c, t.r, t.l);
      } else {
        ghost var p, u;
        t', p, u, steps, repairs := RemoveInner(elm, c, t, s);
        DepthInHeight(p, u);
        SuccessorOrder(c, t.l, elm, t.c, p, u);
      }
    }

    /** RB_REMOVE: unlinks `elm` and returns it; `steps` counts the rounds of the walk to the successor, `repairs`
        those of RB_REMOVE_COLOR. */
    method Remove(elm: Node<K>) returns (removed: Node<K>, ghost steps: nat, ghost repairs: nat)
      requires Valid() && elm in Nodes(tree)
      modifies this, Nodes(tree)
      ensures Valid() && removed == elm && Removed(old(Elements()), elm, Elements())
      ensures Logarithmic(steps, |old(Elements())|) && Logarithmic(repairs, |old(Elements())|)
    {
      ghost var s := Nodes(tree);
      ghost var c, t := FindFocus(tree, elm);
      ZipUp(c, t, root, Cells(s));
      ghost var t';
      t', steps, repairs := RemoveAt(elm, c, t, s);
      WalkBound(c, t, tree, steps);
      WalkBound(c, t, tree, repairs);
      SortedRemove(cmp, Before(c) + InOrder(t.l), elm, InOrder(t.r) + After(c));
      Adopt(t', s - {elm});
      removed := elm;
    }

    // ---------- lookups ----------

    /** RB_FIND.  `steps` counts the rounds of its loop. */
    method Find(elm: Node<K>) returns (found: Node?<K>, ghost steps: nat)
      requires Valid()
      ensures found != null ==> found in Elements() && cmp(elm.key, found.key) == 0
      ensures found == null ==> forall n | n in Elements() :: cmp(elm.key, n.key) != 0
      ensures Logarithmic(steps, |Elements()|)
    {
      var tmp := root;
      found, steps := null, 0;
      ghost var c, t, m := Top, tree, Cells(Nodes(tree));
      while tmp != null
        invariant Cells(Nodes(tree)) == m && Walking(cmp, elm.key, c, t, tree, root, m)
        invariant Root(t) == tmp && steps == Depth(c) && found == null
        decreases t
      {
        steps := steps + 1;
        var comp := cmp(elm.key, tmp.key);
        if comp < 0 {
          WalkLeft(cmp, elm.key, c, t, tree, root, m);
          tmp := tmp.left;
          c, t := InL(c, t.n, t.c, t.r), t.l;
        } else if comp > 0 {
          WalkRight(cmp, elm.key, c, t, tree, root, m);
          tmp := tmp.right;
          c, t := InR(c, t.n, t.c, t.l), t.r;
        } else {
          found := tmp;
          break;
        }
      }
      WalkEnds(cmp, elm.key, c, t, tree, root, m);
      WalkBound(c, t, tree, steps);
    }

    /** RB_NFIND: the least stored node that is not below `elm`. */
    method NFind(elm: Node<K>) returns (res: Node?<K>, ghost steps: nat)
      requires Valid()
      ensures res == null ==> forall n | n in Elements() :: cmp(elm.key, n.key) > 0
      ensures res != null ==> res in Elements() && cmp(elm.key, res.key) <= 0
      ensures res != null ==> forall n | n in Elements() && cmp(elm.key, n.key) <= 0 :: cmp(res.key, n.key) <= 0
      ensures Logarithmic(steps, |Elements()|)
    {
      var tmp := root;
      res, steps := null, 0;
      ghost var c, t, m := Top, tree, Cells(Nodes(tree));
      while tmp != null
        invariant Cells(Nodes(tree)) == m && Walking(cmp, elm.key, c, t, tree, root, m)
        invariant Root(t) == tmp && steps == Depth(c) && res == First(After(c))
        decreases t
      {
        steps := steps + 1;
        var comp := cmp(elm.key, tmp.key);
        if comp < 0 {
          WalkLeft(cmp, elm.key, c, t, tree, root, m);
          res := tmp;
          tmp := tmp.left;
          c, t := InL(c, t.n, t.c, t.r), t.l;
        } else if comp > 0 {
          WalkRight(cmp, elm.key, c, t, tree, root, m);
          tmp := tmp.right;
          c, t := InR(c, t.n, t.c, t.l), t.r;
        } else {
          res := tmp;
          break;
        }
      }
      WalkBound(c, t, tree, steps);
      WalkEnds(cmp, elm.key, c, t, tree, root, m);
      if tmp == null {
        LeastFrom(cmp, Before(c), After(c), elm.key);
      } else {
        EqualIsLeast(cmp, InOrder(tree), res, elm.key);
      }
    }

    /** RB_NEXT: the stored node after `elm` in key order. */
    method Next(start: Node<K>) returns (elm: Node?<K>, ghost steps: nat)
      requires Valid() && start in Nodes(tree)
      ensures Valid() && Follows(Elements(), start, elm)
      ensures Logarithmic(steps, |Elements()|)
    {
      ghost var s, m := Nodes(tree), Cells(Nodes(tree));
      ghost var c, t := FindFocus(tree, start);
      ZipUp(c, t, root, m);
      OrderAt(c, t.l, start, t.c, t.r);
      elm, steps := NextAt(start, c, t, s);
      WalkBound(c, t, tree, steps);
      FollowsAt(Before(c) + InOrder(t.l), start, InOrder(t.r) + After(c));
    }

    /** The two ways of RB_NEXT, the node being at the place `c`, `t`. */
    method NextAt(start: Node<K>, ghost c: Ctx<K>, ghost t: Tree<K>, ghost s: set<Node<K>>)
      returns (elm: Node?<K>, ghost steps: nat)
      requires Zip(c, t, root, Cells(s)) && Root(t) == start
      ensures elm == First(InOrder(t.r) + After(c)) && steps <= Depth(c) + Height(t)
    {
      ReadReplace(c, t, root, Cells(s));
      elm := start;
      if elm.right != null {
        FocusUp(InR(c, t.n, t.c, t.l), t.r, root, Cells(s));
        ghost var p, u;
        elm, p, u, steps := Leftmost(elm.right, InR(c, t.n, t.c, t.l), t.r, s);
        SpineOrder(p, u);
        DepthInHeight(p, u);
      } else {
        elm, steps := NextAbove(elm, c, t, s);
        assert InOrder(t.r) + After(c) == After(c);
      }
    }

    /** The climb of RB_NEXT: the first ancestor of which `elm` lies to the left. */
    method NextAbove(start: Node<K>, ghost c0: Ctx<K>, ghost t0: Tree<K>, ghost s: set<Node<K>>)
      returns (elm: Node?<K>, ghost steps: nat)
      requires Zip(c0, t0, root, Cells(s)) && Root(t0) == start
      ensures elm == First(After(c0)) && steps <= Depth(c0)
    {
      steps := 0;
      ghost var c, t, m := c0, t0, Cells(s);
      elm := start;
      ReadFocus(c, t, root, m);
      if !c.Top? { ReadAbove(c, t, root, m); }
      if elm.parent != null && elm == elm.parent.left {
        elm := elm.parent;
      } else {
        while elm.parent != null && elm == elm.parent.right
          invariant Cells(s) == m && Zip(c, t, root, m)
          invariant elm != null && Root(t) == elm && After(c) == After(c0)
          invariant !c.Top? ==> c.n in s
          invariant steps + Depth(c) == Depth(c0)
          decreases Depth(c)
        {
          steps := steps + 1;
          ReadFocus(c, t, root, m);
          ReadAbove(c, t, root, m);
          elm := elm.parent;
          FocusUp(c, t, root, m);
          c, t := c.up, Up(c, t);
          if !c.Top? { ReadAbove(c, t, root, m); }
        }
        ReadFocus(c, t, root, m);
        if !c.Top? { ReadAbove(c, t, root, m); }
        elm := elm.parent;
      }
    }

    /** RB_MINMAX: the least stored node for a negative `val`, the greatest one otherwise. */
    method MinMax(val: int) returns (parent: Node?<K>, ghost steps: nat)
      requires Valid()
      ensures Valid()
      ensures parent == if val < 0 then First(Elements()) else Last(Elements())
      ensures Logarithmic(steps, |Elements()|)
    {
      var tmp := root;
      parent, steps := null, 0;
      ghost var c, t, m := Top, tree, Cells(Nodes(tree));
      while tmp != null
        invariant Cells(Nodes(tree)) == m && Zip(c, t, root, m) && Plug(c, t) == tree && Root(t) == tmp
        invariant parent == Above(c) && steps == Depth(c)
        invariant if val < 0 then Before(c) == [] && parent == First(After(c))
                  else After(c) == [] && parent == Last(Before(c))
        decreases t
      {
        steps := steps + 1;
        parent := tmp;
        if val < 0 {
          tmp := tmp.left;
          c, t := InL(c, t.n, t.c, t.r), t.l;
        } else {
          tmp := tmp.right;
          c, t := InR(c, t.n, t.c, t.l), t.r;
        }
        FocusUp(c, t, root, m);
      }
      InOrderPlug(c, t);
      WalkBound(c, t, tree, steps);
      assert Elements() == Before(c) + After(c);
    }

    /** RB_FOREACH visits every stored node once, in key order, and ends. */
    method ForEach() returns (visited: seq<Node<K>>)
      requires Valid()
      ensures visited == Elements()
    {
      visited := [];
      var x;
      ghost var steps;
      x, steps := MinMax(-1);
      ghost var els := Elements();
      assert els[0..] == els;
      while x != null
        invariant Valid() && Elements() == els && |visited| <= |els|
        invariant visited == els[..|visited|] && x == First(els[|visited|..])
        decreases |els| - |visited|
      {
        ghost var k := |visited|;
        assert els[k..][0] == els[k] == x;
        assert x in Nodes(tree) by { InOrderNodes(tree); assert x in els; }
        visited := visited + [x];
        x, steps := Next(x);
        NextIs(cmp, els, k, x);
      }
    }
  }
}
