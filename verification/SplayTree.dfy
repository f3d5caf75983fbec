/** The splay half of tree.h: SPLAY_HEAD with the operations SPLAY_GENERATE defines. */
module SplayTree {
  import opened Order
  import opened Edits
  import opened SplayShape
  import opened SplaySpec
  import opened SplayStep
  import opened SplayOrder

  class SplayTree<K(!new)> {
    const cmp: (K, K) -> int
    var root: SNode?<K>
    ghost var tree: Tree<K>

    method SetLeft(n: SNode<K>, v: SNode?<K>, ghost u: set<SNode<K>>)
      requires n in u
      modifies n
      ensures Cells(u) == old(Cells(u))[n := old(Cells(u))[n].(left := v)]
    {
      n.left := v;
    }

    method SetRight(n: SNode<K>, v: SNode?<K>, ghost u: set<SNode<K>>)
      requires n in u
      modifies n
      ensures Cells(u) == old(Cells(u))[n := old(Cells(u))[n].(right := v)]
    {
      n.right := v;
    }

    method TurnLinksLeft(x: SNode<K>, y: SNode<K>, ghost u: set<SNode<K>>)
      requires x in u && y in u && x != y
      modifies x, y
      ensures Cells(u) == TurnedL(old(Cells(u)), x, y)
    {
      SetRight(x, y.left, u);
      SetLeft(y, x, u);
    }

    method TurnLinksRight(x: SNode<K>, y: SNode<K>, ghost u: set<SNode<K>>)
      requires x in u && y in u && x != y
      modifies x, y
      ensures Cells(u) == TurnedR(old(Cells(u)), x, y)
    {
      SetLeft(x, y.right, u);
      SetRight(y, x, u);
    }

    /** One round of SPLAY towards the left; `done` when there is nothing further left. */
    method TurnLeft(elm: SNode<K>, right: SNode<K>, ghost w: Work<K>, ghost u: set<SNode<K>>)
      returns (done: bool, right': SNode<K>, ghost w': Work<K>)
      requires Going(w, root, Cells(u)) && w.t.T? && right == Last(w.right, w.d)
      requires IsOrder(cmp) && Sorted(cmp, All(w)) && Sided(cmp, elm.key, w) && cmp(elm.key, w.t.n.key) < 0
      modifies this`root, u
      ensures Going(w', root, Cells(u)) && w'.t.T? && right' == Last(w'.right, w'.d) && w'.left == w.left && w'.d == w.d
      ensures All(w') == All(w) && Sided(cmp, elm.key, w')
      ensures done ==> Stuck(cmp, elm.key, w'.t)
      ensures !done ==> |InOrder(w'.t)| < |InOrder(w.t)|
      ensures Outcome(cmp, elm.key, w) == if done then Assembled(w') else Outcome(cmp, elm.key, w')
      ensures Rounds(cmp, elm.key, w.t) == 1 + if done then 0 else Rounds(cmp, elm.key, w'.t)
    {
      done, right', w' := false, right, w;
      ReadRoot(w, root, Cells(u));
      var tmp := root.left;
      if tmp == null {
        done := true;
        return;
      }
      if cmp(elm.key, tmp.key) < 0 {
        w' := RotateRight(tmp, w, u);
        ReadRoot(w', root, Cells(u));
        if root.left == null {
          done := true;
          return;
        }
      }
      right', w' := LinkLeftSided(elm, right, w', u);
      RoundLeft(cmp, elm.key, w, w');
    }

    method LinkLeftSided(elm: SNode<K>, right: SNode<K>, ghost w: Work<K>, ghost u: set<SNode<K>>)
      returns (right': SNode<K>, ghost w': Work<K>)
      requires Going(w, root, Cells(u)) && w.t.T? && w.t.l.T? && right == Last(w.right, w.d)
      requires IsOrder(cmp) && Sorted(cmp, All(w)) && Sided(cmp, elm.key, w) && cmp(elm.key, w.t.n.key) < 0
      modifies this`root, u
      ensures w' == LinkedL(w) && Going(w', root, Cells(u)) && w'.t.T? && right' == Last(w'.right, w'.d)
      ensures All(w') == All(w) && Sided(cmp, elm.key, w') && |InOrder(w'.t)| < |InOrder(w.t)|
    {
      LinkSidedL(cmp, elm.key, w);
      right', w' := LinkLeft(right, w, u);
    }

    /** SPLAY_ROTATE_RIGHT. */
    method RotateRight(tmp: SNode<K>, ghost w: Work<K>, ghost u: set<SNode<K>>) returns (ghost w': Work<K>)
      requires Going(w, root, Cells(u)) && w.t.T? && w.t.l.T? && tmp == w.t.l.n
      modifies this`root, u
      ensures w' == w.(t := RotatedR(w.t)) && Going(w', root, Cells(u)) && InOrder(w'.t) == InOrder(w.t)
    {
      ghost var m := Cells(u);
      ReadRoot(w, root, m);
      TurnLinksRight(root, tmp, u);
      RotateRStep(w, root, m, Cells(u));
      root := tmp;
      w' := w.(t := RotatedR(w.t));
    }

    /** SPLAY_LINKLEFT. */
    method LinkLeft(right: SNode<K>, ghost w: Work<K>, ghost u: set<SNode<K>>)
      returns (right': SNode<K>, ghost w': Work<K>)
      requires Going(w, root, Cells(u)) && w.t.T? && w.t.l.T? && right == Last(w.right, w.d)
      modifies this`root, u
      ensures w' == LinkedL(w) && Going(w', root, Cells(u)) && right' == w.t.n && All(w') == All(w)
      ensures |InOrder(w'.t)| < |InOrder(w.t)|
    {
      ghost var m := Cells(u);
      ReadRoot(w, root, m);
      SetLeft(right, root, u);
      right' := root;
      LinkLStep(w, root, m, Cells(u));
      root := root.left;
      w' := LinkedL(w);
    }

    /** One round of SPLAY towards the right; `done` when there is nothing further right. */
    method TurnRight(elm: SNode<K>, left: SNode<K>, ghost w: Work<K>, ghost u: set<SNode<K>>)
      returns (done: bool, left': SNode<K>, ghost w': Work<K>)
      requires Going(w, root, Cells(u)) && w.t.T? && left == Last(w.left, w.d)
      requires IsOrder(cmp) && Sorted(cmp, All(w)) && Sided(cmp, elm.key, w) && cmp(elm.key, w.t.n.key) > 0
      modifies this`root, u
      ensures Going(w', root, Cells(u)) && w'.t.T? && left' == Last(w'.left, w'.d) && w'.right == w.right && w'.d == w.d
      ensures All(w') == All(w) && Sided(cmp, elm.key, w')
      ensures done ==> Stuck(cmp, elm.key, w'.t)
      ensures !done ==> |InOrder(w'.t)| < |InOrder(w.t)|
      ensures Outcome(cmp, elm.key, w) == if done then Assembled(w') else Outcome(cmp, elm.key, w')
      ensures Rounds(cmp, elm.key, w.t) == 1 + if done then 0 else Rounds(cmp, elm.key, w'.t)
    {
      done, left', w' := false, left, w;
      ReadRoot(w, root, Cells(u));
      var tmp := root.right;
      if tmp == null {
        done := true;
        return;
      }
      if cmp(elm.key, tmp.key) > 0 {
        w' := RotateLeft(tmp, w, u);
        ReadRoot(w', root, Cells(u));
        if root.right == null {
          done := true;
          return;
        }
      }
      left', w' := LinkRightSided(elm, left, w', u);
      RoundRight(cmp, elm.key, w, w');
    }

    method LinkRightSided(elm: SNode<K>, left: SNode<K>, ghost w: Work<K>, ghost u: set<SNode<K>>)
      returns (left': SNode<K>, ghost w': Work<K>)
      requires Going(w, root, Cells(u)) && w.t.T? && w.t.r.T? && left == Last(w.left, w.d)
      requires IsOrder(cmp) && Sorted(cmp, All(w)) && Sided(cmp, elm.key, w) && cmp(elm.key, w.t.n.key) > 0
      modifies this`root, u
      ensures w' == LinkedR(w) && Going(w', root, Cells(u)) && w'.t.T? && left' == Last(w'.left, w'.d)
      ensures All(w') == All(w) && Sided(cmp, elm.key, w') && |InOrder(w'.t)| < |InOrder(w.t)|
    {
      LinkSidedR(cmp, elm.key, w);
      left', w' := LinkRight(left, w, u);
    }

    /** SPLAY_ROTATE_LEFT. */
    method RotateLeft(tmp: SNode<K>, ghost w: Work<K>, ghost u: set<SNode<K>>) returns (ghost w': Work<K>)
      requires Going(w, root, Cells(u)) && w.t.T? && w.t.r.T? && tmp == w.t.r.n
      modifies this`root, u
      ensures w' == w.(t := RotatedL(w.t)) && Going(w', root, Cells(u)) && InOrder(w'.t) == InOrder(w.t)
    {
      ghost var m := Cells(u);
      ReadRoot(w, root, m);
      TurnLinksLeft(root, tmp, u);
      RotateLStep(w, root, m, Cells(u));
      root := tmp;
      w' := w.(t := RotatedL(w.t));
    }

    /** SPLAY_LINKRIGHT. */
    method LinkRight(left: SNode<K>, ghost w: Work<K>, ghost u: set<SNode<K>>)
      returns (left': SNode<K>, ghost w': Work<K>)
      requires Going(w, root, Cells(u)) && w.t.T? && w.t.r.T? && left == Last(w.left, w.d)
      modifies this`root, u
      ensures w' == LinkedR(w) && Going(w', root, Cells(u)) && left' == w.t.n && All(w') == All(w)
      ensures |InOrder(w'.t)| < |InOrder(w.t)|
    {
      ghost var m := Cells(u);
      ReadRoot(w, root, m);
      SetRight(left, root, u);
      left' := root;
      LinkRStep(w, root, m, Cells(u));
      root := root.right;
      w' := LinkedR(w);
    }

    /** SPLAY_ASSEMBLE. */
    method Assemble(node: SNode<K>, left: SNode<K>, right: SNode<K>, ghost w: Work<K>, ghost u: set<SNode<K>>)
      requires Going(w, root, Cells(u)) && w.t.T? && node == w.d && left == Last(w.left, w.d) &&
               right == Last(w.right, w.d)
      modifies u
      ensures Linked(Assembled(w), root, Cells(u - {node}))
    {
      ghost var m := Cells(u);
      ReadRoot(w, root, m);
      SetRight(left, root.left, u);
      SetLeft(right, root.right, u);
      ghost var m1 := Cells(u);
      AssembleSpines(w, root, m, m1);
      SetLeft(root, node.right, u);
      SetRight(root, node.left, u);
      AssembleStep(w, root, m, m1, Cells(u - {node}));
    }

    /** One round of SPLAY. */
    method Turn(elm: SNode<K>, left: SNode<K>, right: SNode<K>, ghost w: Work<K>, ghost t: Tree<K>, ghost rounds: nat,
                ghost u: set<SNode<K>>)
      returns (done: bool, left': SNode<K>, right': SNode<K>, ghost w': Work<K>)
      requires Going(w, root, Cells(u)) && w.t.T? && left == Last(w.left, w.d) && right == Last(w.right, w.d)
      requires IsOrder(cmp) && Sorted(cmp, InOrder(t)) && cmp(elm.key, w.t.n.key) != 0
      requires Splaying(cmp, elm.key, w, t, rounds)
      modifies this`root, u
      ensures Going(w', root, Cells(u)) && w'.t.T? && w'.d == w.d
      ensures left' == Last(w'.left, w'.d) && right' == Last(w'.right, w'.d)
      ensures done ==> Ended(cmp, elm.key, w', t, rounds + 1)
      ensures !done ==> Splaying(cmp, elm.key, w', t, rounds + 1) && |InOrder(w'.t)| < |InOrder(w.t)|
    {
      left', right' := left, right;
      if cmp(elm.key, root.key) < 0 {
        done, right', w' := TurnLeft(elm, right, w, u);
      } else {
        done, left', w' := TurnRight(elm, left, w, u);
      }
    }

    /** The loop of SPLAY: `w` is the state after it. */
    method Turns(elm: SNode<K>, node: SNode<K>, ghost t: Tree<K>, ghost u: set<SNode<K>>)
      returns (left: SNode<K>, right: SNode<K>, ghost w: Work<K>, ghost rounds: nat)
      requires Going(Work(Base, t, Base, node), root, Cells(u)) && t.T? && IsOrder(cmp) && Sorted(cmp, InOrder(t))
      modifies this`root, u
      ensures Going(w, root, Cells(u)) && w.t.T? && w.d == node
      ensures left == Last(w.left, w.d) && right == Last(w.right, w.d)
      ensures Ended(cmp, elm.key, w, t, rounds)
    {
      left, right := node, node;
      w, rounds := Work(Base, t, Base, node), 0;
      SplayingStarts(cmp, elm.key, t, node);
      while cmp(elm.key, root.key) != 0
        invariant Going(w, root, Cells(u)) && w.t.T? && w.d == node
        invariant left == Last(w.left, w.d) && right == Last(w.right, w.d)
        invariant Splaying(cmp, elm.key, w, t, rounds)
        decreases |InOrder(w.t)|
      {
        var done;
        done, left, right, w := Turn(elm, left, right, w, t, rounds, u);
        rounds := rounds + 1;
        if done {
          return;
        }
      }
      SplayingEnds(cmp, elm.key, w, t, rounds);
    }

    /** SPLAY: moves the node with the key of `elm`, or a neighbour of that key, to the root. */
    method Splay(elm: SNode<K>, ghost t: Tree<K>, ghost s: set<SNode<K>>)
      returns (ghost t': Tree<K>, ghost rounds: nat)
      requires Linked(t, root, Cells(s)) && t.T? && IsOrder(cmp) && Sorted(cmp, InOrder(t))
      modifies this`root, s
      ensures Linked(t', root, Cells(s)) && InOrder(t') == InOrder(t) && Near(cmp, elm.key, t')
      ensures t' == Splayed(cmp, elm.key, t) && rounds == Rounds(cmp, elm.key, t)
    {
      ghost var m := Cells(s);
      var node := new SNode(elm.key);
      ghost var w, u := Work(Base, t, Base, node), s + {node};
      RepFrame(t, m, Cells(u), {});
      var left, right;
      left, right, w, rounds := Turns(elm, node, t, u);
      AssembledNear(cmp, elm.key, w);
      AssembleOrder(w);
      Assemble(node, left, right, w, u);
      assert u - {node} == s;
      t' := Assembled(w);
    }

    ghost predicate Valid()
      reads this, Nodes(tree)
    {
      IsOrder(cmp) && Linked(tree, root, Cells(Nodes(tree))) && Sorted(cmp, Elements())
    }

    /** The stored nodes in key order. */
    ghost function Elements(): seq<SNode<K>>
      reads this`tree
    {
      InOrder(tree)
    }

    /** SPLAY_INIT. */
    constructor (cmp: (K, K) -> int)
      requires IsOrder(cmp)
      ensures Valid() && Elements() == [] && this.cmp == cmp
    {
      this.cmp := cmp;
      root, tree := null, E;
    }

    /** Records the tree that the links of `s` now stand for. */
    ghost method Adopt(t: Tree<K>, s: set<SNode<K>>)
      requires IsOrder(cmp) && Linked(t, root, Cells(s)) && Sorted(cmp, InOrder(t))
      modifies this`tree
      ensures Valid() && tree == t
    {
      ghost var m := Cells(s);
      assert Nodes(t) == s;
      tree := t;
      assert Cells(s) == m;
    }

    /** SPLAY_FIND. */
    method Find(elm: SNode<K>) returns (found: SNode?<K>, ghost rounds: nat)
      requires Valid()
      modifies this, Nodes(tree)
      ensures Valid() && Elements() == old(Elements())
      ensures found != null ==> found == root && found in Elements() && cmp(elm.key, found.key) == 0
      ensures found == null ==> forall n | n in Elements() :: cmp(elm.key, n.key) != 0
      ensures tree == Splayed(cmp, elm.key, old(tree)) && rounds == Rounds(cmp, elm.key, old(tree))
    {
      rounds := 0;
      if root == null {
        return null, rounds;
      }
      ghost var s := Nodes(tree);
      ghost var t;
      t, rounds := Splay(elm, tree, s);
      NearDecides(cmp, elm.key, t);
      Adopt(t, s);
      found := if cmp(elm.key, root.key) == 0 then root else null;
    }

    /** SPLAY_INSERT from the splayed tree `t` on, whose root differs from the key of `elm`. */
    method InsertAtRoot(elm: SNode<K>, ghost t: Tree<K>, ghost s: set<SNode<K>>) returns (ghost t': Tree<K>)
      requires Linked(t, root, Cells(s)) && t.T? && elm !in s && cmp(elm.key, t.n.key) != 0
      modifies this`root, elm, s
      ensures Linked(t', root, Cells(s + {elm})) && t' == WithRoot(t, elm, cmp(elm.key, t.n.key) < 0)
    {
      ghost var m := Cells(s);
      if cmp(elm.key, root.key) < 0 {
        elm.left := root.left;
        elm.right := root;
        root.left := null;
      } else {
        elm.right := root.right;
        elm.left := root;
        root.right := null;
      }
      t' := WithRoot(t, elm, cmp(elm.key, t.n.key) < 0);
      WithRootLinks(t, elm, cmp(elm.key, t.n.key) < 0, root, m, Cells(s + {elm}));
      root := elm;
    }

    /** SPLAY_INSERT: returns the stored node with an equal key, or links `elm` and returns null. */
    method Insert(elm: SNode<K>) returns (found: SNode?<K>, ghost rounds: nat)
      requires Valid()
      modifies this, elm, Nodes(tree)
      ensures Valid()
      ensures found == null ==> Inserted(old(Elements()), elm, Elements())
      ensures found == null ==> forall n | n in old(Elements()) :: cmp(elm.key, n.key) != 0
      ensures found != null ==> found in Elements() && cmp(elm.key, found.key) == 0 && Elements() == old(Elements())
      ensures tree == InsertTree(cmp, elm, old(tree)) && rounds == Rounds(cmp, elm.key, old(tree))
    {
      rounds := 0;
      ghost var s := Nodes(tree);
      ghost var t := tree;
      if root == null {
        elm.left, elm.right := null, null;
        root := elm;
        t := T(E, elm, E);
        assert s == {};
        AddedBetween(cmp, [], elm, []);
        assert InOrder(t) == [] + [elm] + [] && InOrder(tree) == [] + [];
      } else {
        t, rounds := Splay(elm, tree, s);
        NearDecides(cmp, elm.key, t);
        if cmp(elm.key, root.key) == 0 {
              Adopt(t, s);
          return root, rounds;
        }
        InsertedOrder(cmp, t, elm);
        t := InsertAtRoot(elm, t, s);
      }
      Adopt(t, s + {elm});
      found := null;
    }

    /** SPLAY_REMOVE once the key of `elm` is at the root of `t`. */
    method RemoveRoot(elm: SNode<K>, ghost t: Tree<K>, ghost s: set<SNode<K>>)
      returns (ghost t': Tree<K>, ghost rounds: nat)
      requires Linked(t, root, Cells(s)) && t.T? && IsOrder(cmp) && Sorted(cmp, InOrder(t)) &&
               cmp(elm.key, t.n.key) == 0
      modifies this`root, s
      ensures Linked(t', root, Cells(s - {t.n})) && InOrder(t') == InOrder(t.l) + InOrder(t.r)
      ensures t' == WithoutRoot(cmp, elm.key, t) && rounds == Rounds(cmp, elm.key, t.l)
    {
      rounds := 0;
      ghost var m := Cells(s);
      if root.left == null {
        root := root.right;
        t' := t.r;
        RightOnly(t, m, Cells(s - {t.n}));
      } else {
        t', rounds := JoinSubtrees(elm, t, s);
      }
    }

    /** The left subtree is splayed, and the right one put on its right. */
    method JoinSubtrees(elm: SNode<K>, ghost t: Tree<K>, ghost s: set<SNode<K>>)
      returns (ghost t': Tree<K>, ghost rounds: nat)
      requires Linked(t, root, Cells(s)) && t.T? && t.l.T? && IsOrder(cmp) && Sorted(cmp, InOrder(t)) &&
               cmp(elm.key, t.n.key) == 0
      modifies this`root, s
      ensures Linked(t', root, Cells(s - {t.n})) && InOrder(t') == InOrder(t.l) + InOrder(t.r)
      ensures t' == WithoutRoot(cmp, elm.key, t) && rounds == Rounds(cmp, elm.key, t.l)
    {
      ghost var mr := Cells(Nodes(t.r));
      SubtreesApart(cmp, t, root, Cells(s), Cells(Nodes(t.l)), mr);
      var tmp := root.right;
      ghost var u;
      u, rounds := SplayLeft(elm, t.l, t.r);
      NothingRight(cmp, elm.key, t, u);
      HangRight(tmp, t, u, s);
      t' := T(u.l, u.n, t.r);
    }

    method HangRight(tmp: SNode?<K>, ghost t: Tree<K>, ghost u: Tree<K>, ghost s: set<SNode<K>>)
      requires t.T? && Distinct(t) && s == Nodes(t) && u.T? && u.r.E? && InOrder(u) == InOrder(t.l)
      requires Linked(u, root, Cells(Nodes(t.l))) && Linked(t.r, tmp, Cells(Nodes(t.r)))
      modifies s
      ensures Linked(T(u.l, u.n, t.r), root, Cells(s - {t.n})) &&
              InOrder(T(u.l, u.n, t.r)) == InOrder(t.l) + InOrder(t.r)
    {
      ghost var ml, mr := Cells(Nodes(t.l)), Cells(Nodes(t.r));
      root.right := tmp;
      Joined(t, u, root, ml, mr, Cells(s - {t.n}));
    }

    /** Splays the left subtree on its own; the right one is not touched. */
    method SplayLeft(elm: SNode<K>, ghost l: Tree<K>, ghost r: Tree<K>) returns (ghost u: Tree<K>, ghost rounds: nat)
      requires root != null && root.left == Root(l) && l.T? && Linked(l, Root(l), Cells(Nodes(l)))
      requires IsOrder(cmp) && Sorted(cmp, InOrder(l)) && Nodes(l) !! Nodes(r)
      modifies this`root, Nodes(l)
      ensures Linked(u, root, Cells(Nodes(l))) && InOrder(u) == InOrder(l) && Near(cmp, elm.key, u)
      ensures u == Splayed(cmp, elm.key, l) && rounds == Rounds(cmp, elm.key, l)
      ensures Cells(Nodes(r)) == old(Cells(Nodes(r)))
    {
      ghost var mr := Cells(Nodes(r));
      root := root.left;
      u, rounds := Splay(elm, l, Nodes(l));
      assert Cells(Nodes(r)) == mr;
    }

    /** SPLAY_REMOVE when the splayed tree `t` has the key of `elm` at its root. */
    method RemoveFound(elm: SNode<K>, ghost t: Tree<K>, ghost s: set<SNode<K>>)
      returns (ghost gone: SNode<K>, ghost t': Tree<K>, ghost rounds: nat)
      requires Linked(t, root, Cells(s)) && t.T? && IsOrder(cmp) && Sorted(cmp, InOrder(t)) &&
               cmp(elm.key, t.n.key) == 0
      modifies this`root, s
      ensures Linked(t', root, Cells(s - {gone})) && gone == t.n
      ensures Sorted(cmp, InOrder(t')) && Removed(InOrder(t), gone, InOrder(t'))
      ensures gone == elm <==> elm in InOrder(t)
      ensures t' == WithoutRoot(cmp, elm.key, t) && rounds == Rounds(cmp, elm.key, t.l)
    {
      gone := root;
      RootListed(t);
      if elm in InOrder(t) { EqualIsSame(cmp, InOrder(t), elm, gone); }
      RemovedOrder(cmp, InOrder(t.l), gone, InOrder(t.r));
      t', rounds := RemoveRoot(elm, t, s);
    }

    /** SPLAY_REMOVE: unlinks the stored node `gone` whose key equals that of `elm`; what it returns is `elm`. */
    method Remove(elm: SNode<K>) returns (removed: SNode?<K>, ghost gone: SNode<K>, ghost rounds: nat)
      requires Valid()
      modifies this, Nodes(tree)
      ensures Valid()
      ensures removed != null ==>
              removed == elm && cmp(elm.key, gone.key) == 0 && Removed(old(Elements()), gone, Elements())
      ensures removed != null ==> (gone == elm <==> elm in old(Elements()))
      ensures removed == null ==>
              Elements() == old(Elements()) && forall n | n in Elements() :: cmp(elm.key, n.key) != 0
      ensures tree == RemoveTree(cmp, elm.key, old(tree)) && rounds == RemoveRounds(cmp, elm.key, old(tree))
    {
      gone, rounds := elm, 0;
      if root == null {
        return null, gone, rounds;
      }
      ghost var s := Nodes(tree);
      ghost var t, more;
      t, rounds := Splay(elm, tree, s);
      NearDecides(cmp, elm.key, t);
      if cmp(elm.key, root.key) == 0 {
        gone, t, more := RemoveFound(elm, t, s);
        rounds := rounds + more;
        Adopt(t, s - {gone});
        return elm, gone, rounds;
      }
      Adopt(t, s);
      return null, gone, rounds;
    }
  }
}
