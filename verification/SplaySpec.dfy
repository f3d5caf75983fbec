/** Splaying as a recursion: what the loop of SPLAY makes of a tree, and in how many rounds. */
module SplaySpec {
  import opened SplayOrder
  import opened SplayShape
  import opened SplayStep

  /** The tree that SPLAY makes of `t`: what follows a step is splayed on its own, and the nodes that the step splits
      off go to the outer end of a spine. */
  ghost function Splayed<K>(cmp: (K, K) -> int, k: K, t: Tree<K>): (u: Tree<K>)
    ensures u.T? <==> t.T?
  {
    if t.E? || cmp(k, t.n.key) == 0 then t
    else if cmp(k, t.n.key) < 0 then
      if t.l.E? then t
      else if cmp(k, t.l.n.key) >= 0 then
        var u := Splayed(cmp, k, t.l);
        T(u.l, u.n, T(u.r, t.n, t.r))
      else if t.l.l.E? then RotatedR(t)
      else
        var u := Splayed(cmp, k, t.l.l);
        T(u.l, u.n, T(u.r, t.l.n, T(t.l.r, t.n, t.r)))
    else
      if t.r.E? then t
      else if cmp(k, t.r.n.key) <= 0 then
        var u := Splayed(cmp, k, t.r);
        T(T(t.l, t.n, u.l), u.n, u.r)
      else if t.r.r.E? then RotatedL(t)
      else
        var u := Splayed(cmp, k, t.r.r);
        T(T(T(t.l, t.n, t.r.l), t.r.n, u.l), u.n, u.r)
  }

  /** How often the body of the loop of SPLAY is entered. */
  ghost function Rounds<K>(cmp: (K, K) -> int, k: K, t: Tree<K>): nat {
    if t.E? || cmp(k, t.n.key) == 0 then 0
    else if cmp(k, t.n.key) < 0 then
      if t.l.E? then 1
      else if cmp(k, t.l.n.key) >= 0 then 1 + Rounds(cmp, k, t.l)
      else 1 + Rounds(cmp, k, t.l.l)
    else
      if t.r.E? then 1
      else if cmp(k, t.r.n.key) <= 0 then 1 + Rounds(cmp, k, t.r)
      else 1 + Rounds(cmp, k, t.r.r)
  }

  /** The tree after SPLAY_INSERT. */
  ghost function InsertTree<K>(cmp: (K, K) -> int, elm: SNode<K>, t: Tree<K>): Tree<K> {
    var u := Splayed(cmp, elm.key, t);
    if u.E? then T(E, elm, E)
    else if cmp(elm.key, u.n.key) == 0 then u
    else WithRoot(u, elm, cmp(elm.key, u.n.key) < 0)
  }

  /** `t` without its root: the right subtree is put on the right of the splayed left one. */
  ghost function WithoutRoot<K>(cmp: (K, K) -> int, k: K, t: Tree<K>): Tree<K>
    requires t.T?
  {
    var v := Splayed(cmp, k, t.l);
    if v.E? then t.r else T(v.l, v.n, t.r)
  }

  /** The tree after SPLAY_REMOVE. */
  ghost function RemoveTree<K>(cmp: (K, K) -> int, k: K, t: Tree<K>): Tree<K> {
    var u := Splayed(cmp, k, t);
    if u.T? && cmp(k, u.n.key) == 0 then WithoutRoot(cmp, k, u) else u
  }

  /** The rounds of a removal: the second splay is that of the left subtree of the node found. */
  ghost function RemoveRounds<K>(cmp: (K, K) -> int, k: K, t: Tree<K>): nat {
    var u := Splayed(cmp, k, t);
    Rounds(cmp, k, t) + if u.T? && cmp(k, u.n.key) == 0 then Rounds(cmp, k, u.l) else 0
  }

  // ---------- the loop against the recursion ----------

  /** What will become of the state of the loop. */
  ghost function Outcome<K>(cmp: (K, K) -> int, k: K, w: Work<K>): Tree<K>
    requires w.t.T?
  {
    Assembled(w.(t := Splayed(cmp, k, w.t)))
  }

  lemma OutcomeLinkedL<K>(w: Work<K>, u: Tree<K>)
    requires w.t.T? && u.T?
    ensures Assembled(LinkedL(w).(t := u)) == Assembled(w.(t := T(u.l, u.n, T(u.r, w.t.n, w.t.r))))
  {
  }

  lemma OutcomeLinkedR<K>(w: Work<K>, u: Tree<K>)
    requires w.t.T? && u.T?
    ensures Assembled(LinkedR(w).(t := u)) == Assembled(w.(t := T(T(w.t.l, w.t.n, u.l), u.n, u.r)))
  {
  }

  /** A round towards the left, from `w` to `w'`. */
  lemma RoundLeft<K>(cmp: (K, K) -> int, k: K, w: Work<K>, w': Work<K>)
    requires w.t.T? && w.t.l.T? && cmp(k, w.t.n.key) < 0
    requires var v := if cmp(k, w.t.l.n.key) < 0 then w.(t := RotatedR(w.t)) else w; v.t.l.T? && w' == LinkedL(v)
    ensures Outcome(cmp, k, w) == Outcome(cmp, k, w') && Rounds(cmp, k, w.t) == 1 + Rounds(cmp, k, w'.t)
  {
    var v := if cmp(k, w.t.l.n.key) < 0 then w.(t := RotatedR(w.t)) else w;
    OutcomeLinkedL(v, Splayed(cmp, k, w'.t));
  }

  /** A round towards the right, from `w` to `w'`. */
  lemma RoundRight<K>(cmp: (K, K) -> int, k: K, w: Work<K>, w': Work<K>)
    requires w.t.T? && w.t.r.T? && cmp(k, w.t.n.key) > 0
    requires var v := if cmp(k, w.t.r.n.key) > 0 then w.(t := RotatedL(w.t)) else w; v.t.r.T? && w' == LinkedR(v)
    ensures Outcome(cmp, k, w) == Outcome(cmp, k, w') && Rounds(cmp, k, w.t) == 1 + Rounds(cmp, k, w'.t)
  {
    var v := if cmp(k, w.t.r.n.key) > 0 then w.(t := RotatedL(w.t)) else w;
    OutcomeLinkedR(v, Splayed(cmp, k, w'.t));
  }

  /** The loop of SPLAY is at `w` after some rounds. */
  ghost predicate Splaying<K(!new)>(cmp: (K, K) -> int, k: K, w: Work<K>, t: Tree<K>, rounds: nat)
    requires w.t.T?
  {
    && All(w) == InOrder(t) && Sided(cmp, k, w)
    && Outcome(cmp, k, w) == Splayed(cmp, k, t) && rounds + Rounds(cmp, k, w.t) == Rounds(cmp, k, t)
  }

  /** The loop has ended at `w`. */
  ghost predicate Ended<K(!new)>(cmp: (K, K) -> int, k: K, w: Work<K>, t: Tree<K>, rounds: nat)
    requires w.t.T?
  {
    && All(w) == InOrder(t) && Sided(cmp, k, w) && (cmp(k, w.t.n.key) == 0 || Stuck(cmp, k, w.t))
    && Assembled(w) == Splayed(cmp, k, t) && rounds == Rounds(cmp, k, t)
  }

  lemma SplayingStarts<K(!new)>(cmp: (K, K) -> int, k: K, t: Tree<K>, d: SNode<K>)
    requires t.T?
    ensures Splaying(cmp, k, Work(Base, t, Base, d), t, 0)
  {
    assert [] + InOrder(t) + [] == InOrder(t);
  }

  lemma SplayingEnds<K(!new)>(cmp: (K, K) -> int, k: K, w: Work<K>, t: Tree<K>, rounds: nat)
    requires w.t.T? && Splaying(cmp, k, w, t, rounds) && cmp(k, w.t.n.key) == 0
    ensures Ended(cmp, k, w, t, rounds)
  {
  }
}
