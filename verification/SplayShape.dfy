/** The pure side of the splay tree of tree.h: trees, the two spines that a top-down splay builds beside
    the shrinking middle tree, and the links they stand for. */
module SplayShape {

  /** SPLAY_ENTRY embedded in a user structure. */
  class SNode<K> {
    const key: K
    var left: SNode?<K>
    var right: SNode?<K>

    constructor (key: K)
      ensures this.key == key && left == null && right == null
    {
      this.key := key;
      left, right := null, null;
    }
  }

  datatype Tree<K> = E | T(l: Tree<K>, n: SNode<K>, r: Tree<K>)

  ghost function Root<K>(t: Tree<K>): SNode?<K> {
    if t.E? then null else t.n
  }

  ghost function Nodes<K>(t: Tree<K>): set<SNode<K>> {
    match t
    case E => {}
    case T(l, n, r) => {n} + Nodes(l) + Nodes(r)
  }

  ghost predicate Distinct<K>(t: Tree<K>) {
    match t
    case E => true
    case T(l, n, r) => n !in Nodes(l) && n !in Nodes(r) && Nodes(l) !! Nodes(r) && Distinct(l) && Distinct(r)
  }

  ghost function InOrder<K>(t: Tree<K>): seq<SNode<K>> {
    match t
    case E => []
    case T(l, n, r) => InOrder(l) + [n] + InOrder(r)
  }

  lemma {:induction false} InOrderNodes<K>(t: Tree<K>)
    ensures forall n :: n in InOrder(t) <==> n in Nodes(t)
  {
    if t.T? { InOrderNodes(t.l); InOrderNodes(t.r); }
  }

  datatype Cell<K> = Cell(left: SNode?<K>, right: SNode?<K>)

  type Links<K> = map<SNode<K>, Cell<K>>

  /** The links of all nodes of `s` in the current state. */
  ghost function Cells<K>(s: set<SNode<K>>): Links<K>
    reads s
  {
    map n | n in s :: Cell(n.left, n.right)
  }

  ghost predicate Rep<K>(t: Tree<K>, m: Links<K>) {
    match t
    case E => true
    case T(l, n, r) => n in m && m[n] == Cell(Root(l), Root(r)) && Rep(l, m) && Rep(r, m)
  }

  /** `m'` differs from `m` at most on `touched`. */
  ghost predicate Same<K>(m: Links<K>, m': Links<K>, touched: set<SNode<K>>) {
    forall n | n in m && n !in touched :: n in m' && m'[n] == m[n]
  }

  lemma {:induction false} RepFrame<K>(t: Tree<K>, m: Links<K>, m': Links<K>, touched: set<SNode<K>>)
    requires Rep(t, m) && Same(m, m', touched) && Nodes(t) !! touched
    ensures Rep(t, m')
  {
    if t.T? {
      RepFrame(t.l, m, m', touched);
      RepFrame(t.r, m, m', touched);
    }
  }

  /** The links of `m` are those of `t` and of nothing else. */
  ghost predicate Linked<K>(t: Tree<K>, root: SNode?<K>, m: Links<K>) {
    root == Root(t) && Rep(t, m) && Distinct(t) && m.Keys == Nodes(t)
  }

  // ---------- spines ----------

  /** Nodes split off the middle tree so far, the outermost first, each with the subtree it took along. */
  datatype Spine<K> = Base | Snoc(up: Spine<K>, n: SNode<K>, sub: Tree<K>)

  /** The node below which the next one is linked; `d` is the header both spines start from. */
  ghost function Last<K>(sp: Spine<K>, d: SNode<K>): SNode<K> {
    if sp.Base? then d else sp.n
  }

  ghost function SpineNodes<K>(sp: Spine<K>): set<SNode<K>> {
    match sp
    case Base => {}
    case Snoc(up, n, sub) => {n} + Nodes(sub) + SpineNodes(up)
  }

  ghost predicate DistinctSpine<K>(sp: Spine<K>) {
    sp.Base? ||
    (sp.n !in Nodes(sp.sub) && sp.n !in SpineNodes(sp.up) && Nodes(sp.sub) !! SpineNodes(sp.up) &&
     Distinct(sp.sub) && DistinctSpine(sp.up))
  }

  // ---------- the left spine ----------

  /** The spine as the trees it was taken off: each node keeps its left subtree, its right link leads on;
      that of the last node is stale. */
  ghost predicate SpineL<K>(sp: Spine<K>, d: SNode<K>, m: Links<K>) {
    sp.Base? ||
    (Last(sp.up, d) in m && m[Last(sp.up, d)].right == sp.n && sp.n in m && m[sp.n].left == Root(sp.sub) &&
     Rep(sp.sub, m) && SpineL(sp.up, d, m))
  }

  lemma {:induction false} SpineLFrame<K>(sp: Spine<K>, d: SNode<K>, m: Links<K>, m': Links<K>, touched: set<SNode<K>>)
    requires SpineL(sp, d, m) && Same(m, m', touched) && SpineNodes(sp) !! touched
    requires d in m && d in m' && m'[d].right == m[d].right
    ensures SpineL(sp, d, m')
  {
    if sp.Snoc? {
      RepFrame(sp.sub, m, m', touched);
      SpineLFrame(sp.up, d, m, m', touched);
    }
  }

  /** The same when the link of the last node changed. */
  lemma SpineLTip<K>(sp: Spine<K>, d: SNode<K>, m: Links<K>, m': Links<K>, touched: set<SNode<K>>)
    requires SpineL(sp, d, m) && Same(m, m', touched)
    requires d in m && d in m'
    requires sp.Snoc? ==> m'[d].right == m[d].right && (Nodes(sp.sub) + SpineNodes(sp.up)) !! touched
    requires sp.Snoc? ==> sp.n in m && sp.n in m' && m'[sp.n].left == m[sp.n].left
    ensures SpineL(sp, d, m')
  {
    if sp.Snoc? {
      RepFrame(sp.sub, m, m', touched);
      SpineLFrame(sp.up, d, m, m', touched);
    }
  }

  /** The tree the spine is once `inner` hangs below its last node. */
  ghost function CloseL<K>(sp: Spine<K>, inner: Tree<K>): Tree<K> {
    match sp
    case Base => inner
    case Snoc(up, n, sub) => CloseL(up, T(sub, n, inner))
  }

  lemma {:induction false} CloseLRep<K>(sp: Spine<K>, inner: Tree<K>, d: SNode<K>, m: Links<K>)
    requires SpineL(sp, d, m) && Rep(inner, m) && Last(sp, d) in m && m[Last(sp, d)].right == Root(inner)
    requires DistinctSpine(sp) && Distinct(inner) && Nodes(inner) !! SpineNodes(sp)
    ensures d in m && Rep(CloseL(sp, inner), m) && m[d].right == Root(CloseL(sp, inner))
    ensures Distinct(CloseL(sp, inner)) && Nodes(CloseL(sp, inner)) == Nodes(inner) + SpineNodes(sp)
    decreases sp
  {
    if sp.Snoc? {
      CloseLRep(sp.up, T(sp.sub, sp.n, inner), d, m);
    }
  }

  // ---------- the right spine ----------

  /** The spine as the trees it was taken off: each node keeps its right subtree, its left link leads on;
      that of the last node is stale. */
  ghost predicate SpineR<K>(sp: Spine<K>, d: SNode<K>, m: Links<K>) {
    sp.Base? ||
    (Last(sp.up, d) in m && m[Last(sp.up, d)].left == sp.n && sp.n in m && m[sp.n].right == Root(sp.sub) &&
     Rep(sp.sub, m) && SpineR(sp.up, d, m))
  }

  lemma {:induction false} SpineRFrame<K>(sp: Spine<K>, d: SNode<K>, m: Links<K>, m': Links<K>, touched: set<SNode<K>>)
    requires SpineR(sp, d, m) && Same(m, m', touched) && SpineNodes(sp) !! touched
    requires d in m && d in m' && m'[d].left == m[d].left
    ensures SpineR(sp, d, m')
  {
    if sp.Snoc? {
      RepFrame(sp.sub, m, m', touched);
      SpineRFrame(sp.up, d, m, m', touched);
    }
  }

  /** The same when the link of the last node changed. */
  lemma SpineRTip<K>(sp: Spine<K>, d: SNode<K>, m: Links<K>, m': Links<K>, touched: set<SNode<K>>)
    requires SpineR(sp, d, m) && Same(m, m', touched)
    requires d in m && d in m'
    requires sp.Snoc? ==> m'[d].left == m[d].left && (Nodes(sp.sub) + SpineNodes(sp.up)) !! touched
    requires sp.Snoc? ==> sp.n in m && sp.n in m' && m'[sp.n].right == m[sp.n].right
    ensures SpineR(sp, d, m')
  {
    if sp.Snoc? {
      RepFrame(sp.sub, m, m', touched);
      SpineRFrame(sp.up, d, m, m', touched);
    }
  }

  /** The tree the spine is once `inner` hangs below its last node. */
  ghost function CloseR<K>(sp: Spine<K>, inner: Tree<K>): Tree<K> {
    match sp
    case Base => inner
    case Snoc(up, n, sub) => CloseR(up, T(inner, n, sub))
  }

  lemma {:induction false} CloseRRep<K>(sp: Spine<K>, inner: Tree<K>, d: SNode<K>, m: Links<K>)
    requires SpineR(sp, d, m) && Rep(inner, m) && Last(sp, d) in m && m[Last(sp, d)].left == Root(inner)
    requires DistinctSpine(sp) && Distinct(inner) && Nodes(inner) !! SpineNodes(sp)
    ensures d in m && Rep(CloseR(sp, inner), m) && m[d].left == Root(CloseR(sp, inner))
    ensures Distinct(CloseR(sp, inner)) && Nodes(CloseR(sp, inner)) == Nodes(inner) + SpineNodes(sp)
    decreases sp
  {
    if sp.Snoc? {
      CloseRRep(sp.up, T(inner, sp.n, sp.sub), d, m);
    }
  }

}
