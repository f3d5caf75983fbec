/** The pure side of the red-black tree: the tree a set of linked nodes stands for, the path
    from the root to one of its subtrees, in-order sequences and the colour rules. */
module RbShape {

  datatype Color = Red | Black

  /** RB_ENTRY embedded in a user structure whose key never changes while it is in a tree. */
  class Node<K> {
    const key: K
    var left: Node?<K>
    var right: Node?<K>
    var parent: Node?<K>
    var color: Color

    constructor (key: K)
      ensures this.key == key
    {
      this.key := key;
      left, right, parent, color := null, null, null, Black;
    }
  }

  datatype Tree<K> = E | T(l: Tree<K>, n: Node<K>, c: Color, r: Tree<K>)

  /** A path from the root down to a hole: `InL` says that the hole is the left subtree of `n`. */
  datatype Ctx<K> =
    | Top
    | InL(up: Ctx<K>, n: Node<K>, c: Color, sib: Tree<K>)
    | InR(up: Ctx<K>, n: Node<K>, c: Color, sib: Tree<K>)

  ghost function Root<K>(t: Tree<K>): Node?<K> {
    if t.E? then null else t.n
  }

  ghost function Above<K>(c: Ctx<K>): Node?<K> {
    if c.Top? then null else c.n
  }

  ghost function Plug<K>(c: Ctx<K>, t: Tree<K>): Tree<K> {
    match c
    case Top => t
    case InL(up, n, col, r) => Plug(up, T(t, n, col, r))
    case InR(up, n, col, l) => Plug(up, T(l, n, col, t))
  }

  ghost function Depth<K>(c: Ctx<K>): nat {
    if c.Top? then 0 else 1 + Depth(c.up)
  }

  // ---------- nodes ----------

  ghost function Nodes<K>(t: Tree<K>): set<Node<K>> {
    match t
    case E => {}
    case T(l, n, _, r) => {n} + Nodes(l) + Nodes(r)
  }

  ghost function CtxNodes<K>(c: Ctx<K>): set<Node<K>> {
    match c
    case Top => {}
    case InL(up, n, _, s) => {n} + Nodes(s) + CtxNodes(up)
    case InR(up, n, _, s) => {n} + Nodes(s) + CtxNodes(up)
  }

  ghost predicate Distinct<K>(t: Tree<K>) {
    match t
    case E => true
    case T(l, n, _, r) =>
      n !in Nodes(l) && n !in Nodes(r) && Nodes(l) !! Nodes(r) && Distinct(l) && Distinct(r)
  }

  ghost predicate DistinctCtx<K>(c: Ctx<K>) {
    c.Top? ||
    (c.n !in Nodes(c.sib) && c.n !in CtxNodes(c.up) && Nodes(c.sib) !! CtxNodes(c.up) &&
     Distinct(c.sib) && DistinctCtx(c.up))
  }

  // ---------- links ----------

  /** The four fields of one node. */
  datatype Cell<K> = Cell(left: Node?<K>, right: Node?<K>, parent: Node?<K>, color: Color)

  type Links<K> = map<Node<K>, Cell<K>>

  /** The fields of all nodes of `s` in the current state. */
  ghost function Cells<K>(s: set<Node<K>>): Links<K>
    reads s
  {
    map n | n in s :: Cell(n.left, n.right, n.parent, n.color)
  }

  /** The fields spell out exactly `t`, hanging below `p`. */
  ghost predicate Rep<K>(t: Tree<K>, p: Node?<K>, m: Links<K>) {
    match t
    case E => true
    case T(l, n, c, r) => n in m && m[n] == Cell(Root(l), Root(r), p, c) && Rep(l, n, m) && Rep(r, n, m)
  }

  /** The fields on and beside the path spell out `c`, with `hole` at its end. */
  ghost predicate RepCtx<K>(c: Ctx<K>, root: Node?<K>, hole: Node?<K>, m: Links<K>) {
    match c
    case Top => root == hole
    case InL(up, n, col, s) =>
      n in m && m[n] == Cell(hole, Root(s), Above(up), col) && Rep(s, n, m) && RepCtx(up, root, n, m)
    case InR(up, n, col, s) =>
      n in m && m[n] == Cell(Root(s), hole, Above(up), col) && Rep(s, n, m) && RepCtx(up, root, n, m)
  }

  ghost predicate ZipDistinct<K>(c: Ctx<K>, t: Tree<K>) {
    DistinctCtx(c) && Distinct(t) && Nodes(t) !! CtxNodes(c)
  }

  /** A linked tree seen from one of its subtrees: all links and colours, in both directions. */
  ghost predicate Zip<K>(c: Ctx<K>, t: Tree<K>, root: Node?<K>, m: Links<K>) {
    ZipDistinct(c, t) && RepCtx(c, root, Root(t), m) && Rep(t, Above(c), m) && m.Keys == Nodes(t) + CtxNodes(c)
  }

  /** The view from any subtree is a view of the whole tree. */
  lemma {:induction false} ZipUp<K>(c: Ctx<K>, t: Tree<K>, root: Node?<K>, m: Links<K>)
    ensures Zip(c, t, root, m) <==> Zip(Top, Plug(c, t), root, m)
    ensures Nodes(Plug(c, t)) == CtxNodes(c) + Nodes(t)
    decreases c
  {
    match c
    case Top =>
    case InL(up, n, col, r) => ZipUp(up, T(t, n, col, r), root, m);
    case InR(up, n, col, l) => ZipUp(up, T(l, n, col, t), root, m);
  }

  /** `m'` differs from `m` at most on `touched`. */
  ghost predicate Same<K>(m: Links<K>, m': Links<K>, touched: set<Node<K>>) {
    forall n | n in m && n !in touched :: n in m' && m'[n] == m[n]
  }

  lemma {:induction false} RepFrame<K>(t: Tree<K>, p: Node?<K>, m: Links<K>, m': Links<K>,
                                       touched: set<Node<K>>)
    requires Rep(t, p, m) && Same(m, m', touched) && Nodes(t) !! touched
    ensures Rep(t, p, m')
  {
    if t.T? {
      RepFrame(t.l, t.n, m, m', touched);
      RepFrame(t.r, t.n, m, m', touched);
    }
  }

  /** A subtree of which only the parent link of the root changed. */
  lemma RepReparent<K>(t: Tree<K>, q: Node?<K>, p: Node?<K>, m: Links<K>, m': Links<K>, touched: set<Node<K>>)
    requires Rep(t, q, m) && Same(m, m', touched) && Distinct(t)
    requires t.T? ==> (Nodes(t.l) + Nodes(t.r)) !! touched && t.n in m' && m'[t.n] == m[t.n].(parent := p)
    ensures Rep(t, p, m')
  {
    if t.T? {
      RepFrame(t.l, t.n, m, m', touched);
      RepFrame(t.r, t.n, m, m', touched);
    }
  }

  lemma {:induction false} RepCtxFrame<K>(c: Ctx<K>, root: Node?<K>, hole: Node?<K>, m: Links<K>, m': Links<K>,
                                          touched: set<Node<K>>)
    requires RepCtx(c, root, hole, m) && Same(m, m', touched) && CtxNodes(c) !! touched
    ensures RepCtx(c, root, hole, m')
    decreases c
  {
    if !c.Top? {
      RepFrame(c.sib, c.n, m, m', touched);
      RepCtxFrame(c.up, root, c.n, m, m', touched);
    }
  }

  /** The cell at the end of the path, made to point to `hole`. */
  ghost function Hang<K>(c: Ctx<K>, cell: Cell<K>, hole: Node?<K>): Cell<K> {
    if c.InL? then cell.(left := hole) else cell.(right := hole)
  }

  /** A path on which only the link to the hole changed. */
  lemma RepCtxRehang<K>(c: Ctx<K>, root: Node?<K>, hole: Node?<K>, root': Node?<K>, hole': Node?<K>, m: Links<K>,
                        m': Links<K>, touched: set<Node<K>>)
    requires RepCtx(c, root, hole, m) && Same(m, m', touched) && DistinctCtx(c)
    requires root' == if c.Top? then hole' else root
    requires !c.Top? ==> (Nodes(c.sib) + CtxNodes(c.up)) !! touched && c.n in m' && m'[c.n] == Hang(c, m[c.n], hole')
    ensures RepCtx(c, root', hole', m')
  {
    if !c.Top? {
      RepFrame(c.sib, c.n, m, m', touched);
      RepCtxFrame(c.up, root, c.n, m, m', touched);
    }
  }

  // ---------- in-order sequences ----------

  ghost function InOrder<K>(t: Tree<K>): seq<Node<K>> {
    match t
    case E => []
    case T(l, n, _, r) => InOrder(l) + [n] + InOrder(r)
  }

  ghost function Before<K>(c: Ctx<K>): seq<Node<K>> {
    match c
    case Top => []
    case InL(up, _, _, _) => Before(up)
    case InR(up, n, _, l) => Before(up) + InOrder(l) + [n]
  }

  ghost function After<K>(c: Ctx<K>): seq<Node<K>> {
    match c
    case Top => []
    case InL(up, n, _, r) => [n] + InOrder(r) + After(up)
    case InR(up, _, _, _) => After(up)
  }

  lemma {:induction false} InOrderPlug<K>(c: Ctx<K>, t: Tree<K>)
    ensures InOrder(Plug(c, t)) == Before(c) + InOrder(t) + After(c)
    decreases c
  {
    match c
    case Top =>
    case InL(up, n, col, r) => InOrderPlug(up, T(t, n, col, r));
    case InR(up, n, col, l) => InOrderPlug(up, T(l, n, col, t));
  }

  lemma {:induction false} InOrderNodes<K>(t: Tree<K>)
    ensures forall n :: n in InOrder(t) <==> n in Nodes(t)
  {
    if t.T? { InOrderNodes(t.l); InOrderNodes(t.r); }
  }

  // ---------- colours ----------

  ghost predicate IsRed<K>(t: Tree<K>) {
    t.T? && t.c.Red?
  }

  ghost predicate CtxIsRed<K>(c: Ctx<K>) {
    !c.Top? && c.c.Red?
  }

  /** No red node has a red child and every path down to a leaf passes `h` black nodes. */
  ghost predicate RB<K>(t: Tree<K>, h: nat) {
    match t
    case E => h == 0
    case T(l, _, Red, r) => RB(l, h) && RB(r, h) && !IsRed(l) && !IsRed(r)
    case T(l, _, Black, r) => h > 0 && RB(l, h - 1) && RB(r, h - 1)
  }

  /** The path fits a subtree of black height `h`; a red node on it is neither the root nor below a red one. */
  ghost predicate CtxRB<K>(c: Ctx<K>, h: nat) {
    c.Top? ||
    (RB(c.sib, h) &&
     match c.c
     case Red => !IsRed(c.sib) && !c.up.Top? && !CtxIsRed(c.up) && CtxRB(c.up, h)
     case Black => CtxRB(c.up, h + 1))
  }

  ghost function BlackHeight<K>(t: Tree<K>): nat {
    match t
    case E => 0
    case T(l, _, c, _) => BlackHeight(l) + if c.Black? then 1 else 0
  }

  lemma {:induction false} RBHeight<K>(t: Tree<K>, h: nat)
    requires RB(t, h)
    ensures h == BlackHeight(t)
  {
    if t.T? { RBHeight(t.l, if t.c.Red? then h else h - 1); }
  }

  /** The colour rules of a whole tree: rules everywhere and a black root. */
  ghost predicate RedBlack<K>(t: Tree<K>) {
    RB(t, BlackHeight(t)) && !IsRed(t)
  }

  lemma {:induction false} RedBlackPlug<K>(c: Ctx<K>, t: Tree<K>, h: nat)
    requires CtxRB(c, h) && RB(t, h)
    requires IsRed(t) ==> !c.Top? && !CtxIsRed(c)
    ensures RedBlack(Plug(c, t))
    decreases c
  {
    match c
    case Top => RBHeight(t, h);
    case InL(up, n, col, r) => RedBlackPlug(up, T(t, n, col, r), if col.Red? then h else h + 1);
    case InR(up, n, col, l) => RedBlackPlug(up, T(l, n, col, t), if col.Red? then h else h + 1);
  }

  lemma {:induction false} RedBlackUnplug<K>(c: Ctx<K>, t: Tree<K>)
    requires RedBlack(Plug(c, t))
    ensures CtxRB(c, BlackHeight(t)) && RB(t, BlackHeight(t))
    ensures IsRed(t) ==> !c.Top? && !CtxIsRed(c)
    decreases c
  {
    match c
    case Top =>
    case InL(up, n, col, r) =>
      RedBlackUnplug(up, T(t, n, col, r));
      RBHeight(t, BlackHeight(t));
    case InR(up, n, col, l) =>
      var u := T(l, n, col, t);
      RedBlackUnplug(up, u);
      RBHeight(t, if col.Red? then BlackHeight(u) else BlackHeight(u) - 1);
  }
}
