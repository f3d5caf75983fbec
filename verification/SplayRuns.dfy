/** Runs of splay tree operations: the balance theorem. */
module SplayRuns {
  import opened Amortisation
  import opened Powers
  import opened SplayCost
  import opened SplayShape
  import opened SplaySpec

  datatype Op<K> = Find(elm: SNode<K>) | Insert(elm: SNode<K>) | Remove(elm: SNode<K>)

  /** The tree after an operation. */
  ghost function TreeAfter<K>(cmp: (K, K) -> int, op: Op<K>, t: Tree<K>): Tree<K> {
    match op
    case Find(elm) => Splayed(cmp, elm.key, t)
    case Insert(elm) => InsertTree(cmp, elm, t)
    case Remove(elm) => RemoveTree(cmp, elm.key, t)
  }

  ghost function RoundsOf<K>(cmp: (K, K) -> int, op: Op<K>, t: Tree<K>): nat {
    match op
    case Find(elm) => Rounds(cmp, elm.key, t)
    case Insert(elm) => Rounds(cmp, elm.key, t)
    case Remove(elm) => RemoveRounds(cmp, elm.key, t)
  }

  /** The tree after a run of operations. */
  ghost function TreeAfterAll<K>(cmp: (K, K) -> int, ops: seq<Op<K>>, t: Tree<K>): Tree<K> {
    if ops == [] then t else TreeAfterAll(cmp, ops[1..], TreeAfter(cmp, ops[0], t))
  }

  /** All rounds of the run. */
  ghost function RoundsOfAll<K>(cmp: (K, K) -> int, ops: seq<Op<K>>, t: Tree<K>): nat {
    if ops == [] then 0 else RoundsOf(cmp, ops[0], t) + RoundsOfAll(cmp, ops[1..], TreeAfter(cmp, ops[0], t))
  }

  ghost function Inserts<K>(ops: seq<Op<K>>): nat {
    if ops == [] then 0 else (if ops[0].Insert? then 1 else 0) + Inserts(ops[1..])
  }

  lemma SizeAfter<K>(cmp: (K, K) -> int, op: Op<K>, t: Tree<K>)
    ensures Size(TreeAfter(cmp, op, t)) <= Size(t) + if op.Insert? then 1 else 0
  {
    var k := op.elm.key;
    var u := Splayed(cmp, k, t);
    SplayedSize(cmp, k, t);
    match op
    case Find(_) =>
    case Insert(elm) => if u.T? { NewRoot(u, elm, cmp(k, u.n.key) < 0); }
    case Remove(_) => if u.T? { SplayedSize(cmp, k, u.l); }
  }

  lemma StepAmortised<K>(cmp: (K, K) -> int, op: Op<K>, t: Tree<K>)
    ensures Amortised(RoundsOf(cmp, op, t), t, TreeAfter(cmp, op, t))
  {
    match op
    case Find(elm) => FindAmortised(cmp, elm.key, t);
    case Insert(elm) => InsertAmortised(cmp, elm, t);
    case Remove(elm) => RemoveAmortised(cmp, elm.key, t);
  }

  lemma PriceIsPower(n: nat, lg: nat)
    requires n + 1 <= Pow2(lg)
    ensures Price(n) <= Pow2(4 + 6 * lg)
  {
    var p := Pow2(lg);
    Product(n + 1, p, n + 1, p);
    Product((n + 1) * (n + 1), p * p, n + 1, p);
    Product(Cube(n + 1), Cube(p), Cube(n + 1), Cube(p));
    CubeIsPower(lg);
    Pow2Add(3 * lg, 3 * lg);
    Pow2Add(4, 6 * lg);
    Sixteen();
  }

  lemma Sixteen()
    ensures Pow2(4) == 16
  {
    assert Pow2(1) == 2 && Pow2(2) == 4 && Pow2(3) == 8;
  }

  lemma CubeIsPower(lg: nat)
    ensures Cube(Pow2(lg)) == Pow2(3 * lg)
  {
    Pow2Add(lg, lg);
    Pow2Add(lg + lg, lg);
  }

  lemma StepCovered<K>(cmp: (K, K) -> int, op: Op<K>, t: Tree<K>, lg: nat, e: nat)
    requires Size(t) + 1 <= Pow2(lg) && e == 4 + 6 * lg
    ensures Covered(RoundsOf(cmp, op, t), Potential(t), Potential(TreeAfter(cmp, op, t)), e)
  {
    StepAmortised(cmp, op, t);
    PriceIsPower(Size(t), lg);
    Mul(Price(Size(t)), Pow2(e), Potential(t));
  }

  /** There are less nodes than two to the `lg`, those still to be inserted included. */
  ghost predicate Room<K>(t: Tree<K>, ops: seq<Op<K>>, lg: nat) {
    Size(t) + Inserts(ops) + 1 <= Pow2(lg)
  }

  lemma RoomStays<K>(cmp: (K, K) -> int, op: Op<K>, t: Tree<K>, rest: seq<Op<K>>, lg: nat)
    requires Room(t, [op] + rest, lg)
    ensures Size(t) + 1 <= Pow2(lg) && Room(TreeAfter(cmp, op, t), rest, lg)
  {
    assert ([op] + rest)[0] == op && ([op] + rest)[1..] == rest;
    SizeAfter(cmp, op, t);
  }

  lemma {:induction false} SameRun<K(!new)>(cmp: (K, K) -> int, next: (Op<K>, Tree<K>) -> Tree<K>,
                                            cost: (Op<K>, Tree<K>) -> nat, ops: seq<Op<K>>, t: Tree<K>)
    requires forall op, u :: next(op, u) == TreeAfter(cmp, op, u) && cost(op, u) == RoundsOf(cmp, op, u)
    ensures Final(next, ops, t) == TreeAfterAll(cmp, ops, t) && Total(next, cost, ops, t) == RoundsOfAll(cmp, ops, t)
    decreases |ops|
  {
    if ops != [] { SameRun(cmp, next, cost, ops[1..], next(ops[0], t)); }
  }

  /** A run of operations on any tree takes 4 + 6 lg N rounds for each of them, but for what the tree was out of balance
      before; N is one more than the nodes of the tree and those inserted. */
  lemma RunAmortised<K(!new)>(cmp: (K, K) -> int, ops: seq<Op<K>>, t: Tree<K>, lg: nat)
    requires Room(t, ops, lg)
    ensures Covered(RoundsOfAll(cmp, ops, t), Potential(t), Potential(TreeAfterAll(cmp, ops, t)), |ops| * (4 + 6 * lg))
  {
    var next, cost := (op: Op<K>, u: Tree<K>) => TreeAfter(cmp, op, u), (op: Op<K>, u: Tree<K>) => RoundsOf(cmp, op, u);
    var pot, room := (u: Tree<K>) => Potential(u), (u: Tree<K>, rest: seq<Op<K>>) => Room(u, rest, lg);
    forall op, u, rest | room(u, [op] + rest)
      ensures room(next(op, u), rest) && Covered(cost(op, u), pot(u), pot(next(op, u)), 4 + 6 * lg) {
      RoomStays(cmp, op, u, rest, lg);
      StepCovered(cmp, op, u, lg, 4 + 6 * lg);
    }
    RunCovered(next, cost, pot, room, ops, t, 4 + 6 * lg);
    SameRun(cmp, next, cost, ops, t);
    TimesIs(|ops|, 4 + 6 * lg);
  }

  lemma Pow2Orders(a: nat, b: nat)
    ensures Pow2(a) <= Pow2(b) ==> a <= b
  {
    if a > b {
      Pow2Monotone(b, a - 1);
      assert Pow2(a) == 2 * Pow2(a - 1);
    }
  }

  /** The balance theorem: m operations on a tree that is empty at first, n of them insertions, take at most
      m * (4 + 6 lg(n + 1)) rounds together. */
  lemma Balance<K(!new)>(cmp: (K, K) -> int, ops: seq<Op<K>>, lg: nat)
    requires Inserts(ops) + 1 <= Pow2(lg)
    ensures RoundsOfAll(cmp, ops, E) <= |ops| * (4 + 6 * lg)
  {
    RunAmortised(cmp, ops, E, lg);
    FromOne(RoundsOfAll(cmp, ops, E), Potential(TreeAfterAll(cmp, ops, E)), |ops| * (4 + 6 * lg));
  }

  lemma FromOne(r: nat, p: nat, e: nat)
    requires Covered(r, 1, p, e) && p >= 1
    ensures r <= e
  {
    Product(1, p, Pow2(r), Pow2(r));
    Pow2Orders(r, e);
  }
}
