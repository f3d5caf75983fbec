/** The balance of a red-black tree. */
module RbHeight {
  import opened Powers
  import opened RbShape

  ghost function Max(a: nat, b: nat): nat {
    if a < b then b else a
  }

  /** The number of nodes on the longest path down. */
  ghost function Height<K>(t: Tree<K>): nat {
    match t
    case E => 0
    case T(l, _, _, r) => 1 + Max(Height(l), Height(r))
  }

  lemma {:induction false} HeightByBlack<K>(t: Tree<K>, h: nat)
    requires RB(t, h)
    ensures Height(t) <= 2 * h + if IsRed(t) then 1 else 0
  {
    if t.T? {
      HeightByBlack(t.l, if t.c.Red? then h else h - 1);
      HeightByBlack(t.r, if t.c.Red? then h else h - 1);
    }
  }

  lemma {:induction false} SizeByBlack<K>(t: Tree<K>, h: nat)
    requires RB(t, h)
    ensures |InOrder(t)| + 1 >= Pow2(h)
  {
    if t.T? {
      SizeByBlack(t.l, if t.c.Red? then h else h - 1);
      SizeByBlack(t.r, if t.c.Red? then h else h - 1);
    }
  }

  /** `k` is at most 2 lg(n + 1). */
  ghost predicate Logarithmic(k: nat, n: nat) {
    Pow2(k) <= (n + 1) * (n + 1)
  }

  /** A tree of n nodes is at most 2 lg(n + 1) high. */
  lemma HeightBound<K>(t: Tree<K>)
    requires RedBlack(t)
    ensures Logarithmic(Height(t), |InOrder(t)|)
  {
    var h, n := BlackHeight(t), |InOrder(t)|;
    HeightByBlack(t, h);
    SizeByBlack(t, h);
    Pow2Monotone(Height(t), h + h);
    Pow2Add(h, h);
    Squares(Pow2(h), n + 1);
  }

  lemma Squares(a: nat, b: nat)
    requires a <= b
    ensures a * a <= b * b
  {
    assert a * a <= a * b <= b * b;
  }
}
