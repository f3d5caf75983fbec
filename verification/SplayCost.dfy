/** What splaying costs: its rounds are paid for by the potential of the tree. */
module SplayCost {
  import opened Amortisation
  import opened Powers
  import opened SplayOrder
  import opened SplayShape
  import opened SplaySpec
  import opened SplayStep

  // ---------- the potential ----------

  ghost function Size<K>(t: Tree<K>): nat {
    if t.E? then 0 else Size(t.l) + 1 + Size(t.r)
  }

  lemma {:induction false} SizeIs<K>(t: Tree<K>)
    ensures Size(t) == |InOrder(t)|
  {
    if t.T? { SizeIs(t.l); SizeIs(t.r); }
  }

  /** The product of the sizes of all subtrees: a tree that is out of balance has a high one. */
  ghost function Potential<K>(t: Tree<K>): (p: nat)
    ensures p >= 1
  {
    if t.E? then 1
    else
      Positive(Potential(t.l), Potential(t.r));
      Positive(Size(t), Potential(t.l) * Potential(t.r));
      Size(t) * (Potential(t.l) * Potential(t.r))
  }

  lemma Positive(a: nat, b: nat)
    requires a >= 1 && b >= 1
    ensures a * b >= 1
  {
    Mul(1, a, b);
  }

  lemma SizeOfTwo<K>(a: Tree<K>, x: SNode<K>, b: Tree<K>, y: SNode<K>, c: Tree<K>)
    ensures Size(T(a, x, T(b, y, c))) == Size(T(T(a, x, b), y, c)) == Size(a) + Size(b) + Size(c) + 2
  {
    assert Size(T(b, y, c)) == Size(b) + 1 + Size(c) && Size(T(a, x, b)) == Size(a) + 1 + Size(b);
  }

  lemma {:induction false} SplayedSize<K>(cmp: (K, K) -> int, k: K, t: Tree<K>)
    ensures Size(Splayed(cmp, k, t)) == Size(t)
  {
    if t.T? {
      if cmp(k, t.n.key) < 0 && t.l.T? {
        SplayedSize(cmp, k, t.l);
        SplayedSize(cmp, k, t.l.l);
        SizeLeft(cmp, k, t);
      } else if cmp(k, t.n.key) > 0 && t.r.T? {
        SplayedSize(cmp, k, t.r);
        SplayedSize(cmp, k, t.r.r);
        SizeRight(cmp, k, t);
      }
    }
  }

  lemma SizeLeft<K>(cmp: (K, K) -> int, k: K, t: Tree<K>)
    requires t.T? && t.l.T? && cmp(k, t.n.key) < 0
    requires Size(Splayed(cmp, k, t.l)) == Size(t.l) && Size(Splayed(cmp, k, t.l.l)) == Size(t.l.l)
    ensures Size(Splayed(cmp, k, t)) == Size(t)
  {
    if cmp(k, t.l.n.key) >= 0 {
      var u := Splayed(cmp, k, t.l);
      SizeOfTwo(u.l, u.n, u.r, t.n, t.r);
    } else if t.l.l.E? {
      SizeOfTwo(t.l.l, t.l.n, t.l.r, t.n, t.r);
    } else {
      var u, c := Splayed(cmp, k, t.l.l), T(t.l.r, t.n, t.r);
      SizeOfTwo(u.l, u.n, u.r, t.l.n, c);
      SizeOfTwo(t.l.l, t.l.n, t.l.r, t.n, t.r);
    }
  }

  lemma SizeRight<K>(cmp: (K, K) -> int, k: K, t: Tree<K>)
    requires t.T? && t.r.T? && cmp(k, t.n.key) > 0
    requires Size(Splayed(cmp, k, t.r)) == Size(t.r) && Size(Splayed(cmp, k, t.r.r)) == Size(t.r.r)
    ensures Size(Splayed(cmp, k, t)) == Size(t)
  {
    if cmp(k, t.r.n.key) <= 0 {
      var u := Splayed(cmp, k, t.r);
      SizeOfTwo(t.l, t.n, u.l, u.n, u.r);
    } else if t.r.r.E? {
      SizeOfTwo(t.l, t.n, t.r.l, t.r.n, t.r.r);
    } else {
      var u, c := Splayed(cmp, k, t.r.r), T(t.l, t.n, t.r.l);
      SizeOfTwo(c, t.r.n, u.l, u.n, u.r);
      SizeOfTwo(t.l, t.n, t.r.l, t.r.n, t.r.r);
    }
  }

  // ---------- arithmetic ----------

  lemma Cancel(a: nat, b: nat, c: nat)
    requires c > 0 && a * c <= b * c
    ensures a <= b
  {
    if a > b { Mul(b + 1, a, c); }
  }

  lemma Product(a: nat, b: nat, c: nat, d: nat)
    requires a <= b && c <= d
    ensures a * c <= b * d
  {
    Mul(a, b, c);
    Mul(c, d, b);
  }

  /** The geometric mean is at most the arithmetic one. */
  lemma Means(a: nat, b: nat, s: nat)
    requires a + b <= s
    ensures 4 * (a * b) <= s * s
  {
    Product(a + b, s, a + b, s);
    var d := a - b;
    assert d * d >= 0;
    assert (a + b) * (a + b) == 4 * (a * b) + d * d;
  }

  function Cube(s: nat): nat {
    s * s * s
  }

  lemma Assoc(a: nat, b: nat, c: nat)
    ensures (a * b) * c == a * (b * c)
  {
  }

  /** From a bound for the part that is splayed on, of size `a` and potential `pa` before and a * x afterwards, to the
      whole: `f` comes to the whole from the new sizes, `y` from the old ones. */
  lemma Carry(q: nat, k: nat, a: nat, pa: nat, x: nat, rest: nat)
    requires a > 0 && q * (a * x) <= k * Cube(a) * pa
    ensures q * (x * rest) <= k * (a * a) * (pa * rest)
  {
    assert q * (a * x) == (q * x) * a;
    assert k * Cube(a) * pa == (k * (a * a) * pa) * a;
    Cancel(q * x, k * (a * a) * pa, a);
    Mul(q * x, k * (a * a) * pa, rest);
    Assoc(q, x, rest);
    Assoc(k * (a * a), pa, rest);
  }

  /** One link: `s` is the size of the whole, `f` that of the node split off, afterwards. */
  lemma ZigCost(q: nat, k: nat, s: nat, a: nat, f: nat, pa: nat, x: nat, rest: nat)
    requires 0 < a <= s && f <= s && q * (a * x) <= k * Cube(a) * pa
    ensures q * (s * (f * (x * rest))) <= k * Cube(s) * (s * (pa * rest))
  {
    Carry(q, k, a, pa, x, rest);
    var l, r := x * rest, pa * rest;
    Product(q * l, k * (a * a) * r, s * f, s * f);
    Product(a * a, s * s, f, s) by { Product(a, s, a, s); }
    Mul(a * a * f, Cube(s), k * (s * r));
    ZigAfter(q, s, f, l);
    ZigBetween(k, a, r, s, f);
    ZigBefore(k, s, r);
  }

  lemma ZigAfter(q: nat, s: nat, f: nat, l: nat)
    ensures q * (s * (f * l)) == (q * l) * (s * f)
  {
  }

  lemma ZigBetween(k: nat, a: nat, r: nat, s: nat, f: nat)
    ensures (k * (a * a) * r) * (s * f) == (a * a * f) * (k * (s * r))
  {
  }

  lemma ZigBefore(k: nat, s: nat, r: nat)
    ensures Cube(s) * (k * (s * r)) == k * Cube(s) * (s * r)
  {
  }

  /** Two links, or a rotation and a link: `f` and `y` are the new sizes of the two nodes, `b` the old one of the lower;
      that there are two sizes that share `s` makes up for a factor of four. */
  lemma PairCost(q: nat, k: nat, s: nat, a: nat, b: nat, f: nat, y: nat, pa: nat, x: nat, rest: nat)
    requires 0 < a <= b && a <= s && q * (a * x) <= k * Cube(a) * pa
    requires 4 * (a * a * f * y) <= b * Cube(s)
    ensures 4 * q * (s * (f * y * (x * rest))) <= k * Cube(s) * (s * (b * (pa * rest)))
  {
    Carry(q, k, a, pa, x, rest);
    PairLeft(q, k, s, a, f, y, x * rest, pa * rest);
    PairRight(k, s, 4 * (a * a * f * y), b, pa * rest);
  }

  lemma PairLeft(q: nat, k: nat, s: nat, a: nat, f: nat, y: nat, l: nat, r: nat)
    requires q * l <= k * (a * a) * r
    ensures 4 * q * (s * (f * y * l)) <= 4 * (a * a * f * y) * (k * (s * r))
  {
    Mul(q * l, k * (a * a) * r, 4 * (s * (f * y)));
    PairAfter(q, s, f * y, l);
    PairBetween(k, a, r, s, f, y);
  }

  lemma PairRight(k: nat, s: nat, g: nat, b: nat, r: nat)
    requires g <= b * Cube(s)
    ensures g * (k * (s * r)) <= k * Cube(s) * (s * (b * r))
  {
    Mul(g, b * Cube(s), k * (s * r));
    PairBefore(k, s, r, b);
  }

  lemma PairAfter(q: nat, s: nat, f: nat, l: nat)
    ensures 4 * q * (s * (f * l)) == (q * l) * (4 * (s * f))
  {
  }

  lemma PairBetween(k: nat, a: nat, r: nat, s: nat, f: nat, y: nat)
    ensures (k * (a * a) * r) * (4 * (s * (f * y))) == (4 * (a * a * f * y)) * (k * (s * r))
  {
  }

  lemma PairBefore(k: nat, s: nat, r: nat, b: nat)
    ensures (b * Cube(s)) * (k * (s * r)) == k * Cube(s) * (s * (b * r))
  {
  }

  lemma GainProducts(a: nat, f: nat, y: nat)
    ensures 4 * (a * a * f * y) == a * (4 * (a * y) * f) == a * (4 * (f * y) * a)
  {
  }

  lemma ZigZigGain(s: nat, a: nat, b: nat, f: nat, y: nat)
    requires a <= b && a + y <= s && f <= s
    ensures 4 * (a * a * f * y) <= b * Cube(s)
  {
    Means(a, y, s);
    Product(4 * (a * y), s * s, f, s);
    Product(a, b, 4 * (a * y) * f, Cube(s));
    GainProducts(a, f, y);
  }

  lemma ZigZagGain(s: nat, a: nat, b: nat, f: nat, y: nat)
    requires a <= b && a <= s && f + y <= s
    ensures 4 * (a * a * f * y) <= b * Cube(s)
  {
    Means(f, y, s);
    Product(4 * (f * y), s * s, a, s);
    Product(a, b, 4 * (f * y) * a, Cube(s));
    GainProducts(a, f, y);
  }

  // ---------- left and right ----------

  ghost function Mirror<K>(t: Tree<K>): (u: Tree<K>)
    ensures u.T? <==> t.T?
  {
    if t.E? then E else T(Mirror(t.r), t.n, Mirror(t.l))
  }

  lemma {:induction false} MirrorSame<K>(t: Tree<K>)
    ensures Size(Mirror(t)) == Size(t) && Potential(Mirror(t)) == Potential(t)
  {
    if t.T? {
      MirrorSame(t.l);
      MirrorSame(t.r);
      assert Potential(t.l) * Potential(t.r) == Potential(t.r) * Potential(t.l);
    }
  }

  ghost function Reverse<K>(cmp: (K, K) -> int): (K, K) -> int {
    (x, y) => -cmp(x, y)
  }

  lemma MirrorOfTwo<K>(a: Tree<K>, x: SNode<K>, b: Tree<K>, y: SNode<K>, c: Tree<K>)
    ensures Mirror(T(a, x, T(b, y, c))) == T(T(Mirror(c), y, Mirror(b)), x, Mirror(a))
    ensures Mirror(T(T(a, x, b), y, c)) == T(Mirror(c), y, T(Mirror(b), x, Mirror(a)))
  {
    assert Mirror(T(b, y, c)) == T(Mirror(c), y, Mirror(b)) && Mirror(T(a, x, b)) == T(Mirror(b), x, Mirror(a));
  }

  lemma {:induction false} MirrorSplayed<K>(cmp: (K, K) -> int, k: K, t: Tree<K>)
    ensures Splayed(Reverse(cmp), k, Mirror(t)) == Mirror(Splayed(cmp, k, t))
    ensures Rounds(Reverse(cmp), k, Mirror(t)) == Rounds(cmp, k, t)
  {
    if t.T? {
      if cmp(k, t.n.key) < 0 && t.l.T? {
        MirrorSplayed(cmp, k, t.l);
        MirrorSplayed(cmp, k, t.l.l);
        MirrorLeft(cmp, k, t);
      } else if cmp(k, t.n.key) > 0 && t.r.T? {
        MirrorSplayed(cmp, k, t.r);
        MirrorSplayed(cmp, k, t.r.r);
        MirrorRight(cmp, k, t);
      }
    }
  }

  lemma MirrorLeft<K>(cmp: (K, K) -> int, k: K, t: Tree<K>)
    requires t.T? && t.l.T? && cmp(k, t.n.key) < 0
    requires Splayed(Reverse(cmp), k, Mirror(t.l)) == Mirror(Splayed(cmp, k, t.l))
    requires Splayed(Reverse(cmp), k, Mirror(t.l.l)) == Mirror(Splayed(cmp, k, t.l.l))
    requires Rounds(Reverse(cmp), k, Mirror(t.l)) == Rounds(cmp, k, t.l)
    requires Rounds(Reverse(cmp), k, Mirror(t.l.l)) == Rounds(cmp, k, t.l.l)
    ensures Splayed(Reverse(cmp), k, Mirror(t)) == Mirror(Splayed(cmp, k, t))
    ensures Rounds(Reverse(cmp), k, Mirror(t)) == Rounds(cmp, k, t)
  {
    MirrorOfTwo(t.l.l, t.l.n, t.l.r, t.n, t.r);
    if cmp(k, t.l.n.key) >= 0 {
      var u := Splayed(cmp, k, t.l);
      MirrorOfTwo(u.l, u.n, u.r, t.n, t.r);
    } else if t.l.l.T? {
      var u, c := Splayed(cmp, k, t.l.l), T(t.l.r, t.n, t.r);
      MirrorOfTwo(u.l, u.n, u.r, t.l.n, c);
    } else {
      MirrorOfTwo(E, t.l.n, t.l.r, t.n, t.r);
    }
  }

  lemma MirrorRight<K>(cmp: (K, K) -> int, k: K, t: Tree<K>)
    requires t.T? && t.r.T? && cmp(k, t.n.key) > 0
    requires Splayed(Reverse(cmp), k, Mirror(t.r)) == Mirror(Splayed(cmp, k, t.r))
    requires Splayed(Reverse(cmp), k, Mirror(t.r.r)) == Mirror(Splayed(cmp, k, t.r.r))
    requires Rounds(Reverse(cmp), k, Mirror(t.r)) == Rounds(cmp, k, t.r)
    requires Rounds(Reverse(cmp), k, Mirror(t.r.r)) == Rounds(cmp, k, t.r.r)
    ensures Splayed(Reverse(cmp), k, Mirror(t)) == Mirror(Splayed(cmp, k, t))
    ensures Rounds(Reverse(cmp), k, Mirror(t)) == Rounds(cmp, k, t)
  {
    MirrorOfTwo(t.l, t.n, t.r.l, t.r.n, t.r.r);
    if cmp(k, t.r.n.key) <= 0 {
      var u := Splayed(cmp, k, t.r);
      MirrorOfTwo(t.l, t.n, u.l, u.n, u.r);
    } else if t.r.r.T? {
      var u, c := Splayed(cmp, k, t.r.r), T(t.l, t.n, t.r.l);
      MirrorOfTwo(c, t.r.n, u.l, u.n, u.r);
    } else {
      MirrorOfTwo(t.l, t.n, t.r.l, t.r.n, E);
    }
  }

  // ---------- what splaying costs ----------

  /** The first step rotates. */
  ghost predicate Double<K>(cmp: (K, K) -> int, k: K, t: Tree<K>) {
    t.T? && ((cmp(k, t.n.key) < 0 && t.l.T? && cmp(k, t.l.n.key) < 0) ||
             (cmp(k, t.n.key) > 0 && t.r.T? && cmp(k, t.r.n.key) > 0))
  }

  /** `q` is paid for by the loss of potential and the cube of the size. */
  ghost predicate Paid<K>(q: nat, t: Tree<K>, u: Tree<K>) {
    q * Potential(u) <= 4 * Cube(Size(t)) * Potential(t)
  }

  lemma PaidSame<K>(q: nat, t: Tree<K>)
    requires t.T? && q <= 4
    ensures Paid(q, t, t)
  {
    var s, p := Size(t), Potential(t);
    CubeGrows(s);
    Product(q, 4 * Cube(s), p, p);
  }

  lemma CubeGrows(s: nat)
    requires s > 0
    ensures 1 <= s <= Cube(s)
  {
    Positive(s, s);
    Mul(1, s * s, s);
  }

  /** One link, and what follows. */
  lemma ZigPaid<K>(t: Tree<K>, u: Tree<K>, q: nat)
    requires t.T? && t.l.T? && u.T? && Size(u) == Size(t.l) && Paid(q, t.l, u)
    ensures Paid(q, t, T(u.l, u.n, T(u.r, t.n, t.r)))
  {
    var s, a, f := Size(t), Size(t.l), Size(u.r) + 1 + Size(t.r);
    var pl, pr, pc := Potential(u.l), Potential(u.r), Potential(t.r);
    SizeOfTwo(u.l, u.n, u.r, t.n, t.r);
    ZigCost(q, 4, s, a, f, Potential(t.l), pl * pr, pc);
    assert Potential(T(u.r, t.n, t.r)) == f * (pr * pc);
    ZigPotential(pl, f, pr, pc);
  }

  lemma ZigPotential(pl: nat, f: nat, pr: nat, pc: nat)
    ensures pl * (f * (pr * pc)) == f * ((pl * pr) * pc)
  {
  }

  /** A rotation and a link, and what follows. */
  lemma ZigZigPaid<K>(t: Tree<K>, u: Tree<K>, q: nat)
    requires t.T? && t.l.T? && t.l.l.T? && u.T? && Size(u) == Size(t.l.l) && Paid(q, t.l.l, u)
    ensures Paid(4 * q, t, T(u.l, u.n, T(u.r, t.l.n, T(t.l.r, t.n, t.r))))
  {
    var s, a, b, y := Size(t), Size(t.l.l), Size(t.l), Size(t.l.r) + 1 + Size(t.r);
    var f := Size(u.r) + 1 + y;
    var pl, pr, pb, pc := Potential(u.l), Potential(u.r), Potential(t.l.r), Potential(t.r);
    var c, rest := T(t.l.r, t.n, t.r), pb * pc;
    SizeOfTwo(u.l, u.n, u.r, t.l.n, c);
    ZigZigGain(s, a, b, f, y);
    PairCost(q, 4, s, a, b, f, y, Potential(t.l.l), pl * pr, rest);
    assert Potential(c) == y * rest && Potential(T(u.r, t.l.n, c)) == f * (pr * (y * rest));
    ZigZigAfter(pl, f, pr, y, rest);
    ZigZigBefore(b, Potential(t.l.l), pb, pc);
  }

  lemma ZigZigAfter(pl: nat, f: nat, pr: nat, y: nat, rest: nat)
    ensures pl * (f * (pr * (y * rest))) == f * y * ((pl * pr) * rest)
  {
  }

  lemma ZigZigBefore(b: nat, pa: nat, pb: nat, pc: nat)
    ensures (b * (pa * pb)) * pc == b * (pa * (pb * pc))
  {
  }

  /** Two links in different directions, and what follows. */
  lemma ZigZagPaid<K>(t: Tree<K>, u: Tree<K>, q: nat)
    requires t.T? && t.l.T? && t.l.r.T? && u.T? && Size(u) == Size(t.l.r) && Paid(q, t.l.r, u)
    ensures Paid(4 * q, t, T(T(t.l.l, t.l.n, u.l), u.n, T(u.r, t.n, t.r)))
  {
    var s, a, b := Size(t), Size(t.l.r), Size(t.l);
    var f, y := Size(t.l.l) + 1 + Size(u.l), Size(u.r) + 1 + Size(t.r);
    var pl, pr, pb, pc := Potential(u.l), Potential(u.r), Potential(t.l.l), Potential(t.r);
    var x := T(t.l.l, t.l.n, u.l);
    SizeOfTwo(x, u.n, u.r, t.n, t.r);
    ZigZagGain(s, a, b, f, y);
    PairCost(q, 4, s, a, b, f, y, Potential(t.l.r), pl * pr, pb * pc);
    assert Potential(x) == f * (pb * pl) && Potential(T(u.r, t.n, t.r)) == y * (pr * pc);
    ZigZagAfter(f, y, pb, pl, pr, pc);
    ZigZagBefore(b, Potential(t.l.r), pb, pc);
  }

  lemma ZigZagAfter(f: nat, y: nat, pb: nat, pl: nat, pr: nat, pc: nat)
    ensures (f * (pb * pl)) * (y * (pr * pc)) == f * y * ((pl * pr) * (pb * pc))
  {
  }

  lemma ZigZagBefore(b: nat, pa: nat, pb: nat, pc: nat)
    ensures (b * (pb * pa)) * pc == b * (pa * (pb * pc))
  {
  }

  /** The last rotation, with nothing further left. */
  lemma LastPaid<K>(t: Tree<K>)
    requires t.T? && t.l.T? && t.l.l.E?
    ensures Paid(4, t, RotatedR(t))
  {
    var s, b, y, pb, pc := Size(t), Size(t.l), Size(t.l.r) + 1 + Size(t.r), Potential(t.l.r), Potential(t.r);
    SizeOfTwo(E, t.l.n, t.l.r, t.n, t.r);
    LastCost(s, b, y, pb * pc);
    Assoc(b, pb, pc);
    assert Potential(t.l) == b * (1 * pb) == b * pb;
    assert Potential(T(t.l.r, t.n, t.r)) == y * (pb * pc);
    assert Potential(RotatedR(t)) == s * (1 * (y * (pb * pc))) == s * (y * (pb * pc));
  }

  lemma LastCost(s: nat, b: nat, y: nat, rest: nat)
    requires s > 0 && b > 0 && y <= s
    ensures 4 * (s * (y * rest)) <= 4 * Cube(s) * (s * (b * rest))
  {
    CubeGrows(s);
    Product(1, b, y, Cube(s));
    Mul(y, b * Cube(s), 4 * (s * rest));
    LastProducts(s, b, y, rest);
  }

  lemma LastProducts(s: nat, b: nat, y: nat, rest: nat)
    ensures y * (4 * (s * rest)) == 4 * (s * (y * rest))
    ensures (b * Cube(s)) * (4 * (s * rest)) == 4 * Cube(s) * (s * (b * rest))
  {
  }

  lemma PaidLess<K>(q: nat, q': nat, t: Tree<K>, u: Tree<K>)
    requires q <= q' && Paid(q', t, u)
    ensures Paid(q, t, u)
  {
    Mul(q, q', Potential(u));
  }

  /** What splaying does to the potential pays for its rounds, but for the cube of the size: two to the number of
      rounds, times the potential afterwards, is at most four times that cube times the potential before. */
  lemma {:induction false} RoundsPaid<K>(cmp: (K, K) -> int, k: K, t: Tree<K>)
    requires t.T?
    ensures Paid(Pow2(Rounds(cmp, k, t)), t, Splayed(cmp, k, t))
    ensures Double(cmp, k, t) ==> Paid(2 * Pow2(Rounds(cmp, k, t)), t, Splayed(cmp, k, t))
    decreases Size(t), 1
  {
    if cmp(k, t.n.key) < 0 && t.l.T? {
      LeftPaid(cmp, k, t);
    } else if cmp(k, t.n.key) > 0 && t.r.T? {
      MirrorSame(t);
      MirrorSame(Splayed(cmp, k, t));
      MirrorSplayed(cmp, k, t);
      LeftPaid(Reverse(cmp), k, Mirror(t));
    } else {
      PaidSame(Pow2(Rounds(cmp, k, t)), t);
    }
  }

  lemma {:induction false} LeftPaid<K>(cmp: (K, K) -> int, k: K, t: Tree<K>)
    requires t.T? && t.l.T? && cmp(k, t.n.key) < 0
    ensures Paid(Pow2(Rounds(cmp, k, t)), t, Splayed(cmp, k, t))
    ensures Double(cmp, k, t) ==> Paid(2 * Pow2(Rounds(cmp, k, t)), t, Splayed(cmp, k, t))
    decreases Size(t), 0
  {
    var r := Rounds(cmp, k, t);
    assert Size(t.l) < Size(t) && (t.l.l.T? ==> Size(t.l.l) < Size(t.l));
    if cmp(k, t.l.n.key) >= 0 {
      LinkPaid(cmp, k, t);
    } else if t.l.l.T? {
      var u := Splayed(cmp, k, t.l.l);
      RoundsPaid(cmp, k, t.l.l);
      SplayedSize(cmp, k, t.l.l);
      ZigZigPaid(t, u, Pow2(r - 1));
      PaidLess(Pow2(r), 2 * Pow2(r), t, Splayed(cmp, k, t));
    } else {
      LastPaid(t);
      assert r == 1 + 0;
      assert Pow2(1) == 2 * Pow2(0);
      PaidLess(Pow2(r), 4, t, Splayed(cmp, k, t));
    }
  }

  /** A link to the right spine: if no rotation follows, and the loop does not stop, a link to the left one does. */
  lemma {:induction false} LinkPaid<K>(cmp: (K, K) -> int, k: K, t: Tree<K>)
    requires t.T? && t.l.T? && cmp(k, t.n.key) < 0 && cmp(k, t.l.n.key) >= 0
    ensures Paid(Pow2(Rounds(cmp, k, t)), t, Splayed(cmp, k, t))
    decreases Size(t.l), 2
  {
    var x, r := t.l, Rounds(cmp, k, t.l);
    SplayedSize(cmp, k, x);
    if Double(cmp, k, x) {
      RoundsPaid(cmp, k, x);
      ZigPaid(t, Splayed(cmp, k, x), 2 * Pow2(r));
    } else if cmp(k, x.n.key) == 0 || x.r.E? {
      assert Pow2(1) == 2 * Pow2(0);
      PaidSame(2 * Pow2(r), x);
      ZigPaid(t, x, 2 * Pow2(r));
    } else {
      RoundsPaid(cmp, k, x.r);
      SplayedSize(cmp, k, x.r);
      ZigZagPaid(t, Splayed(cmp, k, x.r), Pow2(r - 1));
    }
  }

  // ---------- whole operations ----------

  /** What an operation on a tree of `n` nodes may cost. */
  function Price(n: nat): nat {
    16 * (Cube(n + 1) * Cube(n + 1))
  }

  /** The rounds of an operation are paid for by what it does to the potential and by its price. */
  ghost predicate Amortised<K>(rounds: nat, before: Tree<K>, after: Tree<K>) {
    Pow2(rounds) * Potential(after) <= Price(Size(before)) * Potential(before)
  }

  lemma PriceAtLeast(n: nat)
    ensures 4 * Cube(n) * (4 * Cube(n)) <= Price(n)
    ensures 4 * Cube(n) * (n + 1) <= Price(n)
    ensures 1 <= Price(n) && 4 * Cube(n) <= Price(n)
  {
    Product(n, n + 1, n, n + 1);
    Product(n * n, (n + 1) * (n + 1), n, n + 1);
    CubeGrows(n + 1);
    Product(Cube(n), Cube(n + 1), Cube(n), Cube(n + 1));
    Product(Cube(n), Cube(n + 1), n + 1, Cube(n + 1));
    Product(Cube(n), Cube(n + 1), 1, Cube(n + 1));
    Product(1, Cube(n + 1), 1, Cube(n + 1));
    assert 4 * Cube(n) * (4 * Cube(n)) == 16 * (Cube(n) * Cube(n));
  }

  lemma FindAmortised<K>(cmp: (K, K) -> int, k: K, t: Tree<K>)
    ensures Amortised(Rounds(cmp, k, t), t, Splayed(cmp, k, t))
  {
    PriceAtLeast(Size(t));
    if t.T? {
      RoundsPaid(cmp, k, t);
      Mul(4 * Cube(Size(t)), Price(Size(t)), Potential(t));
    }
  }

  lemma NewRootCost(n: nat, n': nat, m: nat, p: nat, p': nat, pv: nat, v: nat, v': nat)
    requires m <= n && pv == m * p && v == n * (p' * p) && v' == n' * (p' * pv)
    ensures v' <= n' * v
  {
    Mul(m, n, p' * p);
    Swap(p', m, p);
    Product(p' * pv, v, n', n');
  }

  lemma Swap(a: nat, b: nat, c: nat)
    ensures a * (b * c) == b * (a * c)
  {
  }

  /** A new root, with the old one to its right or to its left. */
  lemma NewRoot<K>(t: Tree<K>, elm: SNode<K>, below: bool)
    requires t.T?
    ensures var u := WithRoot(t, elm, below); Size(u) == Size(t) + 1 && Potential(u) <= Size(u) * Potential(t)
  {
    if below {
      RootToRight(t, elm);
    } else {
      MirrorSame(t);
      MirrorSame(WithRoot(t, elm, false));
      RootToRight(Mirror(t), elm);
      assert Mirror(WithRoot(t, elm, false)) == T(Mirror(t.r), elm, Mirror(T(t.l, t.n, E)));
      assert Mirror(T(t.l, t.n, E)) == T(E, t.n, Mirror(t.l));
    }
  }

  lemma HalfPotential<K>(n: SNode<K>, t: Tree<K>, m: nat)
    requires m == Size(t) + 1
    ensures Size(T(E, n, t)) == m && Potential(T(E, n, t)) == m * Potential(t)
  {
    var u: Tree<K> := T(E, n, t);
    assert Size(u) == m;
    assert Potential(u) == m * (1 * Potential(t));
  }

  lemma RootToRight<K>(t: Tree<K>, elm: SNode<K>)
    requires t.T?
    ensures var u := WithRoot(t, elm, true); Size(u) == Size(t) + 1 && Potential(u) <= Size(u) * Potential(t)
  {
    var u, v, m := WithRoot(t, elm, true), T(E, t.n, t.r), Size(t.r) + 1;
    HalfPotential(t.n, t.r, m);
    NewRootCost(Size(t), Size(u), m, Potential(t.r), Potential(t.l), Potential(v), Potential(t), Potential(u));
  }

  lemma InsertAmortised<K>(cmp: (K, K) -> int, elm: SNode<K>, t: Tree<K>)
    ensures Amortised(Rounds(cmp, elm.key, t), t, InsertTree(cmp, elm, t))
  {
    var u, n, q := Splayed(cmp, elm.key, t), Size(t), Pow2(Rounds(cmp, elm.key, t));
    if t.E? {
      PriceAtLeast(0);
      HalfPotential(elm, t, 1);
    } else if cmp(elm.key, u.n.key) == 0 {
      FindAmortised(cmp, elm.key, t);
    } else {
      var below := cmp(elm.key, u.n.key) < 0;
      RoundsPaid(cmp, elm.key, t);
      SplayedSize(cmp, elm.key, t);
      NewRoot(u, elm, below);
      InsertCost(q, n, Size(WithRoot(u, elm, below)), Potential(t), Potential(u), Potential(WithRoot(u, elm, below)));
    }
  }

  lemma InsertCost(q: nat, n: nat, n': nat, a: nat, b: nat, c: nat)
    requires q * b <= 4 * Cube(n) * a && c <= n' * b && n' == n + 1
    ensures q * c <= Price(n) * a
  {
    PriceAtLeast(n);
    GrowthCost(q, 4 * Cube(n), n', Price(n), a, b, c);
  }

  lemma GrowthCost(q: nat, k: nat, n: nat, price: nat, a: nat, b: nat, c: nat)
    requires q * b <= k * a && c <= n * b && k * n <= price
    ensures q * c <= price * a
  {
    ChainIs(q, 1, q, a, b, c, k, n, k * n);
    Mul(k * n, price, a);
  }

  /** The root is removed, and its left subtree splayed. */
  lemma RootGone<K>(cmp: (K, K) -> int, k: K, t: Tree<K>)
    requires t.T?
    ensures Paid(Pow2(Rounds(cmp, k, t.l)), t, WithoutRoot(cmp, k, t))
  {
    if t.l.E? {
      assert t == T(E, t.n, t.r);
      HalfPotential(t.n, t.r, Size(t.r) + 1);
      RootDropped(Size(t), Potential(t.r), Potential(t));
    } else {
      RoundsPaid(cmp, k, t.l);
      SplayedSize(cmp, k, t.l);
      RootReplaced(t, Splayed(cmp, k, t.l), Pow2(Rounds(cmp, k, t.l)));
    }
  }

  lemma RootDropped(n: nat, p: nat, p': nat)
    requires n > 0 && p' == n * p
    ensures p <= 4 * Cube(n) * p'
  {
    CubeGrows(n);
    Mul(1, n, p);
    Product(1, 4 * Cube(n), p, p');
  }

  lemma RootReplaced<K>(t: Tree<K>, v: Tree<K>, q: nat)
    requires t.T? && t.l.T? && v.T? && Size(v) == Size(t.l) && Paid(q, t.l, v)
    ensures Paid(q, t, T(v.l, v.n, t.r))
  {
    var n, a, p, pr, u := Size(t), Size(t.l), Potential(v.l) * Potential(v.r), Potential(t.r), T(v.l, v.n, t.r);
    Carry(q, 4, a, Potential(t.l), p, pr);
    JoinCost(q, n, a, p * pr, Potential(t.l) * pr);
    Mul(1, Potential(v.r), Potential(v.l));
    Mul(Potential(v.l), p, pr);
    Product(Size(u), n - 1, Potential(v.l) * pr, p * pr);
    Product(q, q, Potential(u), (n - 1) * (p * pr));
  }

  lemma JoinCost(q: nat, n: nat, a: nat, l: nat, r: nat)
    requires 0 < a < n && q * l <= 4 * (a * a) * r
    ensures q * ((n - 1) * l) <= 4 * Cube(n) * (n * r)
  {
    Mul(q * l, 4 * (a * a) * r, n - 1);
    Product(a, n, a, n);
    Product(1, n, a * a, n * n);
    Product(4 * (a * a) * r, 4 * Cube(n) * r, n - 1, n) by { Mul(4 * (a * a), 4 * Cube(n), r); }
    JoinAfter(q, n - 1, l);
    JoinBefore(Cube(n), r, n);
  }

  lemma JoinAfter(q: nat, n: nat, l: nat)
    ensures (q * l) * n == q * (n * l)
  {
  }

  lemma JoinBefore(c: nat, r: nat, n: nat)
    ensures (4 * c * r) * n == 4 * c * (n * r)
  {
  }

  lemma RemoveCost(r: nat, r': nat, n: nat, a: nat, b: nat, c: nat)
    requires Pow2(r) * b <= 4 * Cube(n) * a && Pow2(r') * c <= 4 * Cube(n) * b
    ensures Pow2(r + r') * c <= Price(n) * a
  {
    Pow2Add(r, r');
    Chain(Pow2(r), Pow2(r'), a, b, c, 4 * Cube(n), 4 * Cube(n));
    PriceAtLeast(n);
    Mul(4 * Cube(n) * (4 * Cube(n)), Price(n), a);
  }

  lemma RemoveAmortised<K>(cmp: (K, K) -> int, k: K, t: Tree<K>)
    ensures Amortised(RemoveRounds(cmp, k, t), t, RemoveTree(cmp, k, t))
  {
    var u, r := Splayed(cmp, k, t), Rounds(cmp, k, t);
    if u.T? && cmp(k, u.n.key) == 0 {
      RoundsPaid(cmp, k, t);
      SplayedSize(cmp, k, t);
      RootGone(cmp, k, u);
      RemoveCost(r, Rounds(cmp, k, u.l), Size(t), Potential(t), Potential(u), Potential(WithoutRoot(cmp, k, u)));
    } else {
      FindAmortised(cmp, k, t);
    }
  }
}
