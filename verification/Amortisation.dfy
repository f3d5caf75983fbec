/** Runs of operations whose costs are paid for by a potential. */
module Amortisation {
  import opened Powers

  /** The state after a run. */
  ghost function Final<O, S>(next: (O, S) -> S, ops: seq<O>, s: S): S {
    if ops == [] then s else Final(next, ops[1..], next(ops[0], s))
  }

  /** What the operations of a run cost together. */
  ghost function Total<O, S>(next: (O, S) -> S, cost: (O, S) -> nat, ops: seq<O>, s: S): nat {
    if ops == [] then 0 else cost(ops[0], s) + Total(next, cost, ops[1..], next(ops[0], s))
  }

  /** The cost `r` is paid for by a change of the potential from `before` to `after`, and by the price `e`; potentials
      are taken to the power of two. */
  ghost predicate Covered(r: nat, before: nat, after: nat, e: nat) {
    Pow2(r) * after <= Pow2(e) * before
  }

  /** `m` times `e`, as a recursion. */
  ghost function Times(m: nat, e: nat): nat {
    if m == 0 then 0 else e + Times(m - 1, e)
  }

  lemma {:induction false} TimesIs(m: nat, e: nat)
    ensures Times(m, e) == m * e
  {
    if m > 0 { TimesIs(m - 1, e); }
  }

  lemma Mul(a: nat, b: nat, c: nat)
    requires a <= b
    ensures a * c <= b * c
  {
    assert (b - a) * c >= 0;
    assert b * c == a * c + (b - a) * c;
  }

  /** One step after another. */
  lemma Chain(q: nat, q': nat, a: nat, b: nat, c: nat, k: nat, k': nat)
    requires q * b <= k * a && q' * c <= k' * b
    ensures (q * q') * c <= (k * k') * a
  {
    Mul(q' * c, k' * b, q);
    Mul(q * b, k * a, k');
    assert (q' * c) * q == (q * q') * c && (k' * b) * q == (q * b) * k' && (k * a) * k' == (k * k') * a;
  }

  lemma ChainIs(q: nat, q': nat, q'': nat, a: nat, b: nat, c: nat, k: nat, k': nat, k'': nat)
    requires q * b <= k * a && q' * c <= k' * b && q'' == q * q' && k'' == k * k'
    ensures q'' * c <= k'' * a
  {
    Chain(q, q', a, b, c, k, k');
  }

  lemma CoveredBoth(r: nat, r': nat, a: nat, b: nat, c: nat, e: nat, e': nat)
    requires Covered(r, a, b, e) && Covered(r', b, c, e')
    ensures Covered(r + r', a, c, e + e')
  {
    Pow2Add(r, r');
    Pow2Add(e, e');
    ChainIs(Pow2(r), Pow2(r'), Pow2(r + r'), a, b, c, Pow2(e), Pow2(e'), Pow2(e + e'));
  }

  /** When each operation is covered, in the states that leave room for what is still to come, a run is. */
  lemma {:induction false} RunCovered<O, S>(next: (O, S) -> S, cost: (O, S) -> nat, pot: S -> nat,
                                             room: (S, seq<O>) -> bool, ops: seq<O>, s: S, e: nat)
    requires room(s, ops)
    requires forall o, t, rest ::
               room(t, [o] + rest) ==> room(next(o, t), rest) && Covered(cost(o, t), pot(t), pot(next(o, t)), e)
    ensures Covered(Total(next, cost, ops, s), pot(s), pot(Final(next, ops, s)), Times(|ops|, e))
    decreases |ops|
  {
    if ops != [] {
      var o, rest := ops[0], ops[1..];
      var u := next(o, s);
      assert ops == [o] + rest;
      RunCovered(next, cost, pot, room, rest, u, e);
      CoveredBoth(cost(o, s), Total(next, cost, rest, u), pot(s), pot(u), pot(Final(next, rest, u)), e,
                  Times(|rest|, e));
    }
  }
}
