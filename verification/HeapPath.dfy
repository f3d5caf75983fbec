/** The bits of a slot number as the path from the root to the slot. */
module HeapPath {
  import opened Powers

  const WORD: int := 0x1_0000_0000

  /** `n` shifted right by `k` bits: the ancestor `k` levels above slot `n`. */
  ghost function Shift(n: nat, k: nat): nat {
    if k == 0 then n else Shift(n / 2, k - 1)
  }

  lemma {:induction false} ShiftStep(n: nat, k: nat)
    ensures Shift(n, k + 1) == Shift(n, k) / 2
  {
    if k > 0 { ShiftStep(n / 2, k - 1); }
  }

  /** Halving a word `k` times leaves something only for k < 32. */
  lemma {:induction false} ShiftBound(n: nat, k: nat)
    requires Shift(n, k) >= 1
    ensures Pow2(k) <= n
  {
    if k > 0 { ShiftBound(n / 2, k - 1); }
  }

  /** The low `k` bits of `n` in reversed order, the way the loops of heap_insert and heap_remove collect them. */
  ghost function Reversed(n: nat, k: nat): nat {
    if k == 0 then 0 else (n % 2) * Pow2(k - 1) + Reversed(n / 2, k - 1)
  }

  lemma {:induction false} ReversedBound(n: nat, k: nat)
    ensures Reversed(n, k) < Pow2(k)
  {
    if k > 0 { ReversedBound(n / 2, k - 1); }
  }

  /** The lowest collected bit says whether the ancestor is a left or a right child. */
  lemma {:induction false} ReversedStep(n: nat, k: nat)
    ensures Reversed(n, k + 1) / 2 == Reversed(n, k)
    ensures Reversed(n, k + 1) % 2 == Shift(n, k) % 2
  {
    if k == 0 {
      assert Reversed(n, 1) == n % 2;
    } else {
      ReversedStep(n / 2, k - 1);
      var b, p, r := n % 2, Pow2(k - 1), Reversed(n / 2, k);
      assert Reversed(n, k + 1) == b * Pow2(k) + r && b * Pow2(k) == 2 * (b * p);
      assert Reversed(n, k) == b * p + Reversed(n / 2, k - 1);
    }
  }

  /** One more round of the collecting loop; the word does not overflow. */
  lemma CollectStep(n: nat, k: nat)
    requires Shift(n, k) >= 2 && n < 0x1_0000_0000
    ensures 2 * Reversed(n, k) + Shift(n, k) % 2 == Reversed(n, k + 1) < 0x1_0000_0000
    ensures Shift(n, k + 1) == Shift(n, k) / 2
  {
    ReversedStep(n, k);
    ShiftStep(n, k);
    ShiftBound(n, k + 1);
    ReversedBound(n, k + 1);
  }

  lemma {:induction false} ShiftLeast(n: nat, k: nat)
    ensures Shift(n, k) <= n
  {
    if k > 0 { ShiftLeast(n / 2, k - 1); }
  }

  /** One step down the path: from an ancestor to its child on the way to slot `n`. */
  lemma WalkStep(n: nat, k: nat)
    requires k > 0 && Shift(n, k) >= 1
    ensures Shift(n, k - 1) == 2 * Shift(n, k) + Reversed(n, k) % 2
    ensures Reversed(n, k - 1) == Reversed(n, k) / 2
    ensures Shift(n, k) <= n / 2
  {
    ReversedStep(n, k - 1);
    ShiftStep(n, k - 1);
    ShiftLeast(n / 2, k - 1);
  }
}
