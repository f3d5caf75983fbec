/** The comparison macro `cmp` that every tree of tree.h is instantiated with. */
module Order {
  /** `cmp` is a total preorder: its sign is antisymmetric and "at most" is transitive. */
  ghost predicate IsOrder<K(!new)>(cmp: (K, K) -> int) {
    && (forall a, b :: cmp(a, b) < 0 <==> cmp(b, a) > 0)
    && (forall a, b, c :: cmp(a, b) <= 0 && cmp(b, c) <= 0 ==> cmp(a, c) <= 0)
  }
}

/** What one insertion or removal does to a sequence. */
module Edits {
  /** `x` was added at one place and nothing else changed. */
  ghost predicate Inserted<T>(s: seq<T>, x: T, s': seq<T>) {
    exists i :: 0 <= i <= |s| && s' == s[..i] + [x] + s[i..]
  }

  /** `x` was taken out of one place and nothing else changed. */
  ghost predicate Removed<T>(s: seq<T>, x: T, s': seq<T>) {
    exists i :: 0 <= i < |s| && s[i] == x && s' == s[..i] + s[i + 1..]
  }

  ghost predicate Ascending<T>(below: (T, T) -> bool, s: seq<T>) {
    forall i, j :: 0 <= i < j < |s| ==> below(s[i], s[j])
  }

  /** Two ascending sequences, the first below the second. */
  lemma AscendingJoin<T>(below: (T, T) -> bool, a: seq<T>, b: seq<T>)
    ensures Ascending(below, a + b) <==>
            Ascending(below, a) && Ascending(below, b) &&
            forall i, j :: 0 <= i < |a| && 0 <= j < |b| ==> below(a[i], b[j])
  {
    var s := a + b;
    assert forall i :: 0 <= i < |a| ==> s[i] == a[i];
    assert forall j :: 0 <= j < |b| ==> s[|a| + j] == b[j];
    if Ascending(below, s) {
      forall i, j | 0 <= i < |a| && 0 <= j < |b| ensures below(a[i], b[j]) { assert below(s[i], s[|a| + j]); }
      forall i, j | 0 <= i < j < |b| ensures below(b[i], b[j]) { assert below(s[|a| + i], s[|a| + j]); }
    }
  }

  /** A new element between its neighbours keeps the sequence ascending. */
  lemma AscendingAdd<T>(below: (T, T) -> bool, a: seq<T>, x: T, b: seq<T>)
    requires Ascending(below, a + b)
    requires forall i :: 0 <= i < |a| ==> below(a[i], x)
    requires forall i :: 0 <= i < |b| ==> below(x, b[i])
    ensures Ascending(below, a + [x] + b) && Inserted(a + b, x, a + [x] + b)
  {
    AscendingJoin(below, a, b);
    AscendingJoin(below, a, [x]);
    AscendingJoin(below, a + [x], b);
    assert (a + b)[..|a|] == a && (a + b)[|a|..] == b;
  }

  /** Without an element it is still ascending. */
  lemma AscendingDrop<T>(below: (T, T) -> bool, a: seq<T>, x: T, b: seq<T>)
    requires Ascending(below, a + [x] + b)
    ensures Ascending(below, a + b) && Removed(a + [x] + b, x, a + b)
  {
    var s, s' := a + [x] + b, a + b;
    assert s' == s[..|a|] + s[|a| + 1..];
    forall i, j | 0 <= i < j < |s'| ensures below(s'[i], s'[j]) {
      assert s'[i] == s[if i < |a| then i else i + 1] && s'[j] == s[if j < |a| then j else j + 1];
    }
  }
}

/** Powers of two. */
module Powers {
  ghost function Pow2(n: nat): nat {
    if n == 0 then 1 else 2 * Pow2(n - 1)
  }

  lemma {:induction false} Pow2Add(a: nat, b: nat)
    ensures Pow2(a + b) == Pow2(a) * Pow2(b)
  {
    if a > 0 {
      Pow2Add(a - 1, b);
      TwiceProduct(Pow2(a - 1), Pow2(b));
    }
  }

  lemma TwiceProduct(x: nat, y: nat)
    ensures 2 * (x * y) == (2 * x) * y
  {
  }

  lemma {:induction false} Pow2Monotone(a: nat, b: nat)
    requires a <= b
    ensures 1 <= Pow2(a) <= Pow2(b)
    decreases b
  {
    if a < b { Pow2Monotone(a, b - 1); } else if a > 0 { Pow2Monotone(a - 1, b - 1); }
  }
}

/** Quotients and remainders of products. */
module Division {
  lemma MulAtLeast(d: nat, k: int)
    requires k >= 1
    ensures d * k >= d
  {
    assert d * k == d + d * (k - 1);
  }

  lemma DivMod(n: nat, d: nat, q: nat, r: nat)
    requires d > 0 && n == d * q + r && r < d
    ensures n % d == r
  {
    var q', r' := n / d, n % d;
    assert d * (q - q') == r' - r;
    if q - q' >= 1 { MulAtLeast(d, q - q'); }
    if q' - q >= 1 { MulAtLeast(d, q' - q); }
  }

  lemma ModAdd(a: nat, b: nat, d: nat)
    requires d > 0
    ensures (a % d + b) % d == (a + b) % d
  {
    var q, q' := a / d, (a % d + b) / d;
    assert a + b == d * (q + q') + (a % d + b) % d;
    DivMod(a + b, d, q + q', (a % d + b) % d);
  }

  lemma ModDiv(n: nat, p: nat)
    requires p > 0
    ensures (n % (256 * p)) / 256 == (n / 256) % p
    ensures (n % (256 * p)) % 256 == n % 256
  {
    var q, r := n / 256, n % 256;
    var s, t := q / p, q % p;
    assert n == 256 * q + r && q == p * s + t;
    var x := 256 * t + r;
    assert n == (256 * p) * s + x by {
      assert 256 * (p * s + t) + r == (256 * p) * s + x;
    }
    assert t <= p - 1 && 256 * t <= 256 * (p - 1);
    DivMod(n, 256 * p, s, x);
  }
}
