/** Numbers as bytes, the low-order byte first. */
module Bytes {
  import opened Division

  type Byte = b: int | 0 <= b < 256

  /** The `k` low-order bytes of a number, the lowest first. */
  function LittleEndian(n: nat, k: nat): (b: seq<Byte>)
    ensures |b| == k
  {
    if k == 0 then [] else [n % 256] + LittleEndian(n / 256, k - 1)
  }

  function Pow256(k: nat): (p: nat)
    ensures p > 0
  {
    if k == 0 then 1 else 256 * Pow256(k - 1)
  }

  /** The number the bytes stand for. */
  function Value(b: seq<Byte>): nat {
    if b == [] then 0 else b[0] + 256 * Value(b[1..])
  }

  lemma {:induction false} ValueOf(n: nat, k: nat)
    requires n < Pow256(k)
    ensures Value(LittleEndian(n, k)) == n
  {
    if k > 0 {
      ValueOf(n / 256, k - 1);
      assert LittleEndian(n, k)[1..] == LittleEndian(n / 256, k - 1);
    }
  }

  lemma {:induction false} LittleEndianMod(n: nat, m: nat, k: nat)
    requires m == n % Pow256(k)
    ensures LittleEndian(n, k) == LittleEndian(m, k)
  {
    if k > 0 {
      var p := Pow256(k - 1);
      ModDiv(n, p);
      LittleEndianMod(n / 256, m / 256, k - 1);
    }
  }
}
