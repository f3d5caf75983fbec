/** The end of a stream: the padding RFC 1320 asks for, and the last blocks mdfour.c hashes. */
module Padding {
  import opened Blocks
  import opened Bytes
  import opened Division

  function Zeros(n: nat): (b: seq<Byte>)
    ensures |b| == n
  {
    seq(n, _ => 0)
  }

  /** What is appended: a one bit, zeros up to 448 modulo 512 bits, and the bit length in 64 bits. */
  function Pad(n: nat): (b: seq<Byte>)
    ensures (n + |b|) % 64 == 0
  {
    [0x80] + Zeros((119 - n % 64) % 64) + LittleEndian((8 * n) % 0x1_0000_0000_0000_0000, 8)
  }

  /** The zeros after the one bit: up to byte 56 of the first block if they fit, else of the second. */
  function Gap(n: nat): nat {
    if n <= 55 then 55 - n else if n < 64 then 119 - n else 0
  }

  /** The blocks mdfour_tail hashes: the bytes that wait, the one bit, zeros, and the bit count in one word. */
  function TailBlocks(tail: seq<Byte>, total: nat): (b: seq<Byte>)
    ensures |tail| < 64 ==> |b| == if |tail| <= 55 then 64 else 128
  {
    tail + [0x80] + Zeros(Gap(|tail|)) + LittleEndian((total * 8) % WORD, 4) + Zeros(4)
  }

  lemma ShortFits(n: nat)
    ensures n < 0x2000_0000 ==> HighWord(n) == 0
    ensures HighWord(0x2000_0000) == 1
  {
    assert n < 0x2000_0000 ==> 8 * n < WORD;
  }

  /** The shortest message for which they differ: its bit count is 2^32, of which one word keeps nothing. */
  lemma TailIsNotPadding(tail: seq<Byte>, n: nat)
    requires tail == [] && n == 0x2000_0000
    ensures TailBlocks(tail, n % WORD) != tail + Pad(n)
  {
    ShortFits(n);
    TailIsPadding(tail, n);
  }

  /** The buffer with the bit count written over it at `at`. */
  lemma TailBytes(tail: seq<Byte>, total: nat, start: seq<Byte>, at: nat, buf: seq<Byte>)
    requires |tail| < 64 && at == if |tail| <= 55 then 56 else 120
    requires start == tail + [0x80] + Zeros(127 - |tail|)
    requires buf == start[..at] + LittleEndian((total * 8) % WORD, 4) + start[at + 4..]
    ensures TailBlocks(tail, total) == buf[..at + 8]
  {
    var front := tail + [0x80];
    assert start[..at] == front + Zeros(at - |front|);
    assert start[at + 4..at + 8] == Zeros(4);
    assert buf[..at + 8] == start[..at] + LittleEndian((total * 8) % WORD, 4) + start[at + 4..at + 8];
  }

  // ---------- numbers in bytes ----------

  lemma FourBytes(x: nat)
    requires x < WORD
    ensures LittleEndian(x, 4) == [x % 256, x / 0x100 % 256, x / 0x1_0000 % 256, x / 0x100_0000 % 256]
  {
    var a, b, c := x / 0x100, x / 0x1_0000, x / 0x100_0000;
    assert a / 256 == b && b / 256 == c;
    assert LittleEndian(c, 1) == [c % 256] + LittleEndian(c / 256, 0);
    assert LittleEndian(b, 2) == [b % 256] + LittleEndian(c, 1);
    assert LittleEndian(a, 3) == [a % 256] + LittleEndian(b, 2);
    assert LittleEndian(x, 4) == [x % 256] + LittleEndian(a, 3);
  }

  /** `n` without its `k` low-order bytes. */
  function Drop(n: nat, k: nat): nat {
    if k == 0 then n else Drop(n / 256, k - 1)
  }

  lemma {:induction false} LittleEndianSplit(n: nat, j: nat, k: nat)
    ensures LittleEndian(n, j + k) == LittleEndian(n, j) + LittleEndian(Drop(n, j), k)
  {
    if j > 0 { LittleEndianSplit(n / 256, j - 1, k); }
  }

  lemma {:induction false} LittleEndianZero(n: nat, k: nat)
    ensures LittleEndian(n, k) == Zeros(k) <==> n % Pow256(k) == 0
  {
    if k > 0 {
      var d, rest := n % 256, LittleEndian(n / 256, k - 1);
      LittleEndianZero(n / 256, k - 1);
      ModDiv(n, Pow256(k - 1));
      assert Zeros(k) == [0] + Zeros(k - 1);
      assert ([d] + rest)[0] == d && ([d] + rest)[1..] == rest && ([0] + Zeros(k - 1))[1..] == Zeros(k - 1);
    }
  }

  /** The high word of the 64-bit bit count of a message of `n` bytes. */
  function HighWord(n: nat): nat {
    8 * n / WORD % WORD
  }

  /** The code writes the low word of the bit count and zeros: that is the count of RFC 1320 exactly when its
      high word is zero. */
  lemma CountBytes(n: nat)
    ensures LittleEndian((8 * n) % (WORD * WORD), 8) == LittleEndian(((n % WORD) * 8) % WORD, 4) + Zeros(4) <==>
            HighWord(n) == 0
  {
    var x := (8 * n) % (WORD * WORD);
    Word256();
    WordParts(n);
    LittleEndianSplit(x, 4, 4);
    LittleEndianMod(x, x % WORD, 4);
    DropWord(x);
    LittleEndianZero(x / WORD, 4);
    Cancel(LittleEndian(x % WORD, 4), LittleEndian(x / WORD, 4), Zeros(4));
  }

  lemma Word256()
    ensures Pow256(4) == WORD
  {
    assert Pow256(1) == 256 && Pow256(2) == 65536 && Pow256(3) == 16777216;
  }

  lemma DropWord(x: nat)
    ensures Drop(x, 4) == x / WORD
  {
    var a, b, c := x / 256, x / 65536, x / 16777216;
    assert a / 256 == b && b / 256 == c && c / 256 == x / WORD;
    assert Drop(x, 4) == Drop(a, 3) == Drop(b, 2) == Drop(c, 1) == Drop(c / 256, 0);
  }

  lemma Cancel(front: seq<Byte>, a: seq<Byte>, b: seq<Byte>)
    ensures front + a == front + b <==> a == b
  {
    assert (front + a)[|front|..] == a && (front + b)[|front|..] == b;
  }

  lemma WordParts(n: nat)
    ensures (8 * n) % (WORD * WORD) % WORD == ((n % WORD) * 8) % WORD
    ensures (8 * n) % (WORD * WORD) / WORD == HighWord(n)
    ensures (8 * n) % (WORD * WORD) / WORD % WORD == HighWord(n)
  {
    var y := 8 * n;
    var q, r := y / (WORD * WORD), y % (WORD * WORD);
    assert y == WORD * WORD * q + r;
    var h, l := r / WORD, r % WORD;
    assert y == WORD * (WORD * q + h) + l;
    DivMod(y, WORD, WORD * q + h, l);
    DivMod(WORD * q + h, WORD, q, h);
    var k, m := n / WORD, n % WORD;
    assert y == WORD * (8 * k) + 8 * m;
    var u, v := 8 * m / WORD, 8 * m % WORD;
    assert y == WORD * (8 * k + u) + v;
    DivMod(y, WORD, 8 * k + u, v);
  }

  /** mdfour_tail's blocks are the rest of the message and the padding of RFC 1320, exactly when the high word
      of the bit count is zero. */
  lemma TailIsPadding(tail: seq<Byte>, n: nat)
    requires |tail| == n % 64
    ensures TailBlocks(tail, n % WORD) == tail + Pad(n) <==> HighWord(n) == 0
  {
    var bits, full := LittleEndian(((n % WORD) * 8) % WORD, 4), LittleEndian((8 * n) % (WORD * WORD), 8);
    var z := Zeros(Gap(|tail|));
    CountBytes(n);
    GapFills(n);
    assert TailBlocks(tail, n % WORD) == tail + [0x80] + z + bits + Zeros(4);
    assert Pad(n) == [0x80] + z + full;
    SameFront(tail, z, bits, Zeros(4), full);
  }

  lemma GapFills(n: nat)
    ensures Gap(n % 64) == (119 - n % 64) % 64
  {
  }

  lemma SameFront(tail: seq<Byte>, z: seq<Byte>, bits: seq<Byte>, zeros: seq<Byte>, full: seq<Byte>)
    ensures tail + [0x80] + z + bits + zeros == tail + ([0x80] + z + full) <==> full == bits + zeros
  {
    Cancel(tail + [0x80] + z, bits + zeros, full);
    Assoc(tail, [0x80], z, full);
    Assoc2(tail + [0x80] + z, bits, zeros);
  }

  lemma Assoc(a: seq<Byte>, b: seq<Byte>, c: seq<Byte>, d: seq<Byte>)
    ensures a + b + c + d == a + (b + c + d)
  {
  }

  lemma Assoc2(a: seq<Byte>, b: seq<Byte>, c: seq<Byte>)
    ensures a + b + c == a + (b + c)
  {
  }

  /** For a message whose bit count fits one word (one below 2^29 bytes, say) the blocks mdfour_tail hashes are the
      bytes that wait and the padding of RFC 1320. */
  lemma TailIs(msg: seq<Byte>)
    requires HighWord(|msg|) == 0
    ensures var n := Whole(msg); TailBlocks(msg[n..], |msg| % WORD) == msg[n..] + Pad(|msg|)
  {
    var n := Whole(msg);
    WholeRest(n, |msg[n..]|, |msg|);
    TailIsPadding(msg[n..], |msg|);
  }
}
