/** mdfour.c: the streaming implementation of MD4. */
module Md4 {
  import opened Blocks
  import opened BlocksRuns
  import opened Bytes
  import opened Padding
  import opened Md4Spec

  // ---------- the macros ----------

  function Lshift(x: Word, s: Word): Word
    requires 0 < s < 32
  {
    (x << s) | (x >> (32 - s))
  }

  /** The shifts the macros are used with, as a word and as a number. */
  predicate IsShift(s: Word, n: nat) {
    (s == 3 && n == 3) || (s == 5 && n == 5) || (s == 7 && n == 7) || (s == 9 && n == 9) ||
    (s == 11 && n == 11) || (s == 13 && n == 13) || (s == 15 && n == 15) || (s == 19 && n == 19)
  }

  lemma Rotate3(x: Word)
    ensures Lshift(x, 3) == Rotate(x, 3)
  {
  }

  lemma Rotate5(x: Word)
    ensures Lshift(x, 5) == Rotate(x, 5)
  {
    Rotate3(x.RotateLeft(1).RotateLeft(1));
    assert Rotate(x, 5) == Rotate(x.RotateLeft(1), 4);
    assert Rotate(x.RotateLeft(1), 4) == Rotate(x.RotateLeft(1).RotateLeft(1), 3);
    assert Lshift(x.RotateLeft(1).RotateLeft(1), 3) == Lshift(x, 5);
  }

  lemma Rotate7(x: Word)
    ensures Lshift(x, 7) == Rotate(x, 7)
  {
    Rotate5(x.RotateLeft(1).RotateLeft(1));
    assert Rotate(x, 7) == Rotate(x.RotateLeft(1), 6);
    assert Rotate(x.RotateLeft(1), 6) == Rotate(x.RotateLeft(1).RotateLeft(1), 5);
    assert Lshift(x.RotateLeft(1).RotateLeft(1), 5) == Lshift(x, 7);
  }

  lemma Rotate9(x: Word)
    ensures Lshift(x, 9) == Rotate(x, 9)
  {
    Rotate7(x.RotateLeft(1).RotateLeft(1));
    assert Rotate(x, 9) == Rotate(x.RotateLeft(1), 8);
    assert Rotate(x.RotateLeft(1), 8) == Rotate(x.RotateLeft(1).RotateLeft(1), 7);
    assert Lshift(x.RotateLeft(1).RotateLeft(1), 7) == Lshift(x, 9);
  }

  lemma Rotate11(x: Word)
    ensures Lshift(x, 11) == Rotate(x, 11)
  {
    Rotate9(x.RotateLeft(1).RotateLeft(1));
    assert Rotate(x, 11) == Rotate(x.RotateLeft(1), 10);
    assert Rotate(x.RotateLeft(1), 10) == Rotate(x.RotateLeft(1).RotateLeft(1), 9);
    assert Lshift(x.RotateLeft(1).RotateLeft(1), 9) == Lshift(x, 11);
  }

  lemma Rotate13(x: Word)
    ensures Lshift(x, 13) == Rotate(x, 13)
  {
    Rotate11(x.RotateLeft(1).RotateLeft(1));
    assert Rotate(x, 13) == Rotate(x.RotateLeft(1), 12);
    assert Rotate(x.RotateLeft(1), 12) == Rotate(x.RotateLeft(1).RotateLeft(1), 11);
    assert Lshift(x.RotateLeft(1).RotateLeft(1), 11) == Lshift(x, 13);
  }

  lemma Rotate15(x: Word)
    ensures Lshift(x, 15) == Rotate(x, 15)
  {
    Rotate13(x.RotateLeft(1).RotateLeft(1));
    assert Rotate(x, 15) == Rotate(x.RotateLeft(1), 14);
    assert Rotate(x.RotateLeft(1), 14) == Rotate(x.RotateLeft(1).RotateLeft(1), 13);
    assert Lshift(x.RotateLeft(1).RotateLeft(1), 13) == Lshift(x, 15);
  }

  lemma Rotate19(x: Word)
    ensures Lshift(x, 19) == Rotate(x, 19)
  {
    Rotate15(x.RotateLeft(1).RotateLeft(1).RotateLeft(1).RotateLeft(1));
    assert Rotate(x, 19) == Rotate(x.RotateLeft(1), 18);
    assert Rotate(x.RotateLeft(1), 18) == Rotate(x.RotateLeft(1).RotateLeft(1), 17);
    assert Rotate(x.RotateLeft(1).RotateLeft(1), 17) == Rotate(x.RotateLeft(1).RotateLeft(1).RotateLeft(1), 16);
    assert Rotate(x.RotateLeft(1).RotateLeft(1).RotateLeft(1), 16) ==
           Rotate(x.RotateLeft(1).RotateLeft(1).RotateLeft(1).RotateLeft(1), 15);
    assert Lshift(x.RotateLeft(1).RotateLeft(1).RotateLeft(1).RotateLeft(1), 15) == Lshift(x, 19);
  }

  /** For the shifts it is used with the macro is the rotation. */
  lemma LshiftRotates(x: Word)
    ensures Lshift(x, 3) == Rotate(x, 3) && Lshift(x, 5) == Rotate(x, 5)
    ensures Lshift(x, 7) == Rotate(x, 7) && Lshift(x, 9) == Rotate(x, 9)
    ensures Lshift(x, 11) == Rotate(x, 11) && Lshift(x, 13) == Rotate(x, 13)
    ensures Lshift(x, 15) == Rotate(x, 15) && Lshift(x, 19) == Rotate(x, 19)
  {
    Rotate3(x); Rotate5(x); Rotate7(x); Rotate9(x); Rotate11(x); Rotate13(x); Rotate15(x); Rotate19(x);
  }

  /** lshift: a rotation. */
  method Turn(x: Word, s: Word, ghost n: nat) returns (r: Word)
    requires IsShift(s, n)
    ensures r == Rotate(x, n)
  {
    r := Lshift(x, s);
    LshiftRotates(x);
  }

  /** F is the conditional that section 3.4 of RFC 1320 describes: the bit of `y` where `x` has a one, else that of
      `z`. */
  lemma FSelects(x: Word, y: Word, z: Word)
    ensures F(x, y, z) & x == y & x
    ensures F(x, y, z) & !x == z & !x
  {
  }

  /** G is the majority: wherever two of the words have the same bit, that is the bit. */
  lemma GIsMajority(x: Word, y: Word, z: Word)
    ensures G(x, y, z) & !(x ^ y) == x & !(x ^ y)
    ensures G(x, y, z) & !(x ^ z) == x & !(x ^ z)
    ensures G(x, y, z) & !(y ^ z) == y & !(y ^ z)
  {
  }

  /** H is the parity: without one of the words, the other two are left. */
  lemma HIsParity(x: Word, y: Word, z: Word)
    ensures H(x, y, z) ^ x == y ^ z
  {
  }

  /** The constants of the rounds are the first 32 bits of the square roots of two and three. */
  lemma RoundConstants()
    ensures var c := (Sum(Two, 0, 0, 0, 0, 0)) as int; c * c <= 2 * 0x1000_0000_0000_0000 < (c + 1) * (c + 1)
    ensures var c := (Sum(Three, 0, 0, 0, 0, 0)) as int; c * c <= 3 * 0x1000_0000_0000_0000 < (c + 1) * (c + 1)
  {
    assert Sum(Two, 0, 0, 0, 0, 0) == 0x5A827999 && Sum(Three, 0, 0, 0, 0, 0) == 0x6ED9EBA1;
  }

  method ROUND1(a: Word, b: Word, c: Word, d: Word, x: Word, s: Word, ghost n: nat) returns (r: Word)
    requires IsShift(s, n)
    ensures r == Op(One, a, b, c, d, x, n)
  {
    var sum := a + F(b, c, d) + x;
    r := Turn(sum, s, n);
  }

  method ROUND2(a: Word, b: Word, c: Word, d: Word, x: Word, s: Word, ghost n: nat) returns (r: Word)
    requires IsShift(s, n)
    ensures r == Op(Two, a, b, c, d, x, n)
  {
    var sum := a + G(b, c, d) + x + 0x5A827999;
    r := Turn(sum, s, n);
  }

  method ROUND3(a: Word, b: Word, c: Word, d: Word, x: Word, s: Word, ghost n: nat) returns (r: Word)
    requires IsShift(s, n)
    ensures r == Op(Three, a, b, c, d, x, n)
  {
    var sum := a + H(b, c, d) + x + 0x6ED9EBA1;
    r := Turn(sum, s, n);
  }

  /** Four macro calls in a row: every register is updated once. */
  method FourOfOne(a: Word, b: Word, c: Word, d: Word, w0: Word, w1: Word, w2: Word, w3: Word)
    returns (A: Word, B: Word, C: Word, D: Word)
    ensures State(A, B, C, D) == RowOf(One, w0, w1, w2, w3, State(a, b, c, d))
  {
    A, B, C, D := a, b, c, d;
    A := ROUND1(A, B, C, D, w0, 3, 3);
    D := ROUND1(D, A, B, C, w1, 7, 7);
    C := ROUND1(C, D, A, B, w2, 11, 11);
    B := ROUND1(B, C, D, A, w3, 19, 19);
  }

  /** Four macro calls in a row: every register is updated once. */
  method FourOfTwo(a: Word, b: Word, c: Word, d: Word, w0: Word, w1: Word, w2: Word, w3: Word)
    returns (A: Word, B: Word, C: Word, D: Word)
    ensures State(A, B, C, D) == RowOf(Two, w0, w1, w2, w3, State(a, b, c, d))
  {
    A, B, C, D := a, b, c, d;
    A := ROUND2(A, B, C, D, w0, 3, 3);
    D := ROUND2(D, A, B, C, w1, 5, 5);
    C := ROUND2(C, D, A, B, w2, 9, 9);
    B := ROUND2(B, C, D, A, w3, 13, 13);
  }

  /** Four macro calls in a row: every register is updated once. */
  method FourOfThree(a: Word, b: Word, c: Word, d: Word, w0: Word, w1: Word, w2: Word, w3: Word)
    returns (A: Word, B: Word, C: Word, D: Word)
    ensures State(A, B, C, D) == RowOf(Three, w0, w1, w2, w3, State(a, b, c, d))
  {
    A, B, C, D := a, b, c, d;
    A := ROUND3(A, B, C, D, w0, 3, 3);
    D := ROUND3(D, A, B, C, w1, 9, 9);
    C := ROUND3(C, D, A, B, w2, 11, 11);
    B := ROUND3(B, C, D, A, w3, 15, 15);
  }

  /** The first round of mdfour64. */
  method RoundOne(st: State, M: array<Word>) returns (st': State)
    requires M.Length == 16
    ensures st' == Rows(One, M[..], st)
  {
    var A, B, C, D := st.a, st.b, st.c, st.d;
    A, B, C, D := FourOfOne(A, B, C, D, M[0], M[1], M[2], M[3]);
    A, B, C, D := FourOfOne(A, B, C, D, M[4], M[5], M[6], M[7]);
    A, B, C, D := FourOfOne(A, B, C, D, M[8], M[9], M[10], M[11]);
    A, B, C, D := FourOfOne(A, B, C, D, M[12], M[13], M[14], M[15]);
    st' := State(A, B, C, D);
  }

  /** The second round of mdfour64. */
  method RoundTwo(st: State, M: array<Word>) returns (st': State)
    requires M.Length == 16
    ensures st' == Rows(Two, M[..], st)
  {
    var A, B, C, D := st.a, st.b, st.c, st.d;
    A, B, C, D := FourOfTwo(A, B, C, D, M[0], M[4], M[8], M[12]);
    A, B, C, D := FourOfTwo(A, B, C, D, M[1], M[5], M[9], M[13]);
    A, B, C, D := FourOfTwo(A, B, C, D, M[2], M[6], M[10], M[14]);
    A, B, C, D := FourOfTwo(A, B, C, D, M[3], M[7], M[11], M[15]);
    assert Picks(Two, 0) == [0, 4, 8, 12] && Picks(Two, 1) == [1, 5, 9, 13];
    assert Picks(Two, 2) == [2, 6, 10, 14] && Picks(Two, 3) == [3, 7, 11, 15];
    st' := State(A, B, C, D);
  }

  /** The third round of mdfour64. */
  method RoundThree(st: State, M: array<Word>) returns (st': State)
    requires M.Length == 16
    ensures st' == Rows(Three, M[..], st)
  {
    var A, B, C, D := st.a, st.b, st.c, st.d;
    A, B, C, D := FourOfThree(A, B, C, D, M[0], M[8], M[4], M[12]);
    A, B, C, D := FourOfThree(A, B, C, D, M[2], M[10], M[6], M[14]);
    A, B, C, D := FourOfThree(A, B, C, D, M[1], M[9], M[5], M[13]);
    A, B, C, D := FourOfThree(A, B, C, D, M[3], M[11], M[7], M[15]);
    st' := State(A, B, C, D);
  }

  /** The three rounds on the registers, and the old registers added. */
  method Rounds(st: State, M: array<Word>) returns (st': State)
    requires M.Length == 16
    ensures st' == Compress(st, M[..])
  {
    st' := RoundOne(st, M);
    st' := RoundTwo(st', M);
    st' := RoundThree(st', M);
    st' := AddState(st', st);
  }

  lemma ByteSmall(b: Byte)
    ensures b as Word <= 0xFF
  {
  }

  /** Shifting four bytes to their places and joining them is the sum with place values. */
  lemma ShiftsAdd(b0: Word, b1: Word, b2: Word, b3: Word)
    requires b0 <= 0xFF && b1 <= 0xFF && b2 <= 0xFF && b3 <= 0xFF
    ensures (b3 << 24) | (b2 << 16) | (b1 << 8) | (b0 << 0) == b0 + 0x100 * b1 + 0x1_0000 * b2 + 0x100_0000 * b3
  {
  }

  /** One word of copy64. */
  method Joined(b0: Byte, b1: Byte, b2: Byte, b3: Byte) returns (word: Word)
    ensures word == ToWord(b0, b1, b2, b3)
  {
    var w0, w1, w2, w3 := b0 as Word, b1 as Word, b2 as Word, b3 as Word;
    word := (w3 << 24) | (w2 << 16) | (w1 << 8) | (w0 << 0);
    ByteSmall(b0);
    ByteSmall(b1);
    ByteSmall(b2);
    ByteSmall(b3);
    ShiftsAdd(w0, w1, w2, w3);
  }

  /** Reads sixteen words from 64 bytes. */
  method Copy64(M: array<Word>, bytes: seq<Byte>)
    requires M.Length == 16 && |bytes| == 64
    modifies M
    ensures M[..] == Words(bytes)
  {
    for i := 0 to 16
      invariant forall k :: 0 <= k < i ==> M[k] == WordAt(bytes, k)
    {
      var word := WordOf(bytes, i);
      M[i] := word;
    }
    assert M[..] == Words(bytes);
  }

  /** Word `i` of the block. */
  method WordOf(bytes: seq<Byte>, i: nat) returns (word: Word)
    requires |bytes| == 64 && i < 16
    ensures word == WordAt(bytes, i)
  {
    word := Joined(bytes[i * 4], bytes[i * 4 + 1], bytes[i * 4 + 2], bytes[i * 4 + 3]);
  }

  // ---------- the stream ----------

  const BEGIN: Md<State> := Md(INITIAL, 0, [])

  /** For every message whose bit count fits one word (one below 2^29 bytes, say), however it is cut into calls, the
      stream ends in the registers of RFC 1320 and with the length of the message. */
  lemma StreamIsMd4(chunks: seq<Input>)
    requires (forall i | i in chunks :: i.Data?) && HighWord(|Carried(chunks)|) == 0
    ensures Run(Block, TailBlocks, BEGIN, chunks + [NULL]).st == Md4(Carried(chunks))
    ensures Run(Block, TailBlocks, BEGIN, chunks + [NULL]).total == |Carried(chunks)| % WORD
  {
    var msg := Carried(chunks);
    RunAppend(Block, TailBlocks, BEGIN, chunks, [NULL]);
    RunData(Block, TailBlocks, BEGIN, chunks);
    TailIs(msg);
    StreamIsPadded(Block, TailBlocks, INITIAL, msg, Pad(|msg|));
    RunOne(Block, TailBlocks, Absorb(Block, BEGIN, msg), NULL);
  }

  /** Any run of calls, NULL in the middle or not: the registers are those of one explicit string of whole blocks. */
  lemma AnyRun(inputs: seq<Input>)
    ensures Run(Block, TailBlocks, BEGIN, inputs) == After(Block, TailBlocks, INITIAL, inputs)
  {
    assert WholeLast(TailBlocks);
    RunHashes(Block, TailBlocks, INITIAL, inputs);
  }

  /** copy4: the four bytes of a word, the lowest first. */
  method Copy4(out: array<Byte>, at: nat, x: nat)
    requires at + 4 <= out.Length && x < WORD
    modifies out
    ensures out[..] == old(out[..at]) + LittleEndian(x, 4) + old(out[at + 4..])
  {
    out[at] := x % 256;
    out[at + 1] := x / 0x100 % 256;
    out[at + 2] := x / 0x1_0000 % 256;
    out[at + 3] := x / 0x100_0000 % 256;
    FourBytes(x);
  }

  /** Four words, one behind the other. */
  method FourWords(a: nat, b: nat, c: nat, d: nat) returns (out: array<Byte>)
    requires a < WORD && b < WORD && c < WORD && d < WORD
    ensures fresh(out) && out[..] == LittleEndian(a, 4) + LittleEndian(b, 4) + LittleEndian(c, 4) + LittleEndian(d, 4)
  {
    out := new Byte[16];
    Copy4(out, 0, a);
    ghost var x := LittleEndian(a, 4);
    assert out[..4] == x;
    Copy4(out, 4, b);
    ghost var y := x + LittleEndian(b, 4);
    assert out[..8] == y;
    Copy4(out, 8, c);
    ghost var z := y + LittleEndian(c, 4);
    assert out[..12] == z;
    Copy4(out, 12, d);
    assert out[..] == z + LittleEndian(d, 4);
  }

  type Hash = (State, seq<Byte>) -> State

  /** `f` hashes one block as MD4 does. */
  ghost predicate IsMd4(f: Hash) {
    forall st, b {:trigger Block(st, b)} :: f(st, b) == Block(st, b)
  }

  class Mdfour {
    var A: Word
    var B: Word
    var C: Word
    var D: Word
    var totalN: nat
    const tail: array<Byte>
    var tailLen: nat

    ghost predicate Valid()
      reads this
    {
      tail.Length == 64 && tailLen < 64 && totalN < WORD
    }

    ghost function View(): (md: Md<State>)
      requires Valid()
      reads this, tail
    {
      Md(State(A, B, C, D), totalN, tail[..tailLen])
    }

    /** mdfour_begin. */
    constructor ()
      ensures Valid() && fresh(tail)
      ensures View() == BEGIN
    {
      A, B, C, D := 0x67452301, 0xefcdab89, 0x98badcfe, 0x10325476;
      totalN := 0;
      tailLen := 0;
      tail := new Byte[64];
    }

    method Store(st: State)
      modifies this`A, this`B, this`C, this`D
      ensures State(A, B, C, D) == st
    {
      A, B, C, D := st.a, st.b, st.c, st.d;
    }

    /** mdfour64: the registers are those after the block. */
    method Mdfour64(M: array<Word>)
      requires M.Length == 16
      modifies this`A, this`B, this`C, this`D
      ensures State(A, B, C, D) == Compress(old(State(A, B, C, D)), old(M[..]))
    {
      var st := Rounds(State(A, B, C, D), M);
      Store(st);
    }

    /** copy64 and mdfour64. The proofs of the stream do not depend on the hash: it is a parameter of them. */
    method HashBlock(ghost f: Hash, bytes: seq<Byte>)
      requires IsMd4(f) && |bytes| == 64
      modifies this`A, this`B, this`C, this`D
      ensures State(A, B, C, D) == f(old(State(A, B, C, D)), bytes)
    {
      ghost var st := State(A, B, C, D);
      var M := new Word[16];
      Copy64(M, bytes);
      Mdfour64(M);
      assert Block(st, bytes) == Compress(st, Words(bytes));
    }

    /** memcpy behind the bytes that wait. */
    method Append(bytes: seq<Byte>)
      requires tail.Length == 64 && tailLen + |bytes| <= 64
      modifies this`tailLen, tail
      ensures tailLen == old(tailLen) + |bytes|
      ensures tail[..tailLen] == old(tail[..tailLen]) + bytes
    {
      forall k | 0 <= k < |bytes| {
        tail[tailLen + k] := bytes[k];
      }
      tailLen := tailLen + |bytes|;
    }

    /** The full tail is hashed and emptied. */
    method HashTail(ghost f: Hash)
      requires IsMd4(f) && tail.Length == 64 && tailLen == 64 && totalN < WORD
      modifies this
      ensures Valid() && tailLen == 0
      ensures View() == Md(f(old(State(A, B, C, D)), old(tail[..64])), (old(totalN) + 64) % WORD, [])
    {
      HashBlock(f, tail[..64]);
      totalN := (totalN + 64) % WORD;
      tailLen := 0;
    }

    /** The start of mdfour_update: as much of the data as fits goes to the bytes that wait. */
    method FillTail(ghost f: Hash, data: seq<Byte>) returns (len: nat)
      requires IsMd4(f) && Valid()
      modifies this, tail
      ensures Valid() && len <= |data|
      ensures View() == Absorb(f, old(View()), data[..len])
      ensures tailLen == 0 || len == |data|
    {
      ghost var md := View();
      len := 64 - tailLen;
      if len > |data| { len := |data|; }
      Append(data[..len]);
      if tailLen == 64 {
        HashTail(f);
        AbsorbBlock(f, md, data[..len]);
      } else {
        AbsorbShort(f, md, data[..len]);
      }
    }

    /** One round of the while loop of mdfour_update. */
    method HashNext(ghost f: Hash, block: seq<Byte>)
      requires IsMd4(f) && Valid() && tailLen == 0 && |block| == 64
      modifies this
      ensures Valid() && tailLen == 0
      ensures View() == Absorb(f, old(View()), block)
    {
      AbsorbBlock(f, View(), block);
      assert tail[..0] + block == block;
      HashBlock(f, block);
      totalN := (totalN + 64) % WORD;
    }

    /** The while loop of mdfour_update: whole blocks are hashed where they lie. */
    method HashBlocks(ghost f: Hash, data: seq<Byte>) returns (done: nat)
      requires IsMd4(f) && Valid() && (tailLen == 0 || data == [])
      modifies this
      ensures Valid() && tailLen == old(tailLen) && done <= |data| < done + 64
      ensures View() == Absorb(f, old(View()), data[..done])
    {
      ghost var md := View();
      done := 0;
      AbsorbShort(f, md, []);
      while |data| - done >= 64
        invariant Valid() && tailLen == old(tailLen) && done <= |data|
        invariant View() == Absorb(f, md, data[..done])
      {
        var block := data[done..done + 64];
        AbsorbAppend(f, md, data[..done], block);
        assert data[..done] + block == data[..done + 64];
        HashNext(f, block);
        done := done + 64;
      }
    }

    /** What follows the full tail: the blocks of the data, and what is left goes to the bytes that wait. */
    method TakeBlocks(ghost f: Hash, data: seq<Byte>)
      requires IsMd4(f) && Valid() && (tailLen == 0 || data == [])
      modifies this, tail
      ensures Valid() && View() == Absorb(f, old(View()), data)
    {
      ghost var md := View();
      var done := HashBlocks(f, data);
      AbsorbRest(f, md, View(), data, done);
      if done != |data| {
        Append(data[done..]);
      }
    }

    /** mdfour_update with data. */
    method Take(ghost f: Hash, data: seq<Byte>)
      requires IsMd4(f) && Valid()
      modifies this, tail
      ensures Valid() && View() == Absorb(f, old(View()), data)
    {
      ghost var md := View();
      var len := 0;
      if tailLen != 0 {
        len := FillTail(f, data);
      } else {
        AbsorbShort(f, md, []);
      }
      TakeRest(f, md, View(), data, len);
      TakeBlocks(f, data[len..]);
    }

    /** The buffer of mdfour_tail: memset, memcpy, the one bit and the bit count. */
    method TailBuffer(total: nat) returns (buf: array<Byte>)
      requires Valid() && total < WORD
      ensures fresh(buf) && buf.Length == 128
      ensures TailBlocks(tail[..tailLen], total) == if tailLen <= 55 then buf[..64] else buf[..]
    {
      buf := new Byte[128](_ => 0);
      forall k | 0 <= k < tailLen {
        buf[k] := tail[k];
      }
      buf[tailLen] := 0x80;
      ghost var start := buf[..];
      assert start == tail[..tailLen] + [0x80] + Zeros(127 - tailLen);
      var at := if tailLen <= 55 then 56 else 120;
      Copy4(buf, at, (total * 8) % WORD);
      TailBytes(tail[..tailLen], total, start, at, buf[..]);
    }

    /** mdfour_tail. */
    method Tail(ghost f: Hash)
      requires IsMd4(f) && Valid()
      modifies this
      ensures Valid() && View() == Finish(f, TailBlocks, old(View()))
    {
      ghost var st := State(A, B, C, D);
      totalN := (totalN + tailLen) % WORD;
      var buf := TailBuffer(totalN);
      FoldTwo(f, st, buf[..]);
      HashBlock(f, buf[..64]);
      if tailLen > 55 {
        HashBlock(f, buf[64..]);
      }
    }

    /** mdfour_update: its effect on the abstract stream. */
    method Update(input: Input)
      requires Valid()
      modifies this, tail
      ensures Valid() && View() == Updated(Block, TailBlocks, old(View()), input)
    {
      match input {
        case NULL => Tail(Block);
        case Data(data) => Take(Block, data);
      }
    }

    /** mdfour_result. */
    method Result() returns (out: array<Byte>)
      requires Valid()
      ensures Valid() && View() == old(View())
      ensures fresh(out) && out[..] == Digest(View().st)
    {
      out := FourWords(A as int, B as int, C as int, D as int);
    }
  }

  /** mdfour: the digest of one message. */
  method MdfourOf(input: seq<Byte>) returns (out: array<Byte>)
    ensures HighWord(|input|) == 0 ==> out[..] == Digest(Md4(input))
  {
    var md := new Mdfour();
    md.Update(Data(input));
    md.Update(NULL);
    out := md.Result();
    if HighWord(|input|) == 0 {
      OneMessage(input);
    }
  }

  lemma OneMessage(input: seq<Byte>)
    requires HighWord(|input|) == 0
    ensures Updated(Block, TailBlocks, Updated(Block, TailBlocks, BEGIN, Data(input)), NULL).st == Md4(input)
  {
    assert Carried([Data(input)]) == input;
    StreamIsMd4([Data(input)]);
    RunAppend(Block, TailBlocks, BEGIN, [Data(input)], [NULL]);
    RunOne(Block, TailBlocks, BEGIN, Data(input));
    RunOne(Block, TailBlocks, Updated(Block, TailBlocks, BEGIN, Data(input)), NULL);
  }
}
