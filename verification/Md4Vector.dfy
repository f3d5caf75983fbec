/** A test vector of RFC 1320 (appendix A.5), worked out: the digest of "abc". */
module Md4Vector {
  import opened Blocks
  import opened Bytes
  import M = Md4
  import opened Md4Spec
  import opened Padding

  lemma OpIs(r: Round, a: Word, b: Word, c: Word, d: Word, x: Word, s: Word, n: nat, w: Word)
    requires M.IsShift(s, n) && M.Lshift(Sum(r, a, b, c, d, x), s) == w
    ensures Op(r, a, b, c, d, x, n) == w
  {
    M.LshiftRotates(Sum(r, a, b, c, d, x));
  }

  lemma RowOne0(st: State)
    requires st == State(0x67452301, 0xefcdab89, 0x98badcfe, 0x10325476)
    ensures RowOf(One, 0x80636261, 0, 0, 0, st) ==
            State(0x031b1304, 0xf66d8f45, 0xd38454e4, 0xee123855)
  {
    OpIs(One, 0x67452301, 0xefcdab89, 0x98badcfe, 0x10325476, 0x80636261, 3, 3, 0x031b1304);
    OpIs(One, 0x10325476, 0x031b1304, 0xefcdab89, 0x98badcfe, 0, 7, 7, 0xee123855);
    OpIs(One, 0x98badcfe, 0xee123855, 0x031b1304, 0xefcdab89, 0, 11, 11, 0xd38454e4);
    OpIs(One, 0xefcdab89, 0xd38454e4, 0xee123855, 0x031b1304, 0, 19, 19, 0xf66d8f45);
  }

  lemma RowOne1(st: State)
    requires st == State(0x031b1304, 0xf66d8f45, 0xd38454e4, 0xee123855)
    ensures RowOf(One, 0, 0, 0, 0, st) ==
            State(0xe98a3ac6, 0x613b2bc8, 0x97854e65, 0x0f435cf0)
  {
    OpIs(One, 0x031b1304, 0xf66d8f45, 0xd38454e4, 0xee123855, 0, 3, 3, 0xe98a3ac6);
    OpIs(One, 0xee123855, 0xe98a3ac6, 0xf66d8f45, 0xd38454e4, 0, 7, 7, 0x0f435cf0);
    OpIs(One, 0xd38454e4, 0x0f435cf0, 0xe98a3ac6, 0xf66d8f45, 0, 11, 11, 0x97854e65);
    OpIs(One, 0xf66d8f45, 0x97854e65, 0x0f435cf0, 0xe98a3ac6, 0, 19, 19, 0x613b2bc8);
  }

  lemma RowOne2(st: State)
    requires st == State(0xe98a3ac6, 0x613b2bc8, 0x97854e65, 0x0f435cf0)
    ensures RowOf(One, 0, 0, 0, 0, st) ==
            State(0xc65cc9b7, 0xa7d13acb, 0x15d2eef5, 0x6e365830)
  {
    OpIs(One, 0xe98a3ac6, 0x613b2bc8, 0x97854e65, 0x0f435cf0, 0, 3, 3, 0xc65cc9b7);
    OpIs(One, 0x0f435cf0, 0xc65cc9b7, 0x613b2bc8, 0x97854e65, 0, 7, 7, 0x6e365830);
    OpIs(One, 0x97854e65, 0x6e365830, 0xc65cc9b7, 0x613b2bc8, 0, 11, 11, 0x15d2eef5);
    OpIs(One, 0x613b2bc8, 0x15d2eef5, 0x6e365830, 0xc65cc9b7, 0, 19, 19, 0xa7d13acb);
  }

  lemma RowOne3(st: State)
    requires st == State(0xc65cc9b7, 0xa7d13acb, 0x15d2eef5, 0x6e365830)
    ensures RowOf(One, 0, 0, 0x00000018, 0, st) ==
            State(0xa299a540, 0xda717395, 0x24baadcb, 0x04e19293)
  {
    OpIs(One, 0xc65cc9b7, 0xa7d13acb, 0x15d2eef5, 0x6e365830, 0, 3, 3, 0xa299a540);
    OpIs(One, 0x6e365830, 0xa299a540, 0xa7d13acb, 0x15d2eef5, 0, 7, 7, 0x04e19293);
    OpIs(One, 0x15d2eef5, 0x04e19293, 0xa299a540, 0xa7d13acb, 0x00000018, 11, 11, 0x24baadcb);
    OpIs(One, 0xa7d13acb, 0x24baadcb, 0x04e19293, 0xa299a540, 0, 19, 19, 0xda717395);
  }

  lemma RowTwo0(st: State)
    requires st == State(0xa299a540, 0xda717395, 0x24baadcb, 0x04e19293)
    ensures RowOf(Two, 0x80636261, 0, 0, 0, st) ==
            State(0x1389a66c, 0x228b5116, 0xdd3d21a5, 0x43b67f2e)
  {
    OpIs(Two, 0xa299a540, 0xda717395, 0x24baadcb, 0x04e19293, 0x80636261, 3, 3, 0x1389a66c);
    OpIs(Two, 0x04e19293, 0x1389a66c, 0xda717395, 0x24baadcb, 0, 5, 5, 0x43b67f2e);
    OpIs(Two, 0x24baadcb, 0x43b67f2e, 0x1389a66c, 0xda717395, 0, 9, 9, 0xdd3d21a5);
    OpIs(Two, 0xda717395, 0xdd3d21a5, 0x43b67f2e, 0x1389a66c, 0, 13, 13, 0x228b5116);
  }

  lemma RowTwo1(st: State)
    requires st == State(0x1389a66c, 0x228b5116, 0xdd3d21a5, 0x43b67f2e)
    ensures RowOf(Two, 0, 0, 0, 0, st) ==
            State(0x8e5c895d, 0x4ec68171, 0xbd68a784, 0x8abf3b85)
  {
    OpIs(Two, 0x1389a66c, 0x228b5116, 0xdd3d21a5, 0x43b67f2e, 0, 3, 3, 0x8e5c895d);
    OpIs(Two, 0x43b67f2e, 0x8e5c895d, 0x228b5116, 0xdd3d21a5, 0, 5, 5, 0x8abf3b85);
    OpIs(Two, 0xdd3d21a5, 0x8abf3b85, 0x8e5c895d, 0x228b5116, 0, 9, 9, 0xbd68a784);
    OpIs(Two, 0x228b5116, 0xbd68a784, 0x8abf3b85, 0x8e5c895d, 0, 13, 13, 0x4ec68171);
  }

  lemma RowTwo2(st: State)
    requires st == State(0x8e5c895d, 0x4ec68171, 0xbd68a784, 0x8abf3b85)
    ensures RowOf(Two, 0, 0, 0, 0x00000018, st) ==
            State(0xbe6d33db, 0x0323e3b7, 0x74661d2d, 0x75cb1df4)
  {
    OpIs(Two, 0x8e5c895d, 0x4ec68171, 0xbd68a784, 0x8abf3b85, 0, 3, 3, 0xbe6d33db);
    OpIs(Two, 0x8abf3b85, 0xbe6d33db, 0x4ec68171, 0xbd68a784, 0, 5, 5, 0x75cb1df4);
    OpIs(Two, 0xbd68a784, 0x75cb1df4, 0xbe6d33db, 0x4ec68171, 0, 9, 9, 0x74661d2d);
    OpIs(Two, 0x4ec68171, 0x74661d2d, 0x75cb1df4, 0xbe6d33db, 0x00000018, 13, 13, 0x0323e3b7);
  }

  lemma RowTwo3(st: State)
    requires st == State(0xbe6d33db, 0x0323e3b7, 0x74661d2d, 0x75cb1df4)
    ensures RowOf(Two, 0, 0, 0, 0, st) ==
            State(0x7296594c, 0x8e531b8f, 0x3dd42422, 0x4e7e1748)
  {
    OpIs(Two, 0xbe6d33db, 0x0323e3b7, 0x74661d2d, 0x75cb1df4, 0, 3, 3, 0x7296594c);
    OpIs(Two, 0x75cb1df4, 0x7296594c, 0x0323e3b7, 0x74661d2d, 0, 5, 5, 0x4e7e1748);
    OpIs(Two, 0x74661d2d, 0x4e7e1748, 0x7296594c, 0x0323e3b7, 0, 9, 9, 0x3dd42422);
    OpIs(Two, 0x0323e3b7, 0x3dd42422, 0x4e7e1748, 0x7296594c, 0, 13, 13, 0x8e531b8f);
  }

  lemma RowThree0(st: State)
    requires st == State(0x7296594c, 0x8e531b8f, 0x3dd42422, 0x4e7e1748)
    ensures RowOf(Three, 0x80636261, 0, 0, 0, st) ==
            State(0xfe66819a, 0xfd9fcfeb, 0x2f4e3583, 0x73824016)
  {
    OpIs(Three, 0x7296594c, 0x8e531b8f, 0x3dd42422, 0x4e7e1748, 0x80636261, 3, 3, 0xfe66819a);
    OpIs(Three, 0x4e7e1748, 0xfe66819a, 0x8e531b8f, 0x3dd42422, 0, 9, 9, 0x73824016);
    OpIs(Three, 0x3dd42422, 0x73824016, 0xfe66819a, 0x8e531b8f, 0, 11, 11, 0x2f4e3583);
    OpIs(Three, 0x8e531b8f, 0x2f4e3583, 0x73824016, 0xfe66819a, 0, 15, 15, 0xfd9fcfeb);
  }

  lemma RowThree1(st: State)
    requires st == State(0xfe66819a, 0xfd9fcfeb, 0x2f4e3583, 0x73824016)
    ensures RowOf(Three, 0, 0, 0, 0x00000018, st) ==
            State(0x74a13dc8, 0x71a2ad97, 0x03f2b578, 0x99e6af11)
  {
    OpIs(Three, 0xfe66819a, 0xfd9fcfeb, 0x2f4e3583, 0x73824016, 0, 3, 3, 0x74a13dc8);
    OpIs(Three, 0x73824016, 0x74a13dc8, 0xfd9fcfeb, 0x2f4e3583, 0, 9, 9, 0x99e6af11);
    OpIs(Three, 0x2f4e3583, 0x99e6af11, 0x74a13dc8, 0xfd9fcfeb, 0, 11, 11, 0x03f2b578);
    OpIs(Three, 0xfd9fcfeb, 0x03f2b578, 0x99e6af11, 0x74a13dc8, 0x00000018, 15, 15, 0x71a2ad97);
  }

  lemma RowThree2(st: State)
    requires st == State(0x74a13dc8, 0x71a2ad97, 0x03f2b578, 0x99e6af11)
    ensures RowOf(Three, 0, 0, 0, 0, st) ==
            State(0x798f0b3e, 0xacbf46ad, 0xea0ccd51, 0x3f5d0629)
  {
    OpIs(Three, 0x74a13dc8, 0x71a2ad97, 0x03f2b578, 0x99e6af11, 0, 3, 3, 0x798f0b3e);
    OpIs(Three, 0x99e6af11, 0x798f0b3e, 0x71a2ad97, 0x03f2b578, 0, 9, 9, 0x3f5d0629);
    OpIs(Three, 0x03f2b578, 0x3f5d0629, 0x798f0b3e, 0x71a2ad97, 0, 11, 11, 0xea0ccd51);
    OpIs(Three, 0x71a2ad97, 0xea0ccd51, 0x3f5d0629, 0x798f0b3e, 0, 15, 15, 0xacbf46ad);
  }

  lemma RowThree3(st: State)
    requires st == State(0x798f0b3e, 0xacbf46ad, 0xea0ccd51, 0x3f5d0629)
    ensures RowOf(Three, 0, 0, 0, 0, st) ==
            State(0x12bc25a3, 0x630a7626, 0x4f4fe461, 0x8d405204)
  {
    OpIs(Three, 0x798f0b3e, 0xacbf46ad, 0xea0ccd51, 0x3f5d0629, 0, 3, 3, 0x12bc25a3);
    OpIs(Three, 0x3f5d0629, 0x12bc25a3, 0xacbf46ad, 0xea0ccd51, 0, 9, 9, 0x8d405204);
    OpIs(Three, 0xea0ccd51, 0x8d405204, 0x12bc25a3, 0xacbf46ad, 0, 11, 11, 0x4f4fe461);
    OpIs(Three, 0xacbf46ad, 0x4f4fe461, 0x8d405204, 0x12bc25a3, 0, 15, 15, 0x630a7626);
  }

  const REGISTERS := State(0x7a0148a4, 0x52d821af, 0xe80ac15f, 0x9d72a67a)

  /** The words of the padded message. */
  predicate IsBlock(x: seq<Word>) {
    |x| == 16 && x[0] == 0x80636261 && x[14] == 24 && forall k :: 0 < k < 16 && k != 14 ==> x[k] == 0
  }

  lemma RowIs(r: Round, j: nat, x: seq<Word>, k: seq<nat>, st: State)
    requires j < 4 && |x| == 16 && k == Picks(r, j)
    ensures Row(r, j, x, st) == RowOf(r, x[k[0]], x[k[1]], x[k[2]], x[k[3]], st)
  {
  }

  lemma RoundOne(x: seq<Word>)
    requires IsBlock(x)
    ensures Rows(One, x, State(0x67452301, 0xefcdab89, 0x98badcfe, 0x10325476)) ==
            State(0xa299a540, 0xda717395, 0x24baadcb, 0x04e19293)
  {
    var st := State(0x67452301, 0xefcdab89, 0x98badcfe, 0x10325476);
    RowIs(One, 0, x, [0, 1, 2, 3], st);
    RowOne0(st);
    st := State(0x031b1304, 0xf66d8f45, 0xd38454e4, 0xee123855);
    RowIs(One, 1, x, [4, 5, 6, 7], st);
    RowOne1(st);
    st := State(0xe98a3ac6, 0x613b2bc8, 0x97854e65, 0x0f435cf0);
    RowIs(One, 2, x, [8, 9, 10, 11], st);
    RowOne2(st);
    st := State(0xc65cc9b7, 0xa7d13acb, 0x15d2eef5, 0x6e365830);
    RowIs(One, 3, x, [12, 13, 14, 15], st);
    RowOne3(st);
    st := State(0xa299a540, 0xda717395, 0x24baadcb, 0x04e19293);
  }

  lemma RoundTwo(x: seq<Word>)
    requires IsBlock(x)
    ensures Rows(Two, x, State(0xa299a540, 0xda717395, 0x24baadcb, 0x04e19293)) ==
            State(0x7296594c, 0x8e531b8f, 0x3dd42422, 0x4e7e1748)
  {
    var st := State(0xa299a540, 0xda717395, 0x24baadcb, 0x04e19293);
    RowIs(Two, 0, x, [0, 4, 8, 12], st);
    RowTwo0(st);
    st := State(0x1389a66c, 0x228b5116, 0xdd3d21a5, 0x43b67f2e);
    RowIs(Two, 1, x, [1, 5, 9, 13], st);
    RowTwo1(st);
    st := State(0x8e5c895d, 0x4ec68171, 0xbd68a784, 0x8abf3b85);
    RowIs(Two, 2, x, [2, 6, 10, 14], st);
    RowTwo2(st);
    st := State(0xbe6d33db, 0x0323e3b7, 0x74661d2d, 0x75cb1df4);
    RowIs(Two, 3, x, [3, 7, 11, 15], st);
    RowTwo3(st);
    st := State(0x7296594c, 0x8e531b8f, 0x3dd42422, 0x4e7e1748);
  }

  lemma RoundThree(x: seq<Word>)
    requires IsBlock(x)
    ensures Rows(Three, x, State(0x7296594c, 0x8e531b8f, 0x3dd42422, 0x4e7e1748)) ==
            State(0x12bc25a3, 0x630a7626, 0x4f4fe461, 0x8d405204)
  {
    var st := State(0x7296594c, 0x8e531b8f, 0x3dd42422, 0x4e7e1748);
    RowIs(Three, 0, x, [0, 8, 4, 12], st);
    RowThree0(st);
    st := State(0xfe66819a, 0xfd9fcfeb, 0x2f4e3583, 0x73824016);
    RowIs(Three, 1, x, [2, 10, 6, 14], st);
    RowThree1(st);
    st := State(0x74a13dc8, 0x71a2ad97, 0x03f2b578, 0x99e6af11);
    RowIs(Three, 2, x, [1, 9, 5, 13], st);
    RowThree2(st);
    st := State(0x798f0b3e, 0xacbf46ad, 0xea0ccd51, 0x3f5d0629);
    RowIs(Three, 3, x, [3, 11, 7, 15], st);
    RowThree3(st);
    st := State(0x12bc25a3, 0x630a7626, 0x4f4fe461, 0x8d405204);
  }

  lemma Compressed(x: seq<Word>)
    requires IsBlock(x)
    ensures Compress(INITIAL, x) == REGISTERS
  {
    RoundOne(x);
    RoundTwo(x);
    RoundThree(x);
  }

  lemma SmallCount(n: nat, k: nat)
    requires n < 256 && k > 0
    ensures LittleEndian(n, k) == [n] + Zeros(k - 1)
  {
    LittleEndianZero(0, k - 1);
    assert 0 % Pow256(k - 1) == 0;
  }

  predicate IsAbc(msg: seq<Byte>) {
    msg == [97, 98, 99]
  }

  /** The padded message: a one bit behind the letters, and the count of 24 bits. */
  lemma PaddedAbc(msg: seq<Byte>, b: seq<Byte>)
    requires IsAbc(msg) && b == msg + Pad(|msg|)
    ensures |b| == 64 && b[0] == 97 && b[1] == 98 && b[2] == 99 && b[3] == 0x80 && b[56] == 24
    ensures forall i :: 4 <= i < 64 && i != 56 ==> b[i] == 0
  {
    SmallCount(8 * |msg|, 8);
  }

  lemma WordsAbc(b: seq<Byte>)
    requires |b| == 64 && b[0] == 97 && b[1] == 98 && b[2] == 99 && b[3] == 0x80 && b[56] == 24
    requires forall i :: 4 <= i < 64 && i != 56 ==> b[i] == 0
    ensures IsBlock(Words(b))
  {
    forall k | 0 < k < 16 && k != 14 ensures Words(b)[k] == 0 {
      assert b[4 * k] == 0 && b[4 * k + 1] == 0 && b[4 * k + 2] == 0 && b[4 * k + 3] == 0;
    }
  }

  lemma OneBlock(st: State, b: seq<Byte>)
    requires |b| == 64
    ensures Fold(Block, st, b) == Compress(st, Words(b))
  {
    assert b[..64] == b && |b[64..]| == 0;
  }

  /** The registers for "abc". */
  lemma RegistersOfAbc(msg: seq<Byte>)
    requires IsAbc(msg)
    ensures Md4(msg) == REGISTERS
  {
    var b := msg + Pad(|msg|);
    PaddedAbc(msg, b);
    WordsAbc(b);
    OneBlock(INITIAL, b);
    Compressed(Words(b));
  }

  /** MD4 ("abc") = a448017aaf21d8525fc10ae87aa6729d. */
  lemma DigestOfAbc(msg: seq<Byte>)
    requires IsAbc(msg)
    ensures Digest(Md4(msg)) ==
            [0xa4, 0x48, 0x01, 0x7a, 0xaf, 0x21, 0xd8, 0x52,
             0x5f, 0xc1, 0x0a, 0xe8, 0x7a, 0xa6, 0x72, 0x9d]
  {
    RegistersOfAbc(msg);
    DigestIs(Md4(msg));
  }

  lemma DigestIs(st: State)
    requires st == REGISTERS
    ensures Digest(st) ==
            [0xa4, 0x48, 0x01, 0x7a, 0xaf, 0x21, 0xd8, 0x52,
             0x5f, 0xc1, 0x0a, 0xe8, 0x7a, 0xa6, 0x72, 0x9d]
  {
    FourBytes(st.a as int);
    FourBytes(st.b as int);
    FourBytes(st.c as int);
    FourBytes(st.d as int);
  }
}
