/** MD4 as RFC 1320 defines it: the compression of one block and the padding of a message. */
module Md4Spec {
  import opened Blocks
  import opened Bytes
  import opened Padding

  type Word = bv32

  /** The four registers. */
  datatype State = State(a: Word, b: Word, c: Word, d: Word)

  const INITIAL := State(0x67452301, 0xefcdab89, 0x98badcfe, 0x10325476)

  // ---------- section 3.4: the rounds ----------

  function F(x: Word, y: Word, z: Word): Word { (x & y) | (!x & z) }

  function G(x: Word, y: Word, z: Word): Word { (x & y) | (x & z) | (y & z) }

  function H(x: Word, y: Word, z: Word): Word { x ^ y ^ z }

  datatype Round = One | Two | Three

  /** X <<< s: `x` shifted left circularly by `s` bit positions. */
  function Rotate(x: Word, s: nat): Word
    decreases s
  {
    if s == 0 then x else Rotate(x.RotateLeft(1), s - 1)
  }

  /** What an operation of a round shifts: a + f(b, c, d) + X[k] + constant. */
  function Sum(r: Round, a: Word, b: Word, c: Word, d: Word, x: Word): Word {
    match r
    case One => a + F(b, c, d) + x
    case Two => a + G(b, c, d) + x + 0x5A827999
    case Three => a + H(b, c, d) + x + 0x6ED9EBA1
  }

  /** One operation of a round: a = (a + f(b, c, d) + X[k] + constant) <<< s. */
  function Op(r: Round, a: Word, b: Word, c: Word, d: Word, x: Word, s: nat): Word {
    Rotate(Sum(r, a, b, c, d, x), s)
  }

  function Shifts(r: Round): (s: seq<nat>)
    ensures |s| == 4
  {
    match r
    case One => [3, 7, 11, 19]
    case Two => [3, 5, 9, 13]
    case Three => [3, 9, 11, 15]
  }

  /** The words that the four operations of row `j` take. */
  function Picks(r: Round, j: nat): (k: seq<nat>)
    requires j < 4
    ensures |k| == 4 && forall i :: 0 <= i < 4 ==> k[i] < 16
  {
    match r
    case One => [4 * j, 4 * j + 1, 4 * j + 2, 4 * j + 3]
    case Two => [j, j + 4, j + 8, j + 12]
    case Three => var i := [0, 2, 1, 3][j]; [i, i + 8, i + 4, i + 12]
  }

  /** A row of four operations: [ABCD k s] [DABC k s] [CDAB k s] [BCDA k s]. */
  function RowOf(r: Round, w0: Word, w1: Word, w2: Word, w3: Word, st: State): State {
    var s := Shifts(r);
    var a := Op(r, st.a, st.b, st.c, st.d, w0, s[0]);
    var d := Op(r, st.d, a, st.b, st.c, w1, s[1]);
    var c := Op(r, st.c, d, a, st.b, w2, s[2]);
    var b := Op(r, st.b, c, d, a, w3, s[3]);
    State(a, b, c, d)
  }

  function Row(r: Round, j: nat, x: seq<Word>, st: State): State
    requires j < 4 && |x| == 16
  {
    var k := Picks(r, j);
    RowOf(r, x[k[0]], x[k[1]], x[k[2]], x[k[3]], st)
  }

  function Rows(r: Round, x: seq<Word>, st: State): State
    requires |x| == 16
  {
    Row(r, 3, x, Row(r, 2, x, Row(r, 1, x, Row(r, 0, x, st))))
  }

  /** All three rounds, and the old registers added. */
  function Compress(st: State, x: seq<Word>): State
    requires |x| == 16
  {
    AddState(Rows(Three, x, Rows(Two, x, Rows(One, x, st))), st)
  }

  function AddState(s: State, t: State): State {
    State(s.a + t.a, s.b + t.b, s.c + t.c, s.d + t.d)
  }

  // ---------- section 2: bytes and words ----------

  /** The word whose low-order byte comes first. */
  function ToWord(b0: Byte, b1: Byte, b2: Byte, b3: Byte): Word {
    (b0 as Word) + 0x100 * (b1 as Word) + 0x1_0000 * (b2 as Word) + 0x100_0000 * (b3 as Word)
  }

  /** Word `i` of a block. */
  function WordAt(b: seq<Byte>, i: nat): Word
    requires 4 * i + 4 <= |b|
  {
    ToWord(b[4 * i], b[4 * i + 1], b[4 * i + 2], b[4 * i + 3])
  }

  function Words(b: seq<Byte>): (x: seq<Word>)
    requires |b| == 64
    ensures |x| == 16
  {
    seq(16, i requires 0 <= i < 16 => WordAt(b, i))
  }

  // ---------- sections 3.1 to 3.4 over a message ----------

  /** The registers after one block of 64 bytes. */
  function Block(st: State, b: seq<Byte>): State {
    if |b| == 64 then Compress(st, Words(b)) else st
  }

  function Md4(msg: seq<Byte>): State {
    Fold(Block, INITIAL, msg + Pad(|msg|))
  }

  /** Section 3.5: the digest, low-order byte of A first. */
  function Digest(st: State): (d: seq<Byte>)
    ensures |d| == 16
  {
    LittleEndian(st.a as int, 4) + LittleEndian(st.b as int, 4) + LittleEndian(st.c as int, 4) +
      LittleEndian(st.d as int, 4)
  }
}
