/** A row file byte by byte: what is written where, and where a row that is read ends. */
module RowBytes {
  import opened Bytes
  import opened Division
  import opened RowFormat

  // ---------- reading a row from any bytes ----------

  /** None of the first `k` bytes is a newline or 255. */
  predicate Ordinary(b: seq<Byte>, k: nat)
    requires k <= |b|
  {
    forall i :: 0 <= i < k ==> b[i] != 10 && b[i] != 255
  }

  /** A row that is read: the bytes up to and with the first newline, or those before the first 255 or the end of the
      file, and in any case a zero byte. */
  lemma {:induction false} RowAtIs(data: seq<Byte>, p: nat, k: nat)
    requires p + k <= |data| && Ordinary(data[p..], k)
    ensures p + k == |data| ==> RowAt(data, p) == data[p..] + [0]
    ensures p + k < |data| && data[p + k] == 255 ==> RowAt(data, p) == data[p..p + k] + [0]
    ensures p + k < |data| && data[p + k] == 10 ==> RowAt(data, p) == data[p..p + k] + [10, 0]
    decreases k
  {
    if k > 0 {
      assert data[p..][0] == data[p] && data[p + 1..] == data[p..][1..];
      RowAtIs(data, p + 1, k - 1);
      assert data[p..] == [data[p]] + data[p + 1..] && data[p..p + k] == [data[p]] + data[p + 1..p + k];
    }
  }

  // ---------- writing and reading ----------

  lemma {:induction false} ClipIs(v: Row, k: nat)
    requires k <= |v| && Ordinary(v, k)
    ensures k == |v| ==> Clip(v) == v + [10, 0]
    ensures k < |v| && v[k] == 255 ==> Clip(v) == v[..k] + [0]
    ensures k < |v| && v[k] == 10 ==> Clip(v) == v[..k] + [10, 0]
    decreases k
  {
    if k > 0 {
      assert Ordinary(v[1..], k - 1);
      ClipIs(v[1..], k - 1);
      assert v == [v[0]] + v[1..] && v[..k] == [v[0]] + v[1..][..k - 1];
    }
  }

  /** What comes back of a row that was written: all of it, with a newline and a zero byte, when none of its bytes is a
      newline or 255; else the bytes before the first such, with the newline if it is one, and a zero byte. */
  lemma RowComesBack(rows: seq<Row>, i: nat, k: nat)
    requires |Image(rows)| < 0x8000_0000_0000_0000 && i < |rows| && k <= |rows[i]| && Ordinary(rows[i], k)
    ensures |Rows(Image(rows))| == |rows|
    ensures var row := Rows(Image(rows))[i];
            (k == |rows[i]| ==> row == rows[i] + [10, 0]) &&
            (k < |rows[i]| && rows[i][k] == 255 ==> row == rows[i][..k] + [0]) &&
            (k < |rows[i]| && rows[i][k] == 10 ==> row == rows[i][..k] + [10, 0])
  {
    CollectedIs(rows);
    ClipIs(rows[i], k);
  }

  /** fseek goes to every offset below 2^63, and to no other. */
  lemma SeekIs(pos: nat, p: nat)
    ensures Seek(pos, p) == if p < 0x8000_0000_0000_0000 then p else pos
    ensures WORD == Pow256(8)
  {
    Powers();
  }

  // ---------- the file ----------

  /** The first row starts behind the 8 bytes of the header, the next one behind a row and its newline. */
  lemma OffsetIs(rows: seq<Row>, i: nat)
    requires i < |rows|
    ensures Offset(rows, 0) == 8 && Offset(rows, i + 1) == Offset(rows, i) + |rows[i]| + 1
  {
  }

  lemma RowWritten(rows: seq<Row>, i: nat)
    requires i < |rows|
    ensures var p, q := Offset(rows, i), Offset(rows, i) + |rows[i]|;
            q < |Image(rows)| && Image(rows)[p..q] == rows[i] && Image(rows)[q] == 10
  {
    RowInFile(rows, i);
  }

  lemma Parts(h: seq<Byte>, a: seq<Byte>, b: seq<Byte>, c: seq<Byte>)
    requires |h| == 8 && |b| == 8
    ensures var data, t := Joined(h, a, b, c), 8 + |a|;
            |data| == t + 8 + |c| && data[..8] == h && data[t..t + 8] == b
  {
  }

  /** The header holds the offset of the table, and the table starts with the number of rows. */
  lemma HeaderWritten(rows: seq<Row>)
    ensures var data, t := Image(rows), Offset(rows, |rows|);
            |data| == t + 8 + 10 * |rows| && data[..8] == LittleEndian(t, 8) &&
              data[t..t + 8] == LittleEndian(|rows|, 8)
  {
    var t := Offset(rows, |rows|);
    Parts(LittleEndian(t, 8), Body(rows, |rows|), LittleEndian(|rows|, 8), Entries(rows, |rows|));
  }

  /** Then the table has for each row its offset in 8 bytes and its number, counted from one, in 2 bytes. */
  lemma EntryWritten(rows: seq<Row>, i: nat)
    requires i < |rows|
    ensures var data, e := Image(rows), Offset(rows, |rows|) + 8 + 10 * i;
            e + 10 <= |data| && data[e..e + 8] == LittleEndian(Offset(rows, i), 8) &&
            data[e + 8..e + 10] == LittleEndian((i + 1) % 0x1_0000, 2)
  {
    ImageEntries(rows, i);
    Halves(Image(rows), Offset(rows, |rows|) + 8 + 10 * i, LittleEndian(Offset(rows, i), 8),
           LittleEndian((i + 1) % 0x1_0000, 2));
  }

  lemma Halves(data: seq<Byte>, e: nat, a: seq<Byte>, b: seq<Byte>)
    requires |a| == 8 && |b| == 2 && e + 10 <= |data| && data[e..e + 10] == a + b
    ensures data[e..e + 8] == a && data[e + 8..e + 10] == b
  {
    assert data[e..e + 8] == data[e..e + 10][..8] && data[e + 8..e + 10] == data[e..e + 10][8..];
  }

  /** The bytes of a number, one by one: byte `k` is the k-th digit to the base 256. */
  lemma {:induction false} ByteIs(n: nat, k: nat, j: nat)
    requires j < k
    ensures LittleEndian(n, k)[j] == n / Pow256(j) % 256
    decreases k
  {
    if j > 0 {
      ByteIs(n / 256, k - 1, j - 1);
      QuotientTwice(n, Pow256(j - 1));
    }
  }

  lemma QuotientTwice(n: nat, p: nat)
    requires p > 0
    ensures n / 256 / p == n / (256 * p)
  {
    var q, r := n / 256, n % 256;
    var u, v := q / p, q % p;
    assert q == p * u + v && n == 256 * (p * u + v) + r;
    assert n == (256 * p) * u + (256 * v + r) && 256 * v + r < 256 * p;
    Quotient(n, 256 * p, u, 256 * v + r);
  }

  lemma Quotient(n: nat, d: nat, q: nat, r: nat)
    requires d > 0 && n == d * q + r && r < d
    ensures n / d == q
  {
    DivMod(n, d, q, r);
    assert d * (n / d) == d * q;
    SameFactor(d, n / d, q);
  }

  lemma SameFactor(d: nat, a: nat, b: nat)
    requires d > 0 && d * a == d * b
    ensures a == b
  {
    assert d * (a - b) == 0;
  }
}
