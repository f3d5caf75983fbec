/** The layout of a row file: a header with the offset of the table, the rows, and the table of their offsets. */
module RowFormat {
  import opened Bytes

  type Row = seq<Byte>

  const ROW_END: Byte := 10
  const EOF_CHAR: Byte := 255  // a char of this value equals EOF
  const WORD: int := 0x1_0000_0000_0000_0000  // one past the largest size_t
  const LONG: int := 0x8000_0000_0000_0000    // one past the largest long, and so past the offsets fseek can go to

  // ---------- what the writer leaves ----------

  /** The rows, each with its end. */
  function Body(rows: seq<Row>, k: nat): seq<Byte>
    requires k <= |rows|
  {
    if k == 0 then [] else Body(rows, k - 1) + (rows[k - 1] + [ROW_END])
  }

  /** Where row `k` starts. */
  function Offset(rows: seq<Row>, k: nat): nat
    requires k <= |rows|
  {
    8 + |Body(rows, k)|
  }

  /** One entry of the table: the offset of a row, and its number, which is a uint16_t. */
  function Entry(offset: nat, number: nat): (e: seq<Byte>)
    ensures |e| == 10
  {
    LittleEndian(offset, 8) + LittleEndian(number % 0x1_0000, 2)
  }

  function Entries(rows: seq<Row>, k: nat): (e: seq<Byte>)
    requires k <= |rows|
    ensures |e| == 10 * k
  {
    if k == 0 then [] else Entries(rows, k - 1) + Entry(Offset(rows, k - 1), k)
  }

  function Joined(header: seq<Byte>, body: seq<Byte>, count: seq<Byte>, entries: seq<Byte>): seq<Byte> {
    header + body + count + entries
  }

  /** The whole file. */
  function Image(rows: seq<Row>): seq<Byte> {
    Joined(LittleEndian(Offset(rows, |rows|), 8), Body(rows, |rows|), LittleEndian(|rows|, 8), Entries(rows, |rows|))
  }

  // ---------- what a reader sees in any bytes ----------

  /** The `k` bytes at `p`, fewer at the end of the file. */
  function Slice(data: seq<Byte>, p: nat, k: nat): seq<Byte> {
    if p >= |data| then [] else if p + k <= |data| then data[p..p + k] else data[p..]
  }

  /** The number fread leaves in a variable that was zero. */
  function Number(data: seq<Byte>, p: nat, k: nat): nat {
    Value(Slice(data, p, k))
  }

  /** Row::Read: up to and with the end of the row, without it at the end of the file or at a char that equals EOF;
      a zero byte is appended. */
  function RowAt(data: seq<Byte>, p: nat): Row
    decreases |data| - p
  {
    if p >= |data| || data[p] == EOF_CHAR then [0]
    else if data[p] == ROW_END then [ROW_END, 0]
    else [data[p]] + RowAt(data, p + 1)
  }

  /** fseek: an offset that is negative as a long makes it fail, and the position stays. */
  function Seek(pos: nat, p: nat): nat {
    if p < LONG then p else pos
  }

  /** Where the row count is read: at the offset of the header, or behind the header. */
  function CountPlace(data: seq<Byte>): nat {
    Seek(|Slice(data, 0, 8)|, Number(data, 0, 8))
  }

  /** Where the entries start: behind the row count, or where the file ends in it. */
  function TableStart(data: seq<Byte>): nat {
    var t := CountPlace(data);
    t + |Slice(data, t, 8)|
  }

  function RowCount(data: seq<Byte>): nat {
    Number(data, CountPlace(data), 8)
  }

  function EntryOffset(data: seq<Byte>, i: nat): nat {
    Number(data, TableStart(data) + 10 * i, 8)
  }

  function EntryNumber(data: seq<Byte>, i: nat): nat {
    Number(data, TableStart(data) + 10 * i + 8, 2)
  }

  /** The row that is read right behind entry `i`, at its offset if fseek can go there. */
  function EntryRow(data: seq<Byte>, i: nat): Row {
    RowAt(data, Seek(TableStart(data) + 10 * (i + 1), EntryOffset(data, i)))
  }

  /** The position behind an entry read at `p`. */
  function EntryEnd(data: seq<Byte>, p: nat): nat {
    var q := p + |Slice(data, p, 8)|;
    q + |Slice(data, q, 2)|
  }

  /** The position behind a row read at `p`. */
  function RowEnd(data: seq<Byte>, p: nat): nat
    decreases |data| - p
  {
    if p >= |data| then p
    else if data[p] == EOF_CHAR || data[p] == ROW_END then p + 1
    else RowEnd(data, p + 1)
  }

  /** The offset of the table that the readers count on from: a size_t. */
  function TableOffset(data: seq<Byte>): nat {
    (Number(data, 0, 8) + |Slice(data, CountPlace(data), 8)|) % WORD
  }

  /** The next `k` rows of Reader::Read when its offset of the table is `o` and the position `p`. */
  function Gathered(data: seq<Byte>, o: nat, p: nat, k: nat): (rows: seq<Row>)
    ensures |rows| == k
    decreases k
  {
    if k == 0 then []
    else
      var q, o' := RowPlace(data, p), (o + 10) % WORD;
      [RowAt(data, q)] + Gathered(data, o', Seek(RowEnd(data, q), o'), k - 1)
  }

  /** Where the row is read whose entry is read at `p`. */
  function RowPlace(data: seq<Byte>, p: nat): nat {
    Seek(EntryEnd(data, p), Number(data, p, 8))
  }

  /** All rows of Reader::Read, for any bytes. */
  function Rows(data: seq<Byte>): (rows: seq<Row>)
    ensures |rows| == RowCount(data)
  {
    Gathered(data, TableOffset(data), TableStart(data), RowCount(data))
  }

  /** fseek can go to all offsets in the file. */
  predicate Seekable(data: seq<Byte>) {
    && Number(data, 0, 8) + 8 + 10 * RowCount(data) < LONG
    && forall i :: 0 <= i < RowCount(data) ==> EntryOffset(data, i) < LONG
  }

  /** fseek can go to the offsets of `k` entries from `o` on. */
  predicate Places(data: seq<Byte>, o: nat, k: nat)
    decreases k
  {
    k == 0 || (Number(data, o, 8) < LONG && Places(data, o + 10, k - 1))
  }

  lemma {:induction false} SeekablePlaces(data: seq<Byte>, i: nat, k: nat)
    requires i + k == RowCount(data) && forall j :: i <= j < i + k ==> EntryOffset(data, j) < LONG
    ensures Places(data, TableStart(data) + 10 * i, k)
    decreases k
  {
    if k > 0 {
      assert EntryOffset(data, i) < LONG;
      SeekablePlaces(data, i + 1, k - 1);
    }
  }

  lemma GatheredNext(data: seq<Byte>, o: nat, k: nat)
    requires o + 10 < LONG && Number(data, o, 8) < LONG
    ensures Gathered(data, o, o, k + 1) == [RowOf(data, o)] + Gathered(data, o + 10, o + 10, k)
  {
    var q := RowPlace(data, o);
    assert (o + 10) % WORD == o + 10 && Seek(RowEnd(data, q), o + 10) == o + 10;
  }

  /** The row at the offset that is stored at `o`. */
  function RowOf(data: seq<Byte>, o: nat): Row {
    RowAt(data, Number(data, o, 8))
  }

  /** The rows at the offsets of `k` entries from `o` on. */
  function TableRows(data: seq<Byte>, o: nat, k: nat): (rows: seq<Row>)
    ensures |rows| == k
  {
    seq(k, j requires 0 <= j < k => RowOf(data, o + 10 * j))
  }

  lemma TableRowsNext(data: seq<Byte>, o: nat, k: nat)
    ensures TableRows(data, o, k + 1) == [RowOf(data, o)] + TableRows(data, o + 10, k)
  {
    var s, t := TableRows(data, o, k + 1), [RowOf(data, o)] + TableRows(data, o + 10, k);
    forall j | 0 <= j < k + 1 ensures s[j] == t[j] {
      if j > 0 { assert o + 10 + 10 * (j - 1) == o + 10 * j; }
    }
  }

  lemma {:induction false} GatheredAre(data: seq<Byte>, o: nat, k: nat)
    requires o + 10 * k < LONG && Places(data, o, k)
    ensures Gathered(data, o, o, k) == TableRows(data, o, k)
    decreases k
  {
    if k > 0 {
      PlacesNext(data, o, k);
      GatheredAre(data, o + 10, k - 1);
      BothNext(data, o, k);
    }
  }

  lemma BothNext(data: seq<Byte>, o: nat, k: nat)
    requires k > 0 && o + 10 < LONG && Number(data, o, 8) < LONG
    requires Gathered(data, o + 10, o + 10, k - 1) == TableRows(data, o + 10, k - 1)
    ensures Gathered(data, o, o, k) == TableRows(data, o, k)
  {
    GatheredNext(data, o, k - 1);
    TableRowsNext(data, o, k - 1);
  }

  lemma PlacesNext(data: seq<Byte>, o: nat, k: nat)
    requires k > 0 && Places(data, o, k)
    ensures Number(data, o, 8) < LONG && Places(data, o + 10, k - 1)
  {
  }

  lemma SeekableTable(data: seq<Byte>)
    requires Seekable(data)
    ensures TableOffset(data) == TableStart(data) && TableStart(data) + 10 * RowCount(data) < LONG
  {
  }

  lemma EntryRowIs(data: seq<Byte>, i: nat)
    requires EntryOffset(data, i) < LONG
    ensures EntryRow(data, i) == RowAt(data, EntryOffset(data, i)) == RowOf(data, TableStart(data) + 10 * i)
  {
  }

  lemma RowsTable(data: seq<Byte>)
    requires Seekable(data)
    ensures Rows(data) == TableRows(data, TableStart(data), RowCount(data))
  {
    SeekableTable(data);
    SeekablePlaces(data, 0, RowCount(data));
    GatheredAre(data, TableStart(data), RowCount(data));
  }

  /** When fseek can go to all offsets in the file, every row is that at the offset of its entry. */
  lemma RowsAre(data: seq<Byte>, i: nat)
    requires Seekable(data) && i < RowCount(data)
    ensures Rows(data)[i] == EntryRow(data, i) == RowAt(data, EntryOffset(data, i))
  {
    RowsTable(data);
    EntryRowIs(data, i);
  }

  /** The first entry from `i` on with the number, or the row count. */
  function FindNumber(data: seq<Byte>, number: nat, i: nat): (k: nat)
    requires i <= RowCount(data)
    ensures i <= k <= RowCount(data)
    ensures forall j :: i <= j < k ==> EntryNumber(data, j) != number
    ensures k < RowCount(data) ==> EntryNumber(data, k) == number
    decreases RowCount(data) - i
  {
    if i == RowCount(data) || EntryNumber(data, i) == number then i else FindNumber(data, number, i + 1)
  }

  // ---------- what comes back of a row ----------

  /** What Row::Read makes of a row that was written: it stops behind the first end of row in it, and before the first
      char that equals EOF. */
  function Clip(v: Row): Row {
    if v == [] then [ROW_END, 0]
    else if v[0] == EOF_CHAR then [0]
    else if v[0] == ROW_END then [ROW_END, 0]
    else [v[0]] + Clip(v[1..])
  }

  predicate Plain(v: Row) {
    forall i :: 0 <= i < |v| ==> v[i] != ROW_END && v[i] != EOF_CHAR
  }

  /** A row comes back whole, with its end and a zero byte, exactly when it has neither of the two chars. */
  lemma {:induction false} ClipKeeps(v: Row)
    ensures Clip(v) == v + [ROW_END, 0] <==> Plain(v)
  {
    if v != [] {
      ClipKeeps(v[1..]);
      assert v == [v[0]] + v[1..];
      if v[0] != EOF_CHAR && v[0] != ROW_END {
        assert v + [ROW_END, 0] == [v[0]] + (v[1..] + [ROW_END, 0]);
        assert ([v[0]] + Clip(v[1..]))[1..] == Clip(v[1..]);
        assert ([v[0]] + (v[1..] + [ROW_END, 0]))[1..] == v[1..] + [ROW_END, 0];
        assert Plain(v[1..]) ==> Plain(v) by {
          assert forall i :: 1 <= i < |v| ==> v[i] == v[1..][i - 1];
        }
      }
    }
  }

  lemma {:induction false} RowReadsBack(data: seq<Byte>, p: nat, v: Row)
    requires p + |v| < |data| && data[p..p + |v|] == v && data[p + |v|] == ROW_END
    ensures RowAt(data, p) == Clip(v)
    decreases |v|
  {
    if v != [] {
      assert data[p] == v[0];
      assert data[p + 1..p + 1 + |v[1..]|] == v[1..];
      RowReadsBack(data, p + 1, v[1..]);
    }
  }

  // ---------- the parts of the file ----------

  lemma {:induction false} BodyParts(rows: seq<Row>, i: nat, k: nat)
    requires i < k <= |rows|
    ensures |Body(rows, i)| + |rows[i]| + 1 <= |Body(rows, k)|
    ensures Body(rows, k)[|Body(rows, i)|..|Body(rows, i)| + |rows[i]| + 1] == rows[i] + [ROW_END]
    decreases k
  {
    if i < k - 1 { BodyParts(rows, i, k - 1); }
  }

  lemma {:induction false} EntriesParts(rows: seq<Row>, i: nat, k: nat)
    requires i < k <= |rows|
    ensures Entries(rows, k)[10 * i..10 * i + 10] == Entry(Offset(rows, i), i + 1)
    decreases k
  {
    if i < k - 1 { EntriesParts(rows, i, k - 1); }
  }

  lemma Powers()
    ensures Pow256(8) == WORD && Pow256(2) == 0x1_0000
  {
    assert Pow256(1) == 256 && Pow256(2) == 0x1_0000 && Pow256(3) == 0x100_0000 && Pow256(4) == 0x1_0000_0000;
    assert Pow256(5) == 0x100_0000_0000 && Pow256(6) == 0x1_0000_0000_0000 && Pow256(7) == 0x100_0000_0000_0000;
  }

  lemma NumberIs(data: seq<Byte>, p: nat, k: nat, n: nat)
    requires n < Pow256(k) && p + k <= |data| && data[p..p + k] == LittleEndian(n, k)
    ensures Number(data, p, k) == n && |Slice(data, p, k)| == k
  {
    ValueOf(n, k);
  }

  lemma HeaderOf(rows: seq<Row>)
    requires |Image(rows)| < LONG
    ensures Number(Image(rows), 0, 8) == Offset(rows, |rows|)
    ensures RowCount(Image(rows)) == |rows|
    ensures TableStart(Image(rows)) == Offset(rows, |rows|) + 8
    ensures |Image(rows)| == Offset(rows, |rows|) + 8 + 10 * |rows|
  {
    var data, t := Image(rows), Offset(rows, |rows|);
    Powers();
    assert data[0..0 + 8] == LittleEndian(t, 8);
    NumberIs(data, 0, 8, t);
    assert data[t..t + 8] == LittleEndian(|rows|, 8);
    NumberIs(data, t, 8, |rows|);
  }

  lemma ImageEntries(rows: seq<Row>, i: nat)
    requires i < |rows|
    ensures var p := Offset(rows, |rows|) + 8 + 10 * i;
            p + 10 <= |Image(rows)| && Image(rows)[p..p + 10] == Entry(Offset(rows, i), i + 1)
  {
    var data, t, e := Image(rows), Offset(rows, |rows|), Entries(rows, |rows|);
    assert data[t + 8..] == e;
    EntriesParts(rows, i, |rows|);
    assert data[t + 8..][10 * i..10 * i + 10] == data[t + 8 + 10 * i..t + 8 + 10 * i + 10];
  }

  lemma EntryParts(data: seq<Byte>, p: nat, offset: nat, number: nat)
    requires p + 10 <= |data| && data[p..p + 10] == Entry(offset, number) && offset < WORD
    ensures Number(data, p, 8) == offset && Number(data, p + 8, 2) == number % 0x1_0000
  {
    var e := data[p..p + 10];
    Powers();
    assert data[p..p + 8] == e[..8];
    assert e[..8] == LittleEndian(offset, 8);
    NumberIs(data, p, 8, offset);
    assert data[p + 8..p + 8 + 2] == e[8..];
    assert e[8..] == LittleEndian(number % 0x1_0000, 2);
    NumberIs(data, p + 8, 2, number % 0x1_0000);
  }

  lemma EntryAt(data: seq<Byte>, t: nat, i: nat, offset: nat, number: nat)
    requires TableStart(data) == t && offset < WORD
    requires var p := t + 10 * i; p + 10 <= |data| && data[p..p + 10] == Entry(offset, number)
    ensures EntryOffset(data, i) == offset && EntryNumber(data, i) == number % 0x1_0000
  {
    EntryParts(data, t + 10 * i, offset, number);
  }

  /** Every stored offset is the size of the header and of all earlier rows with their ends; the numbers count up from
      one, in 16 bits. */
  lemma EntryIs(rows: seq<Row>, i: nat)
    requires |Image(rows)| < LONG && i < |rows|
    ensures EntryOffset(Image(rows), i) == Offset(rows, i)
    ensures EntryNumber(Image(rows), i) == (i + 1) % 0x1_0000
  {
    HeaderOf(rows);
    ImageEntries(rows, i);
    BodyParts(rows, i, |rows|);
    EntryAt(Image(rows), Offset(rows, |rows|) + 8, i, Offset(rows, i), i + 1);
  }

  /** Where a row stands in the file. */
  lemma RowInFile(rows: seq<Row>, i: nat)
    requires i < |rows|
    ensures var p, q := Offset(rows, i), Offset(rows, i) + |rows[i]|;
            q < |Image(rows)| && Image(rows)[p..q] == rows[i] && Image(rows)[q] == ROW_END
  {
    var data, p, v, b := Image(rows), Offset(rows, i), rows[i], Body(rows, |rows|);
    BodyParts(rows, i, |rows|);
    assert data[8..8 + |b|] == b;
    assert b[p - 8..p - 8 + |v| + 1] == v + [ROW_END];
    assert data[p..p + |v| + 1] == v + [ROW_END] by {
      assert data[8..8 + |b|][p - 8..p - 8 + |v| + 1] == data[p..p + |v| + 1];
    }
    RowWithEnd(data, p, v);
  }

  lemma RowIs(rows: seq<Row>, i: nat)
    requires i < |rows|
    ensures RowAt(Image(rows), Offset(rows, i)) == Clip(rows[i])
  {
    RowInFile(rows, i);
    RowReadsBack(Image(rows), Offset(rows, i), rows[i]);
  }

  lemma RowWithEnd(data: seq<Byte>, p: nat, v: Row)
    requires p + |v| + 1 <= |data| && data[p..p + |v| + 1] == v + [ROW_END]
    ensures data[p..p + |v|] == v && data[p + |v|] == ROW_END
  {
    assert data[p..p + |v|] == (v + [ROW_END])[..|v|];
    assert data[p + |v|] == (v + [ROW_END])[|v|];
  }

  // ---------- round trips ----------

  /** What was written can be read: all offsets are in the file. */
  lemma WrittenSeekable(rows: seq<Row>)
    requires |Image(rows)| < LONG
    ensures RowCount(Image(rows)) == |rows| && Seekable(Image(rows))
  {
    HeaderOf(rows);
    forall i | 0 <= i < |rows| ensures EntryOffset(Image(rows), i) < LONG {
      EntryIs(rows, i);
      BodyParts(rows, i, |rows|);
    }
  }

  lemma RowReads(rows: seq<Row>, i: nat)
    requires |Image(rows)| < LONG && i < |rows|
    ensures RowCount(Image(rows)) == |rows|
    ensures Rows(Image(rows))[i] == EntryRow(Image(rows), i) == Clip(rows[i])
  {
    WrittenSeekable(rows);
    RowsAre(Image(rows), i);
    EntryIs(rows, i);
    RowIs(rows, i);
  }

  /** Reading a written file collects the rows in order, each as Row::Read makes it. */
  lemma CollectedIs(rows: seq<Row>)
    requires |Image(rows)| < LONG
    ensures |Rows(Image(rows))| == |rows|
    ensures forall i :: 0 <= i < |rows| ==> Rows(Image(rows))[i] == Clip(rows[i])
  {
    WrittenSeekable(rows);
    forall i | 0 <= i < |rows| ensures Rows(Image(rows))[i] == Clip(rows[i]) {
      RowReads(rows, i);
    }
  }

  /** So the rows come back whole, each with its end and a zero byte, exactly when none holds the end of a row or a char
      that equals EOF. */
  lemma RowsComeBack(rows: seq<Row>)
    requires |Image(rows)| < LONG
    ensures |Rows(Image(rows))| == |rows|
    ensures (forall i :: 0 <= i < |rows| ==> Rows(Image(rows))[i] == rows[i] + [ROW_END, 0])
            <==> (forall i :: 0 <= i < |rows| ==> Plain(rows[i]))
  {
    CollectedIs(rows);
    forall i | 0 <= i < |rows| ensures Clip(rows[i]) == rows[i] + [ROW_END, 0] <==> Plain(rows[i]) {
      ClipKeeps(rows[i]);
    }
  }

  /** The row that a number finds: the k-th for 1 <= k; the numbers wrap at 65536, so zero finds row 65536, and later
      rows are not found at all. */
  function Found(n: nat, number: nat): (i: nat)
    requires number < 0x1_0000
  {
    if 1 <= number <= n then number - 1 else if number == 0 && n >= 0x1_0000 then 0xFFFF else n
  }

  lemma FoundIs(n: nat, number: nat, k: nat)
    requires number < 0x1_0000 && k <= n && (k < n ==> (k + 1) % 0x1_0000 == number)
    requires var f := Found(n, number); f < k ==> (f + 1) % 0x1_0000 != number
    ensures k == Found(n, number)
  {
    if k < 0xFFFF { assert (k + 1) % 0x1_0000 == k + 1; }
  }

  lemma FindIn(data: seq<Byte>, number: nat)
    requires forall i :: 0 <= i < RowCount(data) ==> EntryNumber(data, i) == (i + 1) % 0x1_0000
    requires number < 0x1_0000
    ensures FindNumber(data, number, 0) == Found(RowCount(data), number)
  {
    var n, k := RowCount(data), FindNumber(data, number, 0);
    var f := Found(n, number);
    if f < n { assert EntryNumber(data, f) == (f + 1) % 0x1_0000; }
    if k < n { assert EntryNumber(data, k) == (k + 1) % 0x1_0000; }
    FoundIs(n, number, k);
  }

  lemma FindIs(rows: seq<Row>, number: nat)
    requires |Image(rows)| < LONG && number < 0x1_0000
    ensures RowCount(Image(rows)) == |rows| && FindNumber(Image(rows), number, 0) == Found(|rows|, number)
  {
    HeaderOf(rows);
    forall i | 0 <= i < |rows| ensures EntryNumber(Image(rows), i) == (i + 1) % 0x1_0000 {
      EntryIs(rows, i);
    }
    FindIn(Image(rows), number);
  }
}
