/** serializer.h and row.h: the writer and the two readers of a row file. */
module RowFile {
  import opened Bytes
  import opened RowFormat

  datatype Option<T> = None | Some(value: T)

  /** The row of the first entry with the number. */
  function RowNumbered(data: seq<Byte>, number: nat): Option<Row> {
    RowNumberedFrom(data, number, 0)
  }

  /** The row of the first entry from the i-th on that has the number. */
  function RowNumberedFrom(data: seq<Byte>, number: nat, i: nat): Option<Row>
    requires i <= RowCount(data)
  {
    var k := FindNumber(data, number, i);
    if k < RowCount(data) then Some(EntryRow(data, k)) else None
  }

  /** What GetRowById gives for a written file: the k-th row for 1 <= k, as Row::Read makes it, and nothing for other
      numbers unless there are so many rows that the numbers wrap. */
  lemma RowNumberedIs(rows: seq<Row>, number: nat)
    requires |Image(rows)| < LONG && number < 0x1_0000
    ensures RowNumbered(Image(rows), number) ==
            if 1 <= number <= |rows| then Some(Clip(rows[number - 1]))
            else if number == 0 && |rows| >= 0x1_0000 then Some(Clip(rows[0xFFFF]))
            else None
  {
    FindIs(rows, number);
    var k := FindNumber(Image(rows), number, 0);
    if k < |rows| { RowReads(rows, k); }
  }

  /** A C stream: its bytes and the file position. */
  class FILE {
    var data: seq<Byte>
    var pos: nat

    /** fopen: "wb" empties the file, "rb" keeps it. */
    constructor (bytes: seq<Byte>)
      ensures data == bytes && pos == 0
    {
      data, pos := bytes, 0;
    }

    method Fwrite(b: seq<Byte>) returns (n: nat)
      requires pos <= |data|
      modifies this
      ensures n == |b| && pos == old(pos) + n
      ensures old(pos) == |old(data)| ==> data == old(data) + b
      ensures old(pos) + n <= |old(data)| ==> data == old(data[..pos]) + b + old(data)[pos..]
    {
      n := |b|;
      data := data[..pos] + b + if pos + n < |data| then data[pos + n..] else [];
      pos := pos + n;
    }

    /** fread of a number of `k` bytes into a variable that is zero. */
    method FreadNumber(k: nat) returns (n: nat, value: nat)
      modifies `pos
      ensures n == |Slice(data, old(pos), k)| && value == Number(data, old(pos), k) && pos == old(pos) + n
    {
      var b := Slice(data, pos, k);
      n, value := |b|, Value(b);
      pos := pos + n;
    }

    /** fgetc: -1 at the end of the file. */
    method Fgetc() returns (c: int)
      modifies `pos
      ensures if old(pos) < |data| then c == data[old(pos)] && pos == old(pos) + 1 else c == -1 && pos == old(pos)
    {
      if pos < |data| {
        c := data[pos];
        pos := pos + 1;
      } else {
        c := -1;
      }
    }

    /** fseek from the start of the file; nobody looks at its result. */
    method Fseek(p: nat)
      modifies `pos
      ensures pos == Seek(old(pos), p)
    {
      if p < LONG {
        pos := p;
      }
    }
  }

  /** Row::Write. */
  method WriteRow(f: FILE, v: Row) returns (size: nat)
    requires f.pos == |f.data|
    modifies f
    ensures f.data == old(f.data) + (v + [ROW_END]) && f.pos == |f.data| && size == |v| + 1
  {
    size := f.Fwrite(v);
    var n := f.Fwrite([ROW_END]);
    size := size + n;
  }

  /** Row::Read. The result of fgetc goes into a char. */
  method ReadRow(f: FILE) returns (v: Row)
    modifies f`pos
    ensures v == RowAt(f.data, old(f.pos)) && f.pos == RowEnd(f.data, old(f.pos))
  {
    v := [];
    var more := true;
    ghost var data, start := f.data, f.pos;
    while more
      invariant f.data == data
      invariant more ==> RowAt(data, start) == v + RowAt(data, f.pos) && RowEnd(data, start) == RowEnd(data, f.pos)
      invariant !more ==> RowAt(data, start) == v + [0] && RowEnd(data, start) == f.pos
      decreases more, |data| - f.pos
    {
      ghost var before, rest := v, RowAt(data, f.pos);
      var r := f.Fgetc();
      var c: Byte := if r < 0 then EOF_CHAR else r;
      if c != EOF_CHAR {
        v := v + [c];
        Assoc(before, [c], if c == ROW_END then [0] else RowAt(data, f.pos));
      }
      more := c != EOF_CHAR && c != ROW_END;
    }
    v := v + [0];
  }

  lemma Assoc(a: seq<Byte>, b: seq<Byte>, c: seq<Byte>)
    ensures a + b + c == a + (b + c)
  {
  }

  class Writer {
    const file: FILE?

    constructor (f: FILE?)
      ensures file == f
    {
      file := f;
    }

    /** The place of the header. */
    method Reserve(f: FILE)
      requires f.data == [] && f.pos == 0
      modifies f
      ensures |f.data| == 8 && f.pos == 8
    {
      var n := f.Fwrite(LittleEndian(0, 8));
    }

    /** The rows, one behind the other; the offset and the number of each are kept for the table. */
    method WriteRows(f: FILE, rows: seq<Row>) returns (offsets: seq<(nat, nat)>, offsetSeek: nat)
      requires |f.data| == 8 && f.pos == 8
      modifies f
      ensures f.data == old(f.data) + Body(rows, |rows|) && f.pos == |f.data| == offsetSeek
      ensures |offsets| == |rows|
      ensures forall i :: 0 <= i < |rows| ==> offsets[i] == (Offset(rows, i), (i + 1) % 0x1_0000)
    {
      var number := 0;
      offsetSeek := 8;
      offsets := [];
      for i := 0 to |rows|
        invariant f.data == old(f.data) + Body(rows, i) && f.pos == |f.data| == offsetSeek
        invariant |offsets| == i && number == i % 0x1_0000
        invariant forall j :: 0 <= j < i ==> offsets[j] == (Offset(rows, j), (j + 1) % 0x1_0000)
      {
        var writeSize := WriteRow(f, rows[i]);
        number := (number + 1) % 0x1_0000;
        offsets := offsets + [(offsetSeek, number)];
        offsetSeek := offsetSeek + writeSize;
      }
    }

    /** The table: one entry for each row. */
    method WriteEntries(f: FILE, offsets: seq<(nat, nat)>, ghost rows: seq<Row>)
      requires f.pos == |f.data| && |offsets| == |rows|
      requires forall i :: 0 <= i < |rows| ==> offsets[i] == (Offset(rows, i), (i + 1) % 0x1_0000)
      modifies f
      ensures f.data == old(f.data) + Entries(rows, |rows|) && f.pos == |f.data|
    {
      for i := 0 to |offsets|
        invariant f.data == old(f.data) + Entries(rows, i) && f.pos == |f.data|
      {
        var n := f.Fwrite(LittleEndian(offsets[i].0, 8));
        n := f.Fwrite(LittleEndian(offsets[i].1, 2));
      }
    }

    /** The header is written again: the rest of the file stays. */
    method PatchHeader(f: FILE, h: seq<Byte>)
      requires |h| == 8 <= |f.data|
      modifies f
      ensures f.data == h + old(f.data)[8..]
    {
      f.Fseek(0);
      var n := f.Fwrite(h);
      assert old(f.data[..0]) + h == h;
    }

    /** Writer::Write, on a file that was just opened. */
    method Write(rows: seq<Row>)
      requires file != null ==> file.data == [] && file.pos == 0
      modifies file
      ensures file != null ==> file.data == Image(rows)
    {
      if file != null {
        Reserve(file);
        ghost var header := file.data;
        var offsets, offsetSeek := WriteRows(file, rows);
        WriteTable(file, offsets, offsetSeek, rows, header);
      }
    }

    /** The table, and then the offset of the table in the header. */
    method WriteTable(f: FILE, offsets: seq<(nat, nat)>, offsetRefTable: nat, ghost rows: seq<Row>, ghost h: seq<Byte>)
      requires f.pos == |f.data| && |offsets| == |rows| && |h| == 8 && f.data == h + Body(rows, |rows|)
      requires forall i :: 0 <= i < |rows| ==> offsets[i] == (Offset(rows, i), (i + 1) % 0x1_0000)
      modifies f
      ensures f.data ==
              Joined(LittleEndian(offsetRefTable, 8), Body(rows, |rows|),
                     LittleEndian(|rows|, 8), Entries(rows, |rows|))
    {
      var n := f.Fwrite(LittleEndian(|offsets|, 8));
      WriteEntries(f, offsets, rows);
      Patched(h, Body(rows, |rows|), LittleEndian(|rows|, 8), Entries(rows, |rows|), LittleEndian(offsetRefTable, 8));
      PatchHeader(f, LittleEndian(offsetRefTable, 8));
    }
  }

  lemma Patched(h: seq<Byte>, a: seq<Byte>, b: seq<Byte>, c: seq<Byte>, h': seq<Byte>)
    requires |h| == 8
    ensures h' + (h + a + b + c)[8..] == Joined(h', a, b, c)
  {
  }

  /** Two positions from which the same is read: they are equal, or both behind the end. */
  predicate SamePlace(data: seq<Byte>, p: nat, q: nat) {
    p == q || (p >= |data| && q >= |data|)
  }

  lemma PlaceReads(data: seq<Byte>, p: nat, q: nat)
    requires SamePlace(data, p, q)
    ensures Number(data, p, 8) == Number(data, q, 8)
    ensures var p' := p + |Slice(data, p, 8)|;
            SamePlace(data, p', q + 8) && Number(data, p', 2) == Number(data, q + 8, 2) &&
            SamePlace(data, p' + |Slice(data, p', 2)|, q + 10)
  {
  }

  /** The rows so far, and those that a reader with the offset `o` at the position `p` still gathers, are `all`. */
  predicate Reading(all: seq<Row>, rows: seq<Row>, data: seq<Byte>, o: nat, p: nat, k: nat) {
    all == rows + Gathered(data, o, p, k)
  }

  lemma ReadingNext(all: seq<Row>, rows: seq<Row>, data: seq<Byte>, o: nat, p: nat, k: nat, o': nat, p': nat)
    requires Reading(all, rows, data, o, p, k + 1)
    requires o' == (o + 10) % WORD && p' == Seek(RowEnd(data, RowPlace(data, p)), o')
    ensures Reading(all, rows + [RowAt(data, RowPlace(data, p))], data, o', p', k)
  {
    var row, rest := RowAt(data, RowPlace(data, p)), Gathered(data, o', p', k);
    assert Gathered(data, o, p, k + 1) == [row] + rest;
    Regroup(rows, row, rest);
  }

  lemma Regroup(rows: seq<Row>, row: Row, rest: seq<Row>)
    ensures rows + ([row] + rest) == rows + [row] + rest
  {
  }

  lemma ReadingEnds(all: seq<Row>, rows: seq<Row>, data: seq<Byte>, o: nat, p: nat)
    requires Reading(all, rows, data, o, p, 0)
    ensures rows == all
  {
  }

  lemma PlaceRow(data: seq<Byte>, p: nat, q: nat, offset: nat)
    requires SamePlace(data, p, q)
    ensures RowAt(data, Seek(p, offset)) == RowAt(data, Seek(q, offset))
  {
  }

  lemma FindStep(data: seq<Byte>, number: nat, i: nat)
    requires i <= RowCount(data)
    ensures RowNumberedFrom(data, number, i) ==
            if i == RowCount(data) then None
            else if EntryNumber(data, i) == number then Some(EntryRow(data, i))
            else RowNumberedFrom(data, number, i + 1)
  {
  }

  /** The start of both readers: the header and the row count. */
  method ReadHeader(f: FILE) returns (offsetRefTable: nat, size: nat)
    requires f.pos == 0
    modifies f`pos
    ensures size == RowCount(f.data) && offsetRefTable == TableOffset(f.data) && f.pos == TableStart(f.data)
  {
    var n;
    n, offsetRefTable := f.FreadNumber(8);
    f.Fseek(offsetRefTable);
    n, size := f.FreadNumber(8);
    offsetRefTable := (offsetRefTable + n) % WORD;
  }

  /** One entry of the table. */
  method ReadEntry(f: FILE) returns (offsetRef: nat, rowNumber: nat)
    modifies f`pos
    ensures var q := old(f.pos) + |Slice(f.data, old(f.pos), 8)|;
            offsetRef == Number(f.data, old(f.pos), 8) && rowNumber == Number(f.data, q, 2)
    ensures f.pos == EntryEnd(f.data, old(f.pos))
  {
    var n;
    n, offsetRef := f.FreadNumber(8);
    n, rowNumber := f.FreadNumber(2);
  }

  class Reader {
    const file: FILE?

    constructor (f: FILE?)
      ensures file == f
    {
      file := f;
    }

    /** Reader::Read, on a file that was just opened: any bytes. */
    method Read(collection: seq<Row>) returns (rows: seq<Row>)
      requires file != null ==> file.pos == 0
      modifies if file != null then {file} else {}
      ensures file == null ==> rows == collection
      ensures file != null ==>
              file.data == old(file.data) && rows == collection + Rows(file.data)
    {
      rows := collection;
      if file != null {
        rows := ReadRows(file, collection);
      }
    }

    method ReadRows(f: FILE, collection: seq<Row>) returns (rows: seq<Row>)
      requires f.pos == 0
      modifies f`pos
      ensures rows == collection + Rows(f.data)
    {
      rows := collection;
      var offsetRefTable, size := ReadHeader(f);
      ghost var all := collection + Rows(f.data);
      for i := 0 to size
        invariant Reading(all, rows, f.data, offsetRefTable, f.pos, size - i)
      {
        ghost var before, o, p := rows, offsetRefTable, f.pos;
        var newRow;
        newRow, offsetRefTable := ReadNext(f, offsetRefTable);
        rows := rows + [newRow];
        ReadingNext(all, before, f.data, o, p, size - i - 1, offsetRefTable, f.pos);
      }
      ReadingEnds(all, rows, f.data, offsetRefTable, f.pos);
    }

    /** One round of Reader::Read: an entry and its row, and back to the table. */
    method ReadNext(f: FILE, offsetRefTable: nat) returns (newRow: Row, next: nat)
      modifies f`pos
      ensures newRow == RowAt(f.data, RowPlace(f.data, old(f.pos))) && next == (offsetRefTable + 10) % WORD
      ensures f.pos == Seek(RowEnd(f.data, RowPlace(f.data, old(f.pos))), next)
    {
      var offsetRef, rowNumber := ReadEntry(f);
      next := (offsetRefTable + 8 + 2) % WORD;
      f.Fseek(offsetRef);
      newRow := ReadRow(f);
      f.Fseek(next);
    }

    /** Reader::GetRowById, on a file that was just opened: any bytes. */
    method GetRowById(rowId: nat) returns (result: Option<Row>)
      requires file != null ==> file.pos == 0
      modifies if file != null then {file} else {}
      ensures file == null ==> result == None
      ensures file != null ==> file.data == old(file.data) && result == RowNumbered(file.data, rowId)
    {
      result := None;
      if file != null {
        result := FindRow(file, rowId);
      }
    }

    method FindRow(f: FILE, rowId: nat) returns (result: Option<Row>)
      requires f.pos == 0
      modifies f`pos
      ensures result == RowNumbered(f.data, rowId)
    {
      var offsetRefTable, size := ReadHeader(f);
      for i := 0 to size
        invariant SamePlace(f.data, f.pos, TableStart(f.data) + 10 * i)
        invariant RowNumbered(f.data, rowId) == RowNumberedFrom(f.data, rowId, i)
      {
        FindStep(f.data, rowId, i);
        var offsetRef, rowNumber := ReadEntryOf(f, i);
        offsetRefTable := (offsetRefTable + 8 + 2) % WORD;
        if rowId == rowNumber {
          var row := ReadFound(f, offsetRef, i);
          return Some(row);
        }
      }
      FindStep(f.data, rowId, size);
      result := None;
    }

    /** Entry `i` of the table, read from its place or, as well as there, from behind the end. */
    method ReadEntryOf(f: FILE, ghost i: nat) returns (offsetRef: nat, rowNumber: nat)
      requires SamePlace(f.data, f.pos, TableStart(f.data) + 10 * i)
      modifies f`pos
      ensures offsetRef == EntryOffset(f.data, i) && rowNumber == EntryNumber(f.data, i)
      ensures SamePlace(f.data, f.pos, TableStart(f.data) + 10 * (i + 1))
    {
      PlaceReads(f.data, f.pos, TableStart(f.data) + 10 * i);
      offsetRef, rowNumber := ReadEntry(f);
    }

    /** The row of entry `i`, which was just read. */
    method ReadFound(f: FILE, offsetRef: nat, ghost i: nat) returns (row: Row)
      requires SamePlace(f.data, f.pos, TableStart(f.data) + 10 * (i + 1)) && offsetRef == EntryOffset(f.data, i)
      modifies f`pos
      ensures row == EntryRow(f.data, i)
    {
      PlaceRow(f.data, f.pos, TableStart(f.data) + 10 * (i + 1), offsetRef);
      f.Fseek(offsetRef);
      row := ReadRow(f);
    }
  }
}
