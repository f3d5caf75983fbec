/** unify.c as it runs: the character table, the buffer in front of hash_buffer, and the scanner. */
module Unify {
  import opened UnifyText
  import opened UnifyScan

  // ---------- the character table ----------

  datatype Entry = Entry(alpha: bool, digit: bool, space: bool, hex: bool, quote: bool, float: bool, sign: bool,
                         token: bool, toks: seq<string>)

  /** What the table says of `c` once the operators `ts` are entered. */
  function EntryOf(c: char, ts: seq<string>): Entry {
    Entry(IsAlpha(c), IsDigit(c), IsSpace(c), IsHex(c), IsQuote(c), IsFloat(c), IsSign(c), Operators(ts, c) != [],
      Operators(ts, c))
  }

  ghost predicate IsTable(table: array<Entry>, ts: seq<string>)
    reads table
  {
    table.Length == 256 && forall c :: 0 <= c < 256 ==> table[c] == EntryOf(c as char, ts)
  }

  /** What the finished table says of `c`. */
  function Finished(c: char): Entry {
    EntryOf(c, TOKENS)
  }

  ghost predicate Built(table: array<Entry>)
    reads table
  {
    table.Length == 256 && forall c :: 0 <= c < 256 ==> table[c] == Finished(c as char)
  }

  lemma {:induction false} OperatorsSnoc(ts: seq<string>, t: string, c: char)
    ensures Operators(ts + [t], c) == Operators(ts, c) + if t != "" && t[0] == c then [t] else []
  {
    if ts == [] {
      assert [t][1..] == [];
    } else {
      assert (ts + [t])[1..] == ts[1..] + [t];
      OperatorsSnoc(ts[1..], t, c);
    }
  }

  /** The classes that come from ctype.h, for ASCII only. */
  function Ctype(c: int): Entry
    requires 0 <= c < 256
  {
    var d := c as char;
    Entry(IsAlpha(d), IsDigit(d), IsSpace(d), IsHex(d), false, false, false, false, [])
  }

  method EnterCtype(table: array<Entry>)
    requires table.Length == 256 && forall c :: 0 <= c < 256 ==>
             table[c] == Entry(false, false, false, false, false, false, false, false, [])
    modifies table
    ensures forall c :: 0 <= c < 256 ==> table[c] == Ctype(c)
  {
    for c := 0 to 128
      invariant forall d :: 0 <= d < c || 128 <= d < 256 ==> table[d] == Ctype(d)
    {
      table[c] := Ctype(c);
    }
  }

  /** The character of code `c` has no class yet that the assignments below give. */
  ghost predicate Plain(e: Entry, c: int)
    requires 0 <= c < 256
  {
    var d := c as char;
    e.alpha == IsAlpha(d) && e.digit == IsDigit(d) && e.space == IsSpace(d) && e.hex == IsHex(d) && !e.token &&
      e.toks == []
  }

  method EnterQuotes(table: array<Entry>)
    requires table.Length == 256 && forall c :: 0 <= c < 256 ==> table[c] == Ctype(c)
    modifies table
    ensures forall c :: 0 <= c < 256 ==>
      Plain(table[c], c) && !table[c].float && table[c].quote == IsQuote(c as char) &&
        table[c].sign == IsSign(c as char)
  {
    table[39] := table[39].(quote := true);  // '
    table[34] := table[34].(quote := true);  // "
    table[45] := table[45].(sign := true);   // -
    table[43] := table[43].(sign := true);   // +
  }

  /** The suffixes of the codes in `done` are entered. */
  ghost predicate SuffixesIn(table: array<Entry>, done: set<int>)
    reads table
  {
    table.Length == 256 &&
    forall c :: 0 <= c < 256 ==>
      Plain(table[c], c) && table[c].quote == IsQuote(c as char) && table[c].sign == IsSign(c as char) &&
      (table[c].float <==> c in done)
  }

  method EnterSuffix(table: array<Entry>, code: int, ghost done: set<int>)
    requires 0 <= code < 256 && SuffixesIn(table, done)
    modifies table
    ensures SuffixesIn(table, done + {code})
  {
    table[code] := table[code].(float := true);
  }

  method EnterSuffixes(table: array<Entry>)
    requires SuffixesIn(table, {})
    modifies table
    ensures IsTable(table, [])
  {
    EnterSuffix(table, 108, {});                      // l
    EnterSuffix(table, 76, {108});                    // L
    EnterSuffix(table, 102, {108, 76});               // f
    EnterSuffix(table, 70, {108, 76, 102});           // F
    EnterSuffix(table, 85, {108, 76, 102, 70});       // U
    EnterSuffix(table, 117, {108, 76, 102, 70, 85});  // u
    SuffixesAre(table);
  }

  lemma SuffixesAre(table: array<Entry>)
    requires SuffixesIn(table, {108, 76, 102, 70, 85, 117})
    ensures IsTable(table, [])
  {
    forall c | 0 <= c < 256 ensures table[c] == EntryOf(c as char, []) { SuffixIs(c); }
  }

  lemma SuffixIs(c: int)
    requires 0 <= c < 256
    ensures IsFloat(c as char) <==> c in {108, 76, 102, 70, 85, 117}
  {
  }

  method EnterOne(table: array<Entry>, t: string, ghost ts: seq<string>)
    requires IsTable(table, ts) && Clean(t)
    modifies table
    ensures IsTable(table, ts + [t])
  {
    var c := t[0] as int;
    table[c] := Added(table[c], t);
    forall d | 0 <= d < 256 ensures table[d] == EntryOf(d as char, ts + [t]) {
      OperatorsSnoc(ts, t, d as char);
    }
  }

  method EnterOperators(table: array<Entry>)
    requires IsTable(table, [])
    modifies table
    ensures IsTable(table, TOKENS)
  {
    TokensClean();
    EnterList(table, TOKENS);
  }

  method EnterList(table: array<Entry>, ts: seq<string>)
    requires IsTable(table, []) && forall t | t in ts :: Clean(t)
    modifies table
    ensures IsTable(table, ts)
  {
    for i := 0 to |ts|
      invariant IsTable(table, ts[..i])
    {
      EnterOne(table, ts[i], ts[..i]);
      assert ts[..i + 1] == ts[..i] + [ts[i]];
    }
    assert ts[..|ts|] == ts;
  }

  /** `e` with the operator `t` entered. */
  function Added(e: Entry, t: string): Entry {
    e.(token := true, toks := e.toks + [t])
  }

  /** build_table. */
  method BuildTable() returns (table: array<Entry>)
    ensures fresh(table) && Built(table)
  {
    table := new Entry[256](_ => Entry(false, false, false, false, false, false, false, false, []));
    EnterCtype(table);
    EnterQuotes(table);
    EnterSuffixes(table);
    EnterOperators(table);
  }

  // ---------- the buffer in front of hash_buffer ----------

  /** One call of hash_buffer: with data, or with NULL to finish. */
  datatype Call = Data(text: string) | Finish

  ghost function Sent(calls: seq<Call>): string {
    if calls == [] then ""
    else Sent(calls[..|calls| - 1]) + if calls[|calls| - 1].Data? then calls[|calls| - 1].text else ""
  }

  ghost predicate AllData(calls: seq<Call>) {
    forall c | c in calls :: c.Data? && 0 < |c.text| <= 64
  }

  /** Calls that the buffer was flushed by because it was full. */
  ghost predicate AllFull(calls: seq<Call>) {
    forall c | c in calls :: c.Data? && |c.text| == 64
  }

  /** The text was cut into calls of 64 characters; only the last one may be shorter. */
  ghost predicate Cut(calls: seq<Call>) {
    forall i :: 0 <= i < |calls| ==>
      calls[i].Data? && if i < |calls| - 1 then |calls[i].text| == 64 else 0 < |calls[i].text| <= 64
  }

  lemma CutIsData(calls: seq<Call>)
    requires Cut(calls)
    ensures AllData(calls)
  {
  }

  /** The call for what waits at the end, if anything does. */
  function LastCall(text: string): seq<Call> {
    if text == "" then [] else [Data(text)]
  }

  lemma SentAtEnd(full: seq<Call>, text: string)
    requires AllFull(full) && |text| < 64
    ensures Cut(full + LastCall(text)) && Sent(full + LastCall(text)) == Sent(full) + text
  {
    if text == "" {
      assert full + [] == full && Sent(full) + "" == Sent(full);
    } else {
      assert (full + [Data(text)])[..|full|] == full;
    }
  }

  /** The calls since `base`, once what waits is flushed. */
  lemma CallsAtEnd(base: seq<Call>, calls: seq<Call>, text: string, s: string) returns (sent: seq<Call>)
    requires base <= calls && AllFull(calls[|base|..]) && Sent(calls[|base|..]) + text == s && |text| < 64
    ensures calls + LastCall(text) == base + sent && Cut(sent) && Sent(sent) == s
  {
    var full := calls[|base|..];
    sent := full + LastCall(text);
    SentAtEnd(full, text);
  }

  class Unifier {
    var buf: array<char>
    var len: nat
    var calls: seq<Call>  // the calls of hash_buffer so far
    const table: array<Entry>

    ghost predicate Valid()
      reads this, buf, table
    {
      buf.Length == 64 && len < 64 && Built(table)
    }

    /** Since the calls were `base`, exactly `s` has gone to the hash or waits in the buffer. */
    ghost predicate Pushed(base: seq<Call>, s: string)
      reads this, buf
    {
      len <= buf.Length && base <= calls && AllFull(calls[|base|..]) && Sent(calls[|base|..]) + buf[..len] == s
    }

    constructor ()
      ensures Valid() && fresh(buf) && fresh(table) && calls == [] && len == 0
    {
      var t := BuildTable();
      table := t;
      buf := new char[64](_ => '\0');
      len, calls := 0, [];
    }

    /** hash_buffer of the full buffer. */
    method HashFull(text: string, ghost base: seq<Call>)
      requires base <= calls && AllFull(calls[|base|..]) && |text| == 64
      modifies this`calls
      ensures calls == old(calls) + [Data(text)] && base <= calls
      ensures AllFull(calls[|base|..]) && Sent(calls[|base|..]) == Sent(old(calls)[|base|..]) + text
    {
      calls := calls + [Data(text)];
      assert calls[|base|..] == old(calls)[|base|..] + [Data(text)];
    }

    /** pushchar of a character that is not NUL. */
    method PushChar(c: char, ghost base: seq<Call>, ghost s: string)
      requires Valid() && c != '\0' && Pushed(base, s)
      modifies this`len, this`calls, buf
      ensures Valid() && Pushed(base, s + [c])
    {
      buf[len] := c;
      len := len + 1;
      assert buf[..len] == old(buf[..len]) + [c];
      if len == 64 {
        HashFull(buf[..len], base);
        len := 0;
        assert buf[..0] == "";
      }
    }

    /** pushchar of NUL: what waits goes to the hash, then the hash is finished. */
    method PushEnd(ghost base: seq<Call>, ghost s: string) returns (ghost sent: seq<Call>)
      requires Valid() && Pushed(base, s)
      modifies this`len, this`calls
      ensures Valid() && len == 0
      ensures calls == base + sent + [Finish] && Cut(sent) && Sent(sent) == s
    {
      sent := CallsAtEnd(base, calls, buf[..len], s);
      FlushLast();
      calls := calls + [Finish];
    }

    /** What waits goes to the hash. */
    method FlushLast()
      requires Valid()
      modifies this`len, this`calls
      ensures len == 0 && calls == old(calls) + LastCall(old(buf[..len]))
    {
      if len > 0 {
        calls := calls + [Data(buf[..len])];
        len := 0;
      }
    }

    // ---------- the scanner ----------

    /** The test of an inner loop, by table lookup. */
    predicate Test(f: Class, c: char)
      requires Built(table) && c as int < 256
      reads table
      ensures Test(f, c) <==> In(f, c)
    {
      var e := table[c as int];
      match f
      case Word => e.alpha || e.digit
      case Digits => e.digit || c == '.'
      case HexDigits => e.hex
      case Exponent => e.digit || e.sign
      case Suffix => e.float
      case Blank => e.space
      case Line => c != '\n'
    }

    /** Pushes the next character of the piece that began at `start`. */
    method PushNext(p: string, start: nat, ofs: nat, ghost base: seq<Call>, ghost s: string)
      requires Valid() && Bytes(p) && start <= ofs < |p| && Pushed(base, s + p[start..ofs])
      modifies this`len, this`calls, buf
      ensures Valid() && Pushed(base, s + p[start..ofs + 1])
    {
      PushChar(p[ofs], base, s + p[start..ofs]);
      assert s + p[start..ofs] + [p[ofs]] == s + p[start..ofs + 1];
    }

    /** Pushes characters while they are in the class. */
    method PushWhile(p: string, start: nat, f: Class, ghost base: seq<Call>, ghost s: string) returns (ofs: nat)
      requires Valid() && Bytes(p) && start <= |p| && Pushed(base, s)
      modifies this`len, this`calls, buf
      ensures Valid() && ofs == start + Run(p[start..], f) && Pushed(base, s + p[start..ofs])
    {
      ofs := start;
      assert s + p[start..start] == s;
      while ofs < |p| && Test(f, p[ofs])
        invariant start <= ofs <= |p| && Valid() && Pushed(base, s + p[start..ofs])
        invariant start + Run(p[start..], f) == ofs + Run(p[ofs..], f)
      {
        PushNext(p, start, ofs, base, s);
        assert p[ofs..][1..] == p[ofs + 1..];
        ofs := ofs + 1;
      }
    }

    /** Pushes one character, then more while they are in the class. */
    method PushDoWhile(p: string, start: nat, f: Class, ghost base: seq<Call>, ghost s: string) returns (ofs: nat)
      requires Valid() && Bytes(p) && start < |p| && Pushed(base, s)
      modifies this`len, this`calls, buf
      ensures Valid() && ofs == start + 1 + Run(p[start + 1..], f) && Pushed(base, s + p[start..ofs])
      ensures In(f, p[start]) ==> ofs == start + Run(p[start..], f)
    {
      PushChar(p[start], base, s);
      ofs := PushWhile(p, start + 1, f, base, s + [p[start]]);
      assert s + [p[start]] + p[start + 1..ofs] == s + p[start..ofs];
      assert p[start..][1..] == p[start + 1..];
    }

    /** Skips one character, then more while they are in the class. */
    method SkipDoWhile(p: string, start: nat, f: Class) returns (ofs: nat)
      requires Built(table) && Bytes(p) && start < |p| && In(f, p[start])
      ensures ofs == start + Run(p[start..], f)
    {
      ofs := start + 1;
      assert p[start..][1..] == p[start + 1..];
      while ofs < |p| && Test(f, p[ofs])
        invariant start < ofs <= |p|
        invariant start + Run(p[start..], f) == ofs + Run(p[ofs..], f)
      {
        assert p[ofs..][1..] == p[ofs + 1..];
        ofs := ofs + 1;
      }
    }

    /** The newline after a piece. */
    method PushNewline(p: string, start: nat, ofs: nat, ghost base: seq<Call>, ghost s: string)
      requires Valid() && start <= ofs <= |p| && Pushed(base, s + p[start..ofs])
      modifies this`len, this`calls, buf
      ensures Valid() && Pushed(base, s + (p[start..][..ofs - start] + "\n"))
    {
      PushChar('\n', base, s + p[start..ofs]);
      assert p[start..][..ofs - start] == p[start..ofs];
      assert s + p[start..ofs] + ['\n'] == s + (p[start..][..ofs - start] + "\n");
    }

    /** A line that starts with '#'. */
    method ScanLine(p: string, start: nat, ghost base: seq<Call>, ghost s: string) returns (ofs: nat)
      requires Valid() && Bytes(p) && start < |p| && p[start] == '#' && Pushed(base, s)
      modifies this`len, this`calls, buf
      ensures Valid() && ofs == start + Step(p[start..]).used && Pushed(base, s + Step(p[start..]).text)
    {
      if |p| - start > 2 && p[start + 1] == ' ' && '0' <= p[start + 2] <= '9' {
        ofs := SkipDoWhile(p, start, Line);
        assert s + "" == s;
      } else {
        ofs := PushDoWhile(p, start, Line, base, s);
        PushNewline(p, start, ofs, base, s);
      }
      ofs := ofs + 1;
    }

    method ScanNumber(p: string, start: nat, ghost base: seq<Call>, ghost s: string) returns (ofs: nat)
      requires Valid() && Bytes(p) && start < |p| && IsDigit(p[start]) && Pushed(base, s)
      modifies this`len, this`calls, buf
      ensures Valid() && ofs == start + NumberLen(p[start..]) && Pushed(base, s + p[start..ofs])
    {
      var i := PushDoWhile(p, start, Digits, base, s);
      ofs := ScanNumberTail(p, start, i, base, s);
    }

    method ScanNumberTail(p: string, start: nat, i: nat, ghost base: seq<Call>, ghost s: string) returns (ofs: nat)
      requires Valid() && Bytes(p) && start <= i <= |p| && Pushed(base, s + p[start..i])
      modifies this`len, this`calls, buf
      ensures Valid() && ofs == start + SuffixEnd(p[start..], ExponentEnd(p[start..], HexEnd(p[start..], i - start)))
      ensures Pushed(base, s + p[start..ofs])
    {
      var j := ScanHex(p, start, i, base, s);
      var k := ScanExponent(p, start, j, base, s);
      ofs := PushOn(p, start, k, Suffix, base, s);
    }

    /** Goes on with more of the piece that began at `start`. */
    method PushOn(p: string, start: nat, i: nat, f: Class, ghost base: seq<Call>, ghost s: string) returns (ofs: nat)
      requires Valid() && Bytes(p) && start <= i <= |p| && Pushed(base, s + p[start..i])
      modifies this`len, this`calls, buf
      ensures Valid() && ofs == i + Run(p[start..][i - start..], f) && Pushed(base, s + p[start..ofs])
    {
      assert p[start..][i - start..] == p[i..];
      ofs := PushWhile(p, i, f, base, s + p[start..i]);
      assert s + p[start..i] + p[i..ofs] == s + p[start..ofs];
    }

    method ScanHex(p: string, start: nat, i: nat, ghost base: seq<Call>, ghost s: string) returns (ofs: nat)
      requires Valid() && Bytes(p) && start <= i <= |p| && Pushed(base, s + p[start..i])
      modifies this`len, this`calls, buf
      ensures Valid() && ofs == start + HexEnd(p[start..], i - start) && Pushed(base, s + p[start..ofs])
    {
      ofs := i;
      if ofs < |p| && (p[ofs] == 'x' || p[ofs] == 'X') {
        ofs := PushMore(p, start, ofs, HexDigits, base, s);
      }
    }

    method ScanExponent(p: string, start: nat, i: nat, ghost base: seq<Call>, ghost s: string) returns (ofs: nat)
      requires Valid() && Bytes(p) && start <= i <= |p| && Pushed(base, s + p[start..i])
      modifies this`len, this`calls, buf
      ensures Valid() && ofs == start + ExponentEnd(p[start..], i - start) && Pushed(base, s + p[start..ofs])
    {
      ofs := i;
      if ofs < |p| && (p[ofs] == 'E' || p[ofs] == 'e') {
        ofs := PushMore(p, start, ofs, Exponent, base, s);
      }
    }

    /** Goes on with a part of a number that a letter introduces. */
    method PushMore(p: string, start: nat, i: nat, f: Class, ghost base: seq<Call>, ghost s: string) returns (ofs: nat)
      requires Valid() && Bytes(p) && start <= i < |p| && Pushed(base, s + p[start..i])
      modifies this`len, this`calls, buf
      ensures Valid() && ofs == i + 1 + Run(p[start..][i - start + 1..], f) && Pushed(base, s + p[start..ofs])
    {
      assert p[start..][i - start + 1..] == p[i + 1..];
      ofs := PushDoWhile(p, i, f, base, s + p[start..i]);
      assert s + p[start..i] + p[i..ofs] == s + p[start..ofs];
    }

    /** A string or character literal: `ofs` is the offset of the closing quote. */
    method ScanLiteral(p: string, start: nat, ghost base: seq<Call>, ghost s: string) returns (ofs: nat)
      requires Valid() && Bytes(p) && start < |p| && IsQuote(p[start]) && Pushed(base, s)
      requires QuoteEnd(p[start + 1..], p[start]) >= 0
      modifies this`len, this`calls, buf
      ensures Valid() && ofs == start + 1 + QuoteEnd(p[start + 1..], p[start]) && Pushed(base, s + p[start..ofs + 1])
    {
      var q := p[start];
      QuoteFromIs(p, start + 1, q);
      assert s + p[start..start] == s;
      PushNext(p, start, start, base, s);
      ofs := PushToQuote(p, start, q, base, s, QuoteFrom(p, start + 1, q));
    }

    /** The loop of a literal, which ends with the closing quote at `end`. */
    method PushToQuote(p: string, start: nat, q: char, ghost base: seq<Call>, ghost s: string, ghost end: int)
      returns (ofs: nat)
      requires Valid() && Bytes(p) && start < |p| && QuoteFrom(p, start + 1, q) == end >= 0
      requires Pushed(base, s + p[start..start + 1])
      modifies this`len, this`calls, buf
      ensures Valid() && start <= ofs == end < |p| && Pushed(base, s + p[start..ofs + 1])
    {
      ofs := start;
      var more := true;
      while more
        invariant start <= ofs < |p| && Valid() && Pushed(base, s + p[start..ofs + 1])
        invariant if more then QuoteFrom(p, ofs + 1, q) == end else ofs == end
        decreases |p| - ofs, more
      {
        ofs := PushEscapes(p, start, ofs + 1, q, base, s, end);
        PushNext(p, start, ofs, base, s);
        more := ofs < |p| && p[ofs] != q;
      }
    }

    method PushPair(p: string, start: nat, ofs: nat, ghost base: seq<Call>, ghost s: string)
      requires Valid() && Bytes(p) && start <= ofs < |p| - 1 && Pushed(base, s + p[start..ofs])
      modifies this`len, this`calls, buf
      ensures Valid() && Pushed(base, s + p[start..ofs + 2])
    {
      PushNext(p, start, ofs, base, s);
      PushNext(p, start, ofs + 1, base, s);
    }

    /** The loop over escaped characters in a literal. */
    method PushEscapes(p: string, start: nat, i: nat, q: char, ghost base: seq<Call>, ghost s: string, ghost end: int)
      returns (ofs: nat)
      requires Valid() && Bytes(p) && start < i <= |p| && QuoteFrom(p, i, q) == end >= 0 &&
               Pushed(base, s + p[start..i])
      modifies this`len, this`calls, buf
      ensures i <= ofs < |p| && QuoteFrom(p, ofs, q) == end && p[ofs] != '\\'
      ensures Valid() && Pushed(base, s + p[start..ofs])
    {
      ofs := i;
      while ofs < |p| - 1 && p[ofs] == '\\'
        invariant i <= ofs <= |p| && Valid() && Pushed(base, s + p[start..ofs])
        invariant QuoteFrom(p, ofs, q) == end
      {
        QuoteFromInside(p, ofs, q);
        PushPair(p, start, ofs, base, s);
        ofs := ofs + 2;
      }
    }

    /** The operators that begin with the next character, the first match wins; `found` when there is one. */
    method ScanOperator(p: string, start: nat, ghost base: seq<Call>, ghost s: string) returns (found: bool, ofs: nat)
      requires Valid() && Bytes(p) && start < |p| && Pushed(base, s)
      modifies this`len, this`calls, buf
      ensures Valid() && (found <==> Operator(p[start..]) != "")
      ensures found ==> ofs == start + |Operator(p[start..])| && Pushed(base, s + p[start..ofs])
      ensures !found ==> ofs == start && Pushed(base, s)
    {
      ghost var q := p[start..];
      found, ofs := false, start;
      var toks := table[p[start] as int].toks;
      TokensClean();
      OperatorsClean(TOKENS, p[start]);
      var i := 0;
      while i < |toks|
        invariant 0 <= i <= |toks| && Valid() && Pushed(base, s)
        invariant FirstMatch(toks[i..], q) == Operator(q)
      {
        var t := toks[i];
        assert t in toks && Clean(t);
        assert toks[i..][1..] == toks[i + 1..];
        PrefixAt(p, start, t);
        if |p| >= start + |t| && p[start..start + |t|] == t {
          found := true;
          ofs := PushToken(p, start, t, base, s);
          return;
        }
        i := i + 1;
      }
      assert toks[i..] == [];
    }

    /** Pushes the characters of the operator `t`. */
    method PushToken(p: string, start: nat, t: string, ghost base: seq<Call>, ghost s: string) returns (ofs: nat)
      requires Valid() && Bytes(p) && start + |t| <= |p| && p[start..start + |t|] == t && Pushed(base, s)
      modifies this`len, this`calls, buf
      ensures Valid() && ofs == start + |t| && Pushed(base, s + p[start..ofs])
    {
      ofs := start;
      assert s + p[start..start] == s;
      for j := 0 to |t|
        invariant ofs == start + j && Valid() && Pushed(base, s + p[start..ofs])
      {
        assert t[j] == p[start..start + |t|][j];
        PushChar(t[j], base, s + p[start..ofs]);
        assert s + p[start..ofs] + [t[j]] == s + p[start..ofs + 1];
        ofs := ofs + 1;
      }
    }

    /** A piece that is no line and no white space, and its newline. */
    method ScanToken(p: string, start: nat, ghost base: seq<Call>, ghost s: string) returns (ofs: nat)
      requires Valid() && Bytes(p) && start < |p| && p[start] != '#' && !IsSpace(p[start]) && Closed(p[start..]) &&
               Pushed(base, s)
      modifies this`len, this`calls, buf
      ensures Valid() && ofs == start + TokenLen(p[start..]) && Pushed(base, s + (p[start..][..ofs - start] + "\n"))
    {
      var e := table[p[start] as int];
      assert p[start..][1..] == p[start + 1..] && p[start..][0] == p[start];
      if e.alpha {
        ofs := PushDoWhile(p, start, Word, base, s);
      } else if e.digit {
        ofs := ScanNumber(p, start, base, s);
      } else if e.quote {
        ofs := ScanLiteral(p, start, base, s);
        ofs := ofs + 1;
      } else {
        var found;
        found, ofs := ScanOperator(p, start, base, s);
        if !found {
          PushChar(p[start], base, s);
          ofs := start + 1;
          assert s + [p[start]] == s + p[start..ofs];
        }
      }
      PushNewline(p, start, ofs, base, s);
    }

    /** One round of unify. */
    method Round(p: string, start: nat, ghost base: seq<Call>, ghost s: string) returns (ofs: nat)
      requires Valid() && Bytes(p) && start < |p| && Closed(p[start..]) && Pushed(base, s)
      modifies this`len, this`calls, buf
      ensures Valid() && ofs == start + Step(p[start..]).used && Pushed(base, s + Step(p[start..]).text)
    {
      if p[start] == '#' {
        ofs := ScanLine(p, start, base, s);
      } else if table[p[start] as int].space {
        ofs := SkipDoWhile(p, start, Blank);
        assert s + "" == s;
      } else {
        ofs := ScanToken(p, start, base, s);
      }
    }

    /** unify: what waited in the buffer, then the unified text, goes to hash_buffer in calls of 64
        characters, only the last one shorter, and the hash is finished. */
    method Unify(p: string) returns (ghost sent: seq<Call>)
      requires Valid() && Bytes(p) && Terminated(p)
      modifies this`len, this`calls, buf
      ensures Valid() && len == 0
      ensures calls == old(calls) + sent + [Finish] && Cut(sent)
      ensures Sent(sent) == old(buf[..len]) + UnifyScan.Unify(p)
    {
      ghost var base, s := calls, buf[..len];
      assert calls[|base|..] == [];
      var ofs := 0;
      assert p[0..] == p;
      while ofs < |p|
        invariant 0 <= ofs && Valid() && Pushed(base, s)
        invariant Terminated(From(p, ofs)) && s + UnifyScan.Unify(From(p, ofs)) == old(buf[..len]) + UnifyScan.Unify(p)
      {
        ofs, s := NextRound(p, ofs, base, s);
      }
      sent := PushEnd(base, s);
    }

    method NextRound(p: string, start: nat, ghost base: seq<Call>, ghost s: string) returns (ofs: nat, ghost s': string)
      requires Valid() && Bytes(p) && start < |p| && Terminated(From(p, start)) && Pushed(base, s)
      modifies this`len, this`calls, buf
      ensures Valid() && start < ofs && Pushed(base, s') && Terminated(From(p, ofs))
      ensures s' + UnifyScan.Unify(From(p, ofs)) == s + UnifyScan.Unify(From(p, start))
    {
      UnifyRound(p, start, s);
      ofs := Round(p, start, base, s);
      s' := s + Step(p[start..]).text;
    }
  }

  predicate Bytes(p: string) {
    forall i :: 0 <= i < |p| ==> p[i] != '\0' && p[i] as int < 256
  }

  /** The index of the quote that closes a literal whose body goes on at `i`, or -1. */
  function QuoteFrom(p: string, i: nat, q: char): int
    decreases |p| - i
  {
    if i >= |p| then -1
    else if p[i] == '\\' then if i + 1 == |p| then -1 else QuoteFrom(p, i + 2, q)
    else if p[i] == q then i
    else QuoteFrom(p, i + 1, q)
  }

  lemma {:induction false} QuoteFromIs(p: string, i: nat, q: char)
    requires i <= |p|
    ensures var e := QuoteEnd(p[i..], q); QuoteFrom(p, i, q) == if e < 0 then -1 else i + e
    decreases |p| - i
  {
    if i < |p| {
      if p[i] == '\\' {
        if i + 1 < |p| {
          assert p[i..][2..] == p[i + 2..];
          QuoteFromIs(p, i + 2, q);
        }
      } else if p[i] != q {
        assert p[i..][1..] == p[i + 1..];
        QuoteFromIs(p, i + 1, q);
      }
    }
  }

  lemma {:induction false} QuoteFromInside(p: string, i: nat, q: char)
    requires QuoteFrom(p, i, q) >= 0
    ensures i <= QuoteFrom(p, i, q) < |p|
    decreases |p| - i
  {
    if p[i] == '\\' { QuoteFromInside(p, i + 2, q); } else if p[i] != q { QuoteFromInside(p, i + 1, q); }
  }

  lemma PrefixAt(p: string, i: nat, t: string)
    requires i <= |p|
    ensures |p| >= i + |t| && p[i..i + |t|] == t <==> t <= p[i..]
  {
    if |p| >= i + |t| { assert p[i..][..|t|] == p[i..i + |t|]; }
  }

  lemma UnifyRound(p: string, i: nat, s: string)
    requires i < |p| && Terminated(From(p, i))
    ensures Closed(p[i..])
    ensures var n := i + Step(p[i..]).used;
            Terminated(From(p, n)) &&
            s + UnifyScan.Unify(From(p, i)) == s + Step(p[i..]).text + UnifyScan.Unify(From(p, n))
  {
    var q := p[i..];
    assert From(p, i + Step(q).used) == Rest(q);
  }

  ghost function From(p: string, i: nat): string {
    if i <= |p| then p[i..] else ""
  }
}
