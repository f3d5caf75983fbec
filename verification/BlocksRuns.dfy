/** A stream that goes on after it was finished: what any run of calls hashes. */
module BlocksRuns {
  import opened Blocks
  import opened Bytes
  import opened Division

  /** The blocks a NULL hashes are whole blocks. */
  ghost predicate WholeLast(last: (seq<Byte>, nat) -> seq<Byte>) {
    forall t, n :: |t| < 64 ==> |last(t, n)| % 64 == 0
  }

  /** The bytes of `c` behind its whole blocks. */
  function Remainder(c: seq<Byte>): (r: seq<Byte>)
    ensures |r| < 64
  {
    c[Whole(c)..]
  }

  /** The bytes that NULLs have counted: at each the bytes that wait. */
  function Extra(inputs: seq<Input>): nat {
    if inputs == [] then 0
    else
      var front, input := inputs[..|inputs| - 1], inputs[|inputs| - 1];
      Extra(front) + if input.Data? then 0 else |Remainder(Carried(front))|
  }

  /** The count after the calls: the bytes of the whole blocks, and those counted by NULLs. */
  function Counted(inputs: seq<Input>): nat {
    Whole(Carried(inputs)) + Extra(inputs)
  }

  /** All that has gone into the hash: the whole blocks of the data, with the last blocks of each NULL between them. The
      bytes that wait at a NULL are in its last blocks, and again in the block that later data completes. */
  function Hashed(last: (seq<Byte>, nat) -> seq<Byte>, inputs: seq<Input>): seq<Byte> {
    if inputs == [] then []
    else
      var front, input := inputs[..|inputs| - 1], inputs[|inputs| - 1];
      assert inputs == front + [input];
      CarriedGrows(front, input);
      match input
      case Data(_) => Hashed(last, front) + Carried(inputs)[Whole(Carried(front))..Whole(Carried(inputs))]
      case NULL => Hashed(last, front) + last(Remainder(Carried(front)), Counted(inputs) % WORD)
  }

  lemma CarriedGrows(front: seq<Input>, input: Input)
    ensures Carried(front + [input]) == Carried(front) + if input.Data? then input.data else []
    ensures Whole(Carried(front)) <= Whole(Carried(front + [input]))
  {
    CarriedAppend(front, [input]);
    assert [input][1..] == [];
  }

  // ---------- one step ----------

  lemma AbsorbIs<S>(f: (S, seq<Byte>) -> S, md: Md<S>, d: seq<Byte>, b: seq<Byte>, n: nat)
    requires b == md.tail + d && n == Whole(b)
    ensures Absorb(f, md, d) == Md(Fold(f, md.st, b[..n]), (md.total + n) % WORD, b[n..])
  {
  }

  lemma FinishIs<S>(f: (S, seq<Byte>) -> S, last: (seq<Byte>, nat) -> seq<Byte>, md: Md<S>, t: nat, blocks: seq<Byte>)
    requires t == (md.total + |md.tail|) % WORD && blocks == last(md.tail, t)
    ensures Finish(f, last, md) == Md(Fold(f, md.st, blocks), t, md.tail)
  {
  }

  lemma NewBlocks(c: seq<Byte>, d: seq<Byte>, w: nat, n: nat)
    requires w <= |c| && n <= |c[w..] + d|
    ensures (c[w..] + d)[..n] == (c + d)[w..w + n] && (c[w..] + d)[n..] == (c + d)[w + n..]
  {
    assert c + d == c[..w] + (c[w..] + d);
  }

  lemma WholeGrows(c: seq<Byte>, d: seq<Byte>, w: nat)
    requires w == Whole(c)
    ensures Whole(c + d) == w + Whole(c[w..] + d)
  {
    WholeAdd(w, |c[w..]|, |d|, Whole(c[w..] + d));
  }

  lemma FoldMore<S>(f: (S, seq<Byte>) -> S, st: S, a: seq<Byte>, k: nat, b: seq<Byte>, mid: S)
    requires |a| == 64 * k && mid == Fold(f, st, a)
    ensures Fold(f, st, a + b) == Fold(f, mid, b)
  {
    FoldAppend(f, st, a, b);
  }

  lemma AbsorbAfter<S>(f: (S, seq<Byte>) -> S, mid: S, t: nat, c: seq<Byte>, d: seq<Byte>, w: nat, n: nat)
    requires w <= |c| && n == Whole(c[w..] + d)
    ensures Absorb(f, Md(mid, t, c[w..]), d) == Md(Fold(f, mid, (c + d)[w..w + n]), (t + n) % WORD, (c + d)[w + n..])
  {
    NewBlocks(c, d, w, n);
    AbsorbIs(f, Md(mid, t, c[w..]), d, c[w..] + d, n);
  }

  // ---------- any run ----------

  lemma AfterData(last: (seq<Byte>, nat) -> seq<Byte>, front: seq<Input>, c: seq<Byte>, d: seq<Byte>, w: nat, w': nat)
    requires c == Carried(front) && w == Whole(c) && w' == Whole(c + d)
    ensures w <= w' && Carried(front + [Data(d)]) == c + d
    ensures Hashed(last, front + [Data(d)]) == Hashed(last, front) + (c + d)[w..w']
    ensures Extra(front + [Data(d)]) == Extra(front)
  {
    CarriedGrows(front, Data(d));
    assert (front + [Data(d)])[..|front|] == front;
  }

  lemma ExtraNull(front: seq<Input>)
    ensures Carried(front + [NULL]) == Carried(front)
    ensures Extra(front + [NULL]) == Extra(front) + |Remainder(Carried(front))|
  {
    CarriedGrows(front, NULL);
    assert (front + [NULL])[..|front|] == front;
  }

  lemma AfterNull(last: (seq<Byte>, nat) -> seq<Byte>, front: seq<Input>, c: seq<Byte>, r: seq<Byte>, n: nat)
    requires c == Carried(front) && r == Remainder(c) && n == Whole(c) + Extra(front) + |r|
    ensures Carried(front + [NULL]) == c && Extra(front + [NULL]) == Extra(front) + |r|
    ensures Hashed(last, front + [NULL]) == Hashed(last, front) + last(r, n % WORD)
  {
    ExtraNull(front);
    assert Counted(front + [NULL]) == n;
    HashedNull(last, front, r, n);
  }

  lemma HashedNull(last: (seq<Byte>, nat) -> seq<Byte>, front: seq<Input>, r: seq<Byte>, n: nat)
    requires r == Remainder(Carried(front)) && n == Counted(front + [NULL])
    ensures Hashed(last, front + [NULL]) == Hashed(last, front) + last(r, n % WORD)
  {
    assert (front + [NULL])[..|front|] == front;
  }

  /** The blocks a NULL at the end of the run adds, when `n` bytes are counted. */
  lemma NullAdds(last: (seq<Byte>, nat) -> seq<Byte>, front: seq<Input>, n: nat) returns (b: seq<Byte>)
    requires n == Whole(Carried(front)) + Extra(front) + |Remainder(Carried(front))|
    ensures b == last(Remainder(Carried(front)), n % WORD)
    ensures Hashed(last, front + [NULL]) == Hashed(last, front) + b
  {
    var c := Carried(front);
    b := last(Remainder(c), n % WORD);
    AfterNull(last, front, c, Remainder(c), n);
  }

  lemma WholeBlocks(b: seq<Byte>) returns (k: nat)
    ensures Whole(b) == 64 * k
  {
    k := |b| / 64;
  }

  lemma {:induction false} HashedBlocks(last: (seq<Byte>, nat) -> seq<Byte>, inputs: seq<Input>) returns (k: nat)
    requires WholeLast(last)
    ensures |Hashed(last, inputs)| == 64 * k
    decreases |inputs|
  {
    k := 0;
    if inputs != [] {
      var front, input := inputs[..|inputs| - 1], inputs[|inputs| - 1];
      assert inputs == front + [input];
      var h := HashedBlocks(last, front);
      var c := Carried(front);
      match input
      case Data(d) =>
        AfterData(last, front, c, d, Whole(c), Whole(c + d));
        var p := WholeBlocks(c);
        var q := WholeBlocks(c + d);
        k := h + (q - p);
      case NULL =>
        var r := Remainder(c);
        var n := Whole(c) + Extra(front) + |r|;
        AfterNull(last, front, c, r, n);
        var q := LastBlocks64(last, r, n % WORD);
        k := h + q;
    }
  }

  lemma LastBlocks64(last: (seq<Byte>, nat) -> seq<Byte>, r: seq<Byte>, n: nat) returns (k: nat)
    requires WholeLast(last) && |r| < 64
    ensures |last(r, n)| == 64 * k
  {
    k := |last(r, n)| / 64;
  }

  /** What the stream is after the calls. */
  ghost function After<S>(f: (S, seq<Byte>) -> S, last: (seq<Byte>, nat) -> seq<Byte>, st: S,
                          inputs: seq<Input>): Md<S> {
    Md(Fold(f, st, Hashed(last, inputs)), Counted(inputs) % WORD, Remainder(Carried(inputs)))
  }

  lemma CountedData(front: seq<Input>, d: seq<Byte>, m: nat, w: nat, n: nat)
    requires m == Counted(front) && w == Whole(Carried(front)) && w + n == Whole(Carried(front) + d)
    ensures Counted(front + [Data(d)]) == m + n
  {
    CarriedGrows(front, Data(d));
    assert (front + [Data(d)])[..|front|] == front;
  }

  lemma DataParts(last: (seq<Byte>, nat) -> seq<Byte>, front: seq<Input>, d: seq<Byte>) returns (w: nat, n: nat)
    ensures var c := Carried(front);
            w == Whole(c) && n == Whole(c[w..] + d) && w + n <= |c + d| &&
            Hashed(last, front + [Data(d)]) == Hashed(last, front) + (c + d)[w..w + n] &&
            Remainder(Carried(front + [Data(d)])) == (c + d)[w + n..]
    ensures (Counted(front) % WORD + n) % WORD == Counted(front + [Data(d)]) % WORD
  {
    var c := Carried(front);
    w := Whole(c);
    n := Whole(c[w..] + d);
    WholeGrows(c, d, w);
    AfterData(last, front, c, d, w, w + n);
    CountedData(front, d, Counted(front), w, n);
    ModAdd(Counted(front), n, WORD);
  }

  lemma DataStep<S>(f: (S, seq<Byte>) -> S, last: (seq<Byte>, nat) -> seq<Byte>, st: S, front: seq<Input>, k: nat,
                    d: seq<Byte>)
    requires |Hashed(last, front)| == 64 * k
    ensures Absorb(f, After(f, last, st, front), d) == After(f, last, st, front + [Data(d)])
  {
    var c, mid := Carried(front), Fold(f, st, Hashed(last, front));
    var w, n := DataParts(last, front, d);
    AbsorbAfter(f, mid, Counted(front) % WORD, c, d, w, n);
    FoldMore(f, st, Hashed(last, front), k, (c + d)[w..w + n], mid);
  }

  lemma CountedNull(front: seq<Input>, n: nat, r: nat)
    requires n == Counted(front) && r == |Remainder(Carried(front))|
    ensures Counted(front + [NULL]) == n + r && Carried(front + [NULL]) == Carried(front)
  {
    CarriedGrows(front, NULL);
    assert (front + [NULL])[..|front|] == front;
  }

  lemma NullParts(last: (seq<Byte>, nat) -> seq<Byte>, front: seq<Input>) returns (r: seq<Byte>, t: nat)
    ensures r == Remainder(Carried(front)) == Remainder(Carried(front + [NULL]))
    ensures t == (Counted(front) % WORD + |r|) % WORD == Counted(front + [NULL]) % WORD
    ensures Hashed(last, front + [NULL]) == Hashed(last, front) + last(r, t)
  {
    var n := Counted(front);
    r := Remainder(Carried(front));
    t := (n + |r|) % WORD;
    CountedNull(front, n, |r|);
    ModAdd(n, |r|, WORD);
    HashedNull(last, front, r, n + |r|);
  }

  lemma NullStep<S>(f: (S, seq<Byte>) -> S, last: (seq<Byte>, nat) -> seq<Byte>, st: S, front: seq<Input>, k: nat)
    requires |Hashed(last, front)| == 64 * k
    ensures Finish(f, last, After(f, last, st, front)) == After(f, last, st, front + [NULL])
  {
    var mid := Fold(f, st, Hashed(last, front));
    var r, t := NullParts(last, front);
    FinishIs(f, last, Md(mid, Counted(front) % WORD, r), t, last(r, t));
    FoldMore(f, st, Hashed(last, front), k, last(r, t), mid);
  }

  /** Whatever calls there were, with data and with NULL in any order: the registers are the fold over one explicit
      string of bytes, the count is that of the calls, and what waits is the rest of the data. */
  lemma {:induction false} RunHashes<S>(f: (S, seq<Byte>) -> S, last: (seq<Byte>, nat) -> seq<Byte>, st: S,
                                        inputs: seq<Input>)
    requires WholeLast(last)
    ensures Run(f, last, Md(st, 0, []), inputs) == After(f, last, st, inputs)
    decreases |inputs|
  {
    if inputs != [] {
      var front, input := inputs[..|inputs| - 1], inputs[|inputs| - 1];
      assert inputs == front + [input];
      RunHashes(f, last, st, front);
      RunAppend(f, last, Md(st, 0, []), front, [input]);
      RunOne(f, last, After(f, last, st, front), input);
      var k := HashedBlocks(last, front);
      match input
      case Data(d) => DataStep(f, last, st, front, k, d);
      case NULL => NullStep(f, last, st, front, k);
    }
  }

  /** A stream that goes on after a NULL hashes the waiting bytes once more, in front of the new ones. */
  lemma Resumed<S>(f: (S, seq<Byte>) -> S, last: (seq<Byte>, nat) -> seq<Byte>, md: Md<S>, y: seq<Byte>)
    requires WholeLast(last) && |md.tail| < 64
    ensures var t, n := (md.total + |md.tail|) % WORD, Whole(md.tail + y);
            Absorb(f, Finish(f, last, md), y) ==
            Md(Fold(f, md.st, last(md.tail, t) + (md.tail + y)[..n]), (t + n) % WORD, (md.tail + y)[n..])
  {
    var t, n := (md.total + |md.tail|) % WORD, Whole(md.tail + y);
    FoldAppend(f, md.st, last(md.tail, t), (md.tail + y)[..n]);
  }

  /** The calls of a compilation that is hashed in unify mode: the text up to the end of the unified source, a NULL, the
      rest, and the NULL of the result. */
  lemma UnifyMode(last: (seq<Byte>, nat) -> seq<Byte>, a: seq<Byte>, b: seq<Byte>, w: nat, w': nat)
    requires w == Whole(a) && w' == Whole(a + b)
    ensures w <= w'
    ensures Hashed(last, [Data(a), NULL, Data(b), NULL]) ==
            a[..w] + last(a[w..], |a| % WORD) + (a + b)[w..w'] + last((a + b)[w'..], (|a[w..]| + |a + b|) % WORD)
  {
    var i2 := [Data(a), NULL];
    var i3 := i2 + [Data(b)];
    ToFirstNull(last, a, w);
    AfterData(last, i2, a, b, w, w');
    AfterNull(last, i3, a + b, (a + b)[w'..], |a[w..]| + |a + b|);
    assert i3 + [NULL] == [Data(a), NULL, Data(b), NULL];
  }

  lemma ToFirstNull(last: (seq<Byte>, nat) -> seq<Byte>, a: seq<Byte>, w: nat)
    requires w == Whole(a)
    ensures var i := [Data(a), NULL];
            Carried(i) == a && Extra(i) == |a[w..]| && Hashed(last, i) == a[..w] + last(a[w..], |a| % WORD)
  {
    var i1 := [] + [Data(a)];
    AfterData(last, [], [], a, 0, w);
    assert [] + a == a && a[0..w] == a[..w];
    AfterNull(last, i1, a, a[w..], |a|);
    assert i1 + [NULL] == [Data(a), NULL];
  }
}
