/** Hashing a byte stream in blocks of 64, for any way to hash one block. */
module Blocks {
  import opened Bytes
  import opened Division

  /** The state after the whole blocks of `b`. */
  function Fold<S>(f: (S, seq<Byte>) -> S, st: S, b: seq<Byte>): S
    decreases |b|
  {
    if |b| < 64 then st else Fold(f, f(st, b[..64]), b[64..])
  }

  const WORD: int := 0x1_0000_0000

  /** A stream: the state after the whole blocks, the number of bytes in them (a 32-bit word), and the bytes that
      wait for the rest of their block. */
  datatype Md<S> = Md(st: S, total: nat, tail: seq<Byte>)

  /** The bytes of `b` that fill whole blocks. */
  function Whole(b: seq<Byte>): (n: nat)
    ensures n % 64 == 0 && |b| - 63 <= n <= |b|
  {
    |b| - |b| % 64
  }

  /** mdfour_update with data. */
  function Absorb<S>(f: (S, seq<Byte>) -> S, md: Md<S>, data: seq<Byte>): (r: Md<S>)
    ensures |r.tail| < 64
  {
    var b := md.tail + data;
    var n := Whole(b);
    Md(Fold(f, md.st, b[..n]), (md.total + n) % WORD, b[n..])
  }

  lemma {:induction false} FoldAppend<S>(f: (S, seq<Byte>) -> S, st: S, a: seq<Byte>, b: seq<Byte>)
    requires |a| % 64 == 0
    ensures Fold(f, st, a + b) == Fold(f, Fold(f, st, a), b)
    decreases |a|
  {
    if a == [] {
      assert a + b == b;
    } else {
      assert (a + b)[..64] == a[..64] && (a + b)[64..] == a[64..] + b;
      FoldAppend(f, f(st, a[..64]), a[64..], b);
    }
  }

  lemma WholeAdd(n: nat, rest: nat, more: nat, m: nat)
    requires n % 64 == 0 && m % 64 == 0 && m <= rest + more < m + 64
    ensures n + m == n + rest + more - (n + rest + more) % 64
  {
  }

  lemma TotalAdd(t: nat, n: nat, m: nat)
    ensures ((t + n) % WORD + m) % WORD == (t + (n + m)) % WORD
  {
    ModAdd(t + n, m, WORD);
  }

  lemma FoldTwice<S>(f: (S, seq<Byte>) -> S, st: S, b: seq<Byte>, y: seq<Byte>, n: nat, m: nat)
    requires n % 64 == 0 && n <= |b| && m <= |b[n..] + y|
    ensures Fold(f, Fold(f, st, b[..n]), (b[n..] + y)[..m]) == Fold(f, st, (b + y)[..n + m])
    ensures (b[n..] + y)[m..] == (b + y)[n + m..]
  {
    FoldAppend(f, st, b[..n], (b[n..] + y)[..m]);
    assert b[..n] + (b[n..] + y)[..m] == (b + y)[..n + m];
  }

  /** How the data is cut into calls does not matter. */
  lemma AbsorbAppend<S>(f: (S, seq<Byte>) -> S, md: Md<S>, x: seq<Byte>, y: seq<Byte>)
    ensures Absorb(f, Absorb(f, md, x), y) == Absorb(f, md, x + y)
  {
    var b := md.tail + x;
    var n := Whole(b);
    var m := Whole(b[n..] + y);
    assert md.tail + (x + y) == b + y;
    WholeAdd(n, |b[n..]|, |y|, m);
    TotalAdd(md.total, n, m);
    FoldTwice(f, md.st, b, y, n, m);
  }

  lemma AbsorbShort<S>(f: (S, seq<Byte>) -> S, md: Md<S>, d: seq<Byte>)
    requires |md.tail| + |d| < 64 && md.total < WORD
    ensures Absorb(f, md, d) == md.(tail := md.tail + d)
  {
    var b := md.tail + d;
    assert Whole(b) == 0 && b[..0] == [] && b[0..] == b;
  }

  lemma AbsorbBlock<S>(f: (S, seq<Byte>) -> S, md: Md<S>, d: seq<Byte>)
    requires |md.tail| + |d| == 64
    ensures Absorb(f, md, d) == Md(f(md.st, md.tail + d), (md.total + 64) % WORD, [])
  {
    var b := md.tail + d;
    assert Whole(b) == 64 && b[..64] == b && b[64..] == [];
    assert Fold(f, md.st, b) == Fold(f, f(md.st, b[..64]), b[64..]);
  }

  lemma FoldTwo<S>(f: (S, seq<Byte>) -> S, st: S, b: seq<Byte>)
    requires |b| == 128
    ensures Fold(f, st, b[..64]) == f(st, b[..64])
    ensures Fold(f, st, b) == f(f(st, b[..64]), b[64..])
  {
    assert b[..64][..64] == b[..64] && b[64..][..64] == b[64..];
    assert Fold(f, f(st, b[..64]), b[64..]) == Fold(f, f(f(st, b[..64]), b[64..]), b[64..][64..]);
    assert Fold(f, st, b[..64]) == Fold(f, f(st, b[..64][..64]), b[..64][64..]);
  }

  /** What is left of the data goes on from where its start has led. */
  lemma TakeRest<S>(f: (S, seq<Byte>) -> S, md: Md<S>, md': Md<S>, data: seq<Byte>, len: nat)
    requires len <= |data| && md' == Absorb(f, md, data[..len])
    ensures Absorb(f, md', data[len..]) == Absorb(f, md, data)
  {
    AbsorbAppend(f, md, data[..len], data[len..]);
    assert data[..len] + data[len..] == data;
  }

  lemma AbsorbRest<S>(f: (S, seq<Byte>) -> S, md: Md<S>, md': Md<S>, data: seq<Byte>, done: nat)
    requires done <= |data| && md' == Absorb(f, md, data[..done]) && md'.total < WORD
    requires |md'.tail| + |data| - done < 64
    ensures Absorb(f, md, data) == md'.(tail := md'.tail + data[done..])
  {
    AbsorbAppend(f, md, data[..done], data[done..]);
    assert data[..done] + data[done..] == data;
    AbsorbShort(f, md', data[done..]);
  }

  /** mdfour_update with NULL: the last blocks are hashed, but the bytes that wait stay where they are. */
  function Finish<S>(f: (S, seq<Byte>) -> S, last: (seq<Byte>, nat) -> seq<Byte>, md: Md<S>): Md<S> {
    var total := (md.total + |md.tail|) % WORD;
    Md(Fold(f, md.st, last(md.tail, total)), total, md.tail)
  }

  lemma WholeRest(n: nat, rest: nat, total: nat)
    requires n + rest == total && n % 64 == 0 && rest < 64
    ensures (n % WORD + rest) % WORD == total % WORD && rest == total % 64
  {
    DivMod(total, 64, n / 64, rest);
    ModAdd(n, rest, WORD);
  }

  lemma LastBlocks<S>(f: (S, seq<Byte>) -> S, st: S, msg: seq<Byte>, pad: seq<Byte>, n: nat)
    requires n % 64 == 0 && n <= |msg|
    ensures Fold(f, Fold(f, st, msg[..n]), msg[n..] + pad) == Fold(f, st, msg + pad)
  {
    assert msg[..n] + (msg[n..] + pad) == msg + pad;
    FoldAppend(f, st, msg[..n], msg[n..] + pad);
  }

  /** A stream that ends with the bytes that wait and a padding has hashed the message and the padding. */
  lemma StreamIsPadded<S>(f: (S, seq<Byte>) -> S, last: (seq<Byte>, nat) -> seq<Byte>, st: S, msg: seq<Byte>,
                          pad: seq<Byte>)
    requires var n := Whole(msg); last(msg[n..], |msg| % WORD) == msg[n..] + pad
    ensures Finish(f, last, Absorb(f, Md(st, 0, []), msg)) ==
            Md(Fold(f, st, msg + pad), |msg| % WORD, msg[Whole(msg)..])
  {
    var n := Whole(msg);
    assert [] + msg == msg;
    WholeRest(n, |msg[n..]|, |msg|);
    LastBlocks(f, st, msg, pad, n);
  }

  // ---------- whole runs ----------

  /** What an update is called with. */
  datatype Input = NULL | Data(data: seq<Byte>)

  /** One call of mdfour_update. */
  function Updated<S>(f: (S, seq<Byte>) -> S, last: (seq<Byte>, nat) -> seq<Byte>, md: Md<S>, input: Input): Md<S> {
    match input
    case NULL => Finish(f, last, md)
    case Data(data) => Absorb(f, md, data)
  }

  /** A run of calls. */
  function Run<S>(f: (S, seq<Byte>) -> S, last: (seq<Byte>, nat) -> seq<Byte>, md: Md<S>, inputs: seq<Input>): Md<S>
    decreases |inputs|
  {
    if inputs == [] then md else Run(f, last, Updated(f, last, md, inputs[0]), inputs[1..])
  }

  /** The bytes that the calls with data carry. */
  function Carried(inputs: seq<Input>): seq<Byte> {
    if inputs == [] then [] else (if inputs[0].Data? then inputs[0].data else []) + Carried(inputs[1..])
  }

  lemma {:induction false} CarriedAppend(a: seq<Input>, b: seq<Input>)
    ensures Carried(a + b) == Carried(a) + Carried(b)
    decreases |a|
  {
    if a == [] {
      assert a + b == b;
    } else {
      assert (a + b)[0] == a[0] && (a + b)[1..] == a[1..] + b;
      CarriedAppend(a[1..], b);
    }
  }

  lemma {:induction false} RunAppend<S>(f: (S, seq<Byte>) -> S, last: (seq<Byte>, nat) -> seq<Byte>, md: Md<S>,
                                        a: seq<Input>, b: seq<Input>)
    ensures Run(f, last, md, a + b) == Run(f, last, Run(f, last, md, a), b)
    decreases |a|
  {
    if a == [] {
      assert a + b == b;
    } else {
      assert (a + b)[0] == a[0] && (a + b)[1..] == a[1..] + b;
      RunAppend(f, last, Updated(f, last, md, a[0]), a[1..], b);
    }
  }

  lemma RunOne<S>(f: (S, seq<Byte>) -> S, last: (seq<Byte>, nat) -> seq<Byte>, md: Md<S>, input: Input)
    ensures Run(f, last, md, [input]) == Updated(f, last, md, input)
  {
    assert [input][1..] == [];
  }

  /** A run of calls with data is one call with all of it. */
  lemma {:induction false} RunData<S>(f: (S, seq<Byte>) -> S, last: (seq<Byte>, nat) -> seq<Byte>, md: Md<S>,
                                      inputs: seq<Input>)
    requires md.total < WORD && |md.tail| < 64
    requires forall i | i in inputs :: i.Data?
    ensures Run(f, last, md, inputs) == Absorb(f, md, Carried(inputs))
    decreases |inputs|
  {
    if inputs == [] {
      AbsorbShort(f, md, []);
    } else {
      var next := Absorb(f, md, inputs[0].data);
      RunData(f, last, next, inputs[1..]);
      AbsorbAppend(f, md, inputs[0].data, Carried(inputs[1..]));
    }
  }
}
