/** Which runs of mdfour.c hash what RFC 1320 asks for: the data and its padding. */
module PaddedRuns {
  import opened Blocks
  import opened BlocksRuns
  import opened Bytes
  import opened Padding

  /** How often the stream was finished. */
  function Nulls(inputs: seq<Input>): nat {
    if inputs == [] then 0
    else Nulls(inputs[..|inputs| - 1]) + if inputs[|inputs| - 1].Data? then 0 else 1
  }

  lemma NullsStep(front: seq<Input>, input: Input)
    ensures Nulls(front + [input]) == Nulls(front) + if input.Data? then 0 else 1
  {
    assert (front + [input])[..|front|] == front;
  }

  /** Each NULL has hashed at least one block, in addition to the whole blocks of the data. */
  lemma {:induction false} HashedLength(inputs: seq<Input>)
    ensures |Hashed(TailBlocks, inputs)| >= Whole(Carried(inputs)) + 64 * Nulls(inputs)
    decreases |inputs|
  {
    if inputs != [] {
      var front, input := inputs[..|inputs| - 1], inputs[|inputs| - 1];
      assert inputs == front + [input];
      var c := Carried(front);
      HashedLength(front);
      NullsStep(front, input);
      match input
      case Data(d) => AfterData(TailBlocks, front, c, d, Whole(c), Whole(c + d));
      case NULL => AfterNull(TailBlocks, front, c, Remainder(c), Whole(c) + Extra(front) + |Remainder(c)|);
    }
  }

  /** Without a NULL just the whole blocks of the data are hashed. */
  lemma {:induction false} HashedData(inputs: seq<Input>)
    requires Nulls(inputs) == 0
    ensures Extra(inputs) == 0 && Hashed(TailBlocks, inputs) == Carried(inputs)[..Whole(Carried(inputs))]
    decreases |inputs|
  {
    if inputs != [] {
      var front, input := inputs[..|inputs| - 1], inputs[|inputs| - 1];
      assert inputs == front + [input];
      var c := Carried(front);
      NullsStep(front, input);
      HashedData(front);
      var d := input.data;
      AfterData(TailBlocks, front, c, d, Whole(c), Whole(c + d));
      PrefixGrows(c, d, Whole(c), Whole(c + d));
    }
  }

  lemma PrefixGrows(c: seq<Byte>, d: seq<Byte>, w: nat, w': nat)
    requires w <= |c| && w <= w' <= |c + d|
    ensures c[..w] + (c + d)[w..w'] == (c + d)[..w']
  {
  }

  /** What the last NULL adds is as long as the rest of the data and its padding. */
  lemma PaddedLength(c: seq<Byte>, n: nat)
    ensures |c + Pad(|c|)| == Whole(c) + |TailBlocks(Remainder(c), n)|
  {
    GapFills(|c|);
  }

  lemma SameEnd(c: seq<Byte>, w: nat, b: seq<Byte>, p: seq<Byte>)
    requires w <= |c|
    ensures c[..w] + b == c + p <==> b == c[w..] + p
  {
    Cancel(c[..w], b, c[w..] + p);
    assert c[..w] + (c[w..] + p) == c + p;
  }

  lemma FirstNull(front: seq<Input>, c: seq<Byte>)
    requires Nulls(front) == 0 && c == Carried(front)
    ensures Hashed(TailBlocks, front + [NULL]) == c + Pad(|c|) <==> HighWord(|c|) == 0
  {
    HashedData(front);
    var b := NullAdds(TailBlocks, front, |c|);
    TailIsPadding(Remainder(c), |c|);
    SameEnd(c, Whole(c), b, Pad(|c|));
  }

  lemma LaterNull(front: seq<Input>, c: seq<Byte>)
    requires Nulls(front) > 0 && c == Carried(front)
    ensures |Hashed(TailBlocks, front + [NULL])| > |c + Pad(|c|)|
  {
    var n := Whole(c) + Extra(front) + |Remainder(c)|;
    HashedLength(front);
    var b := NullAdds(TailBlocks, front, n);
    PaddedLength(c, n % WORD);
  }

  /** A stream that ends with a NULL has hashed its data and the padding of RFC 1320 if and only if this is its first
      NULL and the bit count of the data has no high word. */
  lemma Exactly(front: seq<Input>)
    ensures var c := Carried(front);
            Hashed(TailBlocks, front + [NULL]) == c + Pad(|c|) <==> Nulls(front) == 0 && HighWord(|c|) == 0
  {
    if Nulls(front) == 0 {
      FirstNull(front, Carried(front));
    } else {
      LaterNull(front, Carried(front));
    }
  }

  lemma TextAndRest(a: seq<Byte>, b: seq<Byte>, run: seq<Input>)
    requires run == [Data(a), NULL, Data(b)]
    ensures Carried(run) == a + b && Nulls(run) == 1
  {
    var one, two := [] + [Data(a)], [Data(a), NULL];
    assert one + [NULL] == two && two + [Data(b)] == run;
    NullsStep([], Data(a));
    NullsStep(one, NULL);
    NullsStep(two, Data(b));
    CarriedGrows([], Data(a));
    CarriedGrows(one, NULL);
    CarriedGrows(two, Data(b));
  }

  /** In unify mode it never has, whatever the text and the rest are. */
  lemma UnifyModeIsNotPadded(a: seq<Byte>, b: seq<Byte>)
    ensures Hashed(TailBlocks, [Data(a), NULL, Data(b), NULL]) != a + b + Pad(|a + b|)
  {
    var run := [Data(a), NULL, Data(b)];
    TextAndRest(a, b, run);
    Exactly(run);
    assert run + [NULL] == [Data(a), NULL, Data(b), NULL];
  }
}
