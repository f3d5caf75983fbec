/** unify.c on top of hash.c: what of a C source reaches the digest. */
module UnifyHash {
  import opened Blocks
  import opened Bytes
  import U = Unify
  import Scan = UnifyScan
  import Laws = UnifyLaws

  predicate IsBytes(s: string) {
    forall i :: 0 <= i < |s| ==> s[i] as int < 256
  }

  function BytesOf(s: string): (b: seq<Byte>)
    requires IsBytes(s)
    ensures |b| == |s|
  {
    seq(|s|, i requires 0 <= i < |s| => s[i] as int)
  }

  /** hash_buffer, call by call. */
  function Inputs(calls: seq<U.Call>): (inputs: seq<Input>)
    requires forall c | c in calls :: c.Data? ==> IsBytes(c.text)
    ensures |inputs| == |calls|
  {
    seq(|calls|, i requires 0 <= i < |calls| =>
      assert calls[i] in calls;
      if calls[i].Data? then Data(BytesOf(calls[i].text)) else NULL)
  }

  lemma {:induction false} SentIsBytes(calls: seq<U.Call>)
    requires IsBytes(U.Sent(calls))
    ensures forall c | c in calls :: c.Data? ==> IsBytes(c.text)
  {
    if calls != [] {
      var n := |calls| - 1;
      var front, text := U.Sent(calls[..n]), if calls[n].Data? then calls[n].text else "";
      assert U.Sent(calls) == front + text;
      assert forall i :: 0 <= i < |front| ==> front[i] == U.Sent(calls)[i];
      assert forall i :: 0 <= i < |text| ==> text[i] == U.Sent(calls)[|front| + i];
      SentIsBytes(calls[..n]);
      forall c | c in calls && c.Data? ensures IsBytes(c.text) {
        var i :| 0 <= i < |calls| && calls[i] == c;
        if i < n { assert calls[..n][i] in calls[..n]; }
      }
    }
  }

  lemma BytesAppend(s: string, t: string)
    requires IsBytes(s + t)
    ensures IsBytes(s) && IsBytes(t) && BytesOf(s + t) == BytesOf(s) + BytesOf(t)
  {
    assert forall i :: 0 <= i < |s| ==> s[i] == (s + t)[i];
    assert forall i :: 0 <= i < |t| ==> t[i] == (s + t)[|s| + i];
  }

  /** The calls carry the bytes of the text. */
  lemma {:induction false} CarriesSent(calls: seq<U.Call>)
    requires IsBytes(U.Sent(calls))
    ensures (forall c | c in calls :: c.Data? ==> IsBytes(c.text)) && Carried(Inputs(calls)) == BytesOf(U.Sent(calls))
  {
    SentIsBytes(calls);
    if calls != [] {
      var n := |calls| - 1;
      var call := calls[n];
      assert call in calls;
      BytesAppend(U.Sent(calls[..n]), if call.Data? then call.text else "");
      CarriesSent(calls[..n]);
      assert Inputs(calls) == Inputs(calls[..n]) + Inputs([call]);
      CarriedAppend(Inputs(calls[..n]), Inputs([call]));
      assert Inputs([call])[1..] == [];
    }
  }

  /** A run of unify, whatever was hashed before: the text in one call, and the end of the stream. */
  lemma HashOfText<S>(f: (S, seq<Byte>) -> S, last: (seq<Byte>, nat) -> seq<Byte>, md: Md<S>, sent: seq<U.Call>)
    requires md.total < WORD && |md.tail| < 64 && U.AllData(sent) && IsBytes(U.Sent(sent))
    ensures forall c | c in sent + [U.Finish] :: c.Data? ==> IsBytes(c.text)
    ensures Run(f, last, md, Inputs(sent + [U.Finish])) == Run(f, last, md, [Data(BytesOf(U.Sent(sent))), NULL])
  {
    CarriesSent(sent);
    assert Inputs(sent + [U.Finish]) == Inputs(sent) + [NULL];
    DataThenNull(f, last, md, Inputs(sent), BytesOf(U.Sent(sent)));
  }

  lemma DataThenNull<S>(f: (S, seq<Byte>) -> S, last: (seq<Byte>, nat) -> seq<Byte>, md: Md<S>, data: seq<Input>,
                        text: seq<Byte>)
    requires md.total < WORD && |md.tail| < 64 && (forall i | i in data :: i.Data?) && text == Carried(data)
    ensures Run(f, last, md, data + [NULL]) == Run(f, last, md, [Data(text), NULL])
  {
    RunAppend(f, last, md, data, [NULL]);
    RunData(f, last, md, data);
    assert [Data(text), NULL] == [Data(text)] + [NULL];
    RunAppend(f, last, md, [Data(text)], [NULL]);
    RunOne(f, last, md, Data(text));
  }

  /** Two sources with one normal form leave the same hash, so whatever is hashed afterwards the digests agree. */
  lemma SameTextSameHash<S>(f: (S, seq<Byte>) -> S, last: (seq<Byte>, nat) -> seq<Byte>, md: Md<S>,
                            p: string, q: string, sentP: seq<U.Call>, sentQ: seq<U.Call>)
    requires md.total < WORD && |md.tail| < 64 && U.AllData(sentP) && U.AllData(sentQ)
    requires Scan.Terminated(p) && Scan.Terminated(q) && Scan.Unify(p) == Scan.Unify(q)
    requires U.Sent(sentP) == Scan.Unify(p) && U.Sent(sentQ) == Scan.Unify(q) && IsBytes(Scan.Unify(p))
    ensures forall c | c in sentP + sentQ + [U.Finish] :: c.Data? ==> IsBytes(c.text)
    ensures Run(f, last, md, Inputs(sentP + [U.Finish])) == Run(f, last, md, Inputs(sentQ + [U.Finish]))
  {
    HashOfText(f, last, md, sentP);
    HashOfText(f, last, md, sentQ);
    SentIsBytes(sentP);
    SentIsBytes(sentQ);
  }

  /** Changing the layout of a source (one blank run for another) does not change its hash. */
  lemma LayoutKeepsHash<S>(f: (S, seq<Byte>) -> S, last: (seq<Byte>, nat) -> seq<Byte>, md: Md<S>,
                           a: string, v: string, w: string, b: string, sentV: seq<U.Call>, sentW: seq<U.Call>)
    requires md.total < WORD && |md.tail| < 64 && U.AllData(sentV) && U.AllData(sentW)
    requires Laws.IsBlank(v) && Laws.IsBlank(w)
    requires Scan.Terminated(a + (v + b)) && Laws.Reaches(a + (v + b), |a|) && Scan.Terminated(a + (w + b))
    requires U.Sent(sentV) == Scan.Unify(a + (v + b)) && IsBytes(U.Sent(sentV)) &&
             U.Sent(sentW) == Scan.Unify(a + (w + b))
    ensures forall c | c in sentV + sentW + [U.Finish] :: c.Data? ==> IsBytes(c.text)
    ensures Run(f, last, md, Inputs(sentV + [U.Finish])) == Run(f, last, md, Inputs(sentW + [U.Finish]))
  {
    Laws.LayoutFolds(a, v, w, b);
    SameTextSameHash(f, last, md, a + (v + b), a + (w + b), sentV, sentW);
  }
}
