/** The scanner of unify.c takes the first operator of its list that matches: when is that the longest one? */
module UnifyLongest {
  import opened UnifyText

  /** `t` is the longest operator that `p` begins with, or "" when `p` begins with none. */
  ghost predicate IsLongest(p: string, t: string) {
    && (t == "" || (t in TOKENS && t <= p))
    && forall u | u in TOKENS && u <= p :: |u| <= |t|
  }

  predicate NonEmpty(ts: seq<string>) {
    forall i :: 0 <= i < |ts| ==> |ts[i]| > 0
  }

  lemma {:induction false} FirstMatchAppend(a: seq<string>, b: seq<string>, p: string)
    requires NonEmpty(a)
    ensures FirstMatch(a + b, p) == if FirstMatch(a, p) != "" then FirstMatch(a, p) else FirstMatch(b, p)
    decreases |a|
  {
    if a == [] {
      assert a + b == b;
    } else {
      assert (a + b)[0] == a[0] && (a + b)[1..] == a[1..] + b;
      FirstMatchAppend(a[1..], b, p);
    }
  }

  lemma {:induction false} FirstMatchFinds(ts: seq<string>, p: string, u: string)
    requires NonEmpty(ts) && u in ts && u <= p
    ensures FirstMatch(ts, p) != ""
  {
    if !(ts[0] <= p) { FirstMatchFinds(ts[1..], p, u); }
  }

  lemma {:induction false} OperatorsOf(ts: seq<string>, p: string)
    requires p != "" && NonEmpty(ts)
    ensures FirstMatch(Operators(ts, p[0]), p) == FirstMatch(ts, p)
  {
    if ts != [] {
      var rest := Operators(ts[1..], p[0]);
      OperatorsOf(ts[1..], p);
      assert ([ts[0]] + rest)[1..] == rest;
    }
  }

  // ---------- the list in pieces: length 3, length 2, the mixed part, and length 1 ----------

  const THREE: seq<string> := ["...", ">>=", "<<="]
  const TWO1: seq<string> := ["+=", "-=", "*=", "/=", "%=", "&=", "^="]
  const TWO3: seq<string> := ["==", "!="]
  const MIXED3: seq<string> := [";", "{", "<%", "}", "%>", ",", ":", "="]

  /** An operator of the mixed part has one or two characters; one of two characters begins like no other operator of
      that part, except that ":>" begins with ":". */
  predicate Mixed(t: string) {
    (|t| == 1 && t != "<" && t != "%") || t == "<%" || t == "%>" || t == "<:" || t == ":>"
  }

  /** Operators of `n` characters that do not begin with ":". */
  ghost predicate AllOf(ts: seq<string>, n: nat) {
    n > 0 && forall t | t in ts :: |t| == n && t[0] != ':'
  }

  ghost predicate AllMixed(ts: seq<string>) {
    forall t | t in ts :: Mixed(t)
  }

  lemma {:induction false} AllNonEmpty(ts: seq<string>, n: nat)
    requires AllOf(ts, n) || AllMixed(ts)
    ensures NonEmpty(ts)
  {
    forall i | 0 <= i < |ts| ensures |ts[i]| > 0 { assert ts[i] in ts; }
  }

  lemma AllOf3()
    ensures AllOf(THREE, 3)
  {
    forall t | t in THREE ensures |t| == 3 && t[0] != ':' {
      assert t == "..." || t == ">>=" || t == "<<=";
    }
  }

  lemma AllOf2()
    ensures AllOf(TWO1, 2) && AllOf(TWO3, 2)
  {
    forall t | t in TWO1 ensures |t| == 2 && t[0] != ':' {
      assert t == "+=" || t == "-=" || t == "*=" || t == "/=" || t == "%=" || t == "&=" || t == "^=";
    }
    forall t | t in TWO3 ensures |t| == 2 && t[0] != ':' {
      assert t == "==" || t == "!=";
    }
  }

  lemma Row2AllOf2()
    ensures AllOf(ROW2, 2)
  {
    forall t | t in ROW2 ensures |t| == 2 && t[0] != ':' {
      assert t == "|=" || t == ">>" || t == "<<" || t == "++" || t == "--" || t == "->" || t == "&&" || t == "||" ||
             t == "<=" || t == ">=";
    }
  }

  lemma Row5AllOf1()
    ensures AllOf(ROW5, 1)
  {
    forall t | t in ROW5 ensures |t| == 1 && t[0] != ':' {
      assert t == "-" || t == "+" || t == "*" || t == "/" || t == "%" || t == "<" || t == ">" || t == "^" || t == "|" ||
             t == "?";
    }
  }

  lemma Mixed3()
    ensures AllMixed(MIXED3) && ":" in MIXED3 && ":>" !in MIXED3
  {
    forall t | t in MIXED3 ensures Mixed(t) && t != ":>" {
      assert t == ";" || t == "{" || t == "<%" || t == "}" || t == "%>" || t == "," || t == ":" || t == "=";
    }
    assert MIXED3[6] == ":";
  }

  lemma Mixed4()
    ensures AllMixed(ROW4) && ":>" in ROW4
  {
    forall t | t in ROW4 ensures Mixed(t) {
      assert t == "(" || t == ")" || t == "[" || t == "<:" || t == "]" || t == ":>" || t == "." || t == "&" ||
             t == "!" || t == "~";
    }
    assert ROW4[5] == ":>";
  }

  lemma Regroup(a: seq<string>, b: seq<string>, c: seq<string>, d: seq<string>, e: seq<string>, f: seq<string>,
                g: seq<string>)
    ensures (a + b) + c + (d + e) + f + g == a + (b + c + d) + (e + f) + g
  {
  }

  /** The parts of the list. */
  lemma Parts() returns (a: seq<string>, b: seq<string>, m: seq<string>, m': seq<string>, r: seq<string>)
    ensures TOKENS == a + b + (m + m') + r && AllOf(a, 3) && AllOf(b, 2) && AllOf(r, 1)
    ensures AllMixed(m) && AllMixed(m') && ":" in m && ":>" !in m && ":>" in m'
  {
    AllOf3();
    AllOf2();
    Row2AllOf2();
    Row5AllOf1();
    Mixed3();
    Mixed4();
    a, b, m, m', r := THREE, TWO1 + ROW2 + TWO3, MIXED3, ROW4, ROW5;
    Rows();
    Regroup(THREE, TWO1, ROW2, TWO3, MIXED3, ROW4, ROW5);
  }

  lemma Rows()
    ensures ROW1 == THREE + TWO1 && ROW3 == TWO3 + MIXED3
  {
  }

  // ---------- the first match against the longest ----------

  lemma FirstOfFour(a: seq<string>, b: seq<string>, m: seq<string>, r: seq<string>, p: string)
    requires NonEmpty(a) && NonEmpty(b) && NonEmpty(m) && NonEmpty(r)
    ensures FirstMatch(a + b + m + r, p) ==
            if FirstMatch(a, p) != "" then FirstMatch(a, p)
            else if FirstMatch(b, p) != "" then FirstMatch(b, p)
            else if FirstMatch(m, p) != "" then FirstMatch(m, p)
            else FirstMatch(r, p)
  {
    FirstMatchAppend(a + b + m, r, p);
    FirstMatchAppend(a + b, m, p);
    FirstMatchAppend(a, b, p);
  }

  /** Two prefixes of one text: the shorter is a prefix of the longer. */
  lemma Prefixes(p: string, t: string, u: string)
    requires t <= p && u <= p && |t| <= |u|
    ensures t <= u
  {
    assert u[..|t|] == p[..|t|];
  }

  /** In the mixed part only ":" hides a longer operator. */
  lemma MixedClash(p: string, t: string, u: string)
    requires Mixed(t) && Mixed(u) && t <= p && u <= p && |t| < |u|
    ensures t == ":" && u == ":>"
  {
    Prefixes(p, t, u);
    assert t[0] == u[0] && t == [t[0]];
  }

  lemma NoneLonger(a: seq<string>, b: seq<string>, m: seq<string>, r: seq<string>, p: string, u: string)
    requires AllOf(a, 3) && AllOf(b, 2) && AllMixed(m) && AllOf(r, 1)
    requires u in a + b + m + r && u <= p
    ensures var t := FirstMatch(a + b + m + r, p); |u| <= |t| || (t == ":" && u == ":>")
  {
    AllNonEmpty(a, 3);
    AllNonEmpty(b, 2);
    AllNonEmpty(m, 1);
    AllNonEmpty(r, 1);
    FirstOfFour(a, b, m, r, p);
    FirstMatchOf(a, p);
    FirstMatchOf(b, p);
    FirstMatchOf(m, p);
    FirstMatchOf(r, p);
    if u in a { FirstMatchFinds(a, p, u); }
    if u in b { FirstMatchFinds(b, p, u); }
    if u in m { FirstMatchFinds(m, p, u); }
    if u in r { FirstMatchFinds(r, p, u); }
    var t := FirstMatch(m, p);
    if t != "" && u in m && |t| < |u| { MixedClash(p, t, u); }
  }

  lemma OperatorIs(p: string)
    requires p != ""
    ensures Operator(p) == FirstMatch(TOKENS, p)
  {
    TokensClean();
    forall i | 0 <= i < |TOKENS| ensures |TOKENS[i]| > 0 { assert Clean(TOKENS[i]); }
    OperatorsOf(TOKENS, p);
  }

  lemma ColonFirst(a: seq<string>, b: seq<string>, m: seq<string>, m': seq<string>, r: seq<string>, p: string)
    requires AllOf(a, 3) && AllOf(b, 2) && AllOf(r, 1) && AllMixed(m) && AllMixed(m')
    requires ":" in m && ":>" !in m && ":>" <= p
    ensures FirstMatch(a + b + (m + m') + r, p) == ":"
  {
    AllNonEmpty(a, 3);
    AllNonEmpty(b, 2);
    AllNonEmpty(m, 1);
    AllNonEmpty(m', 1);
    AllNonEmpty(r, 1);
    assert p[0] == ':';
    FirstOfFour(a, b, m + m', r, p);
    FirstMatchOf(a, p);
    FirstMatchOf(b, p);
    FirstMatchAppend(m, m', p);
    FirstMatchFinds(m, p, ":");
    FirstMatchOf(m, p);
    var t := FirstMatch(m, p);
    assert Mixed(t) && t[0] == ':';
    assert |t| == 1 ==> t == [t[0]];
  }

  /** The digraph ":>" is read as the operator ":", although it is in the list. */
  lemma ColonWins(p: string)
    requires ":>" <= p
    ensures Operator(p) == ":" && ":>" in TOKENS
  {
    OperatorIs(p);
    var a, b, m, m', r := Parts();
    ColonFirst(a, b, m, m', r, p);
  }

  /** The scanner takes the longest operator exactly when the text does not begin with ":>". */
  lemma LongestOperator(p: string)
    requires p != ""
    ensures IsLongest(p, Operator(p)) <==> !(":>" <= p)
  {
    OperatorIs(p);
    FirstMatchOf(TOKENS, p);
    if ":>" <= p {
      ColonWins(p);
      assert |":>"| > |Operator(p)|;
    } else {
      var a, b, m, m', r := Parts();
      forall u | u in TOKENS && u <= p ensures |u| <= |Operator(p)| {
        NoneLonger(a, b, m + m', r, p, u);
      }
    }
  }
}
