/** The laws of unification: a token is scanned without looking past a blank or a directive, unified text is
    its own unification, layout and line markers do not matter, and no other character is lost or moved. */
module UnifyLaws {
  import opened UnifyText
  import opened UnifyScan

  // ---------- scanning is local ----------

  /** White space and directives end every token. */
  predicate Stops(w: string) {
    w != "" && (IsSpace(w[0]) || w[0] == '#')
  }

  lemma {:induction false} RunIs(p: string, f: Class, n: nat)
    requires n <= |p| && (forall i :: 0 <= i < n ==> In(f, p[i])) && (n < |p| ==> !In(f, p[n]))
    ensures Run(p, f) == n
  {
    if n > 0 { RunIs(p[1..], f, n - 1); }
  }

  lemma RunLocal(a: string, v: string, w: string, f: Class)
    requires Run(a + v, f) <= |a| && (Run(a + v, f) == |a| ==> w == "" || !In(f, w[0]))
    ensures Run(a + w, f) == Run(a + v, f)
  {
    var n := Run(a + v, f);
    assert forall i :: 0 <= i < n ==> (a + w)[i] == (a + v)[i];
    assert n < |a| ==> (a + w)[n] == (a + v)[n];
    RunIs(a + w, f, n);
  }

  lemma RunFrom(a: string, v: string, w: string, f: Class, i: nat)
    requires i <= |a| && i + Run((a + v)[i..], f) <= |a| && w != "" && !In(f, w[0])
    ensures Run((a + w)[i..], f) == Run((a + v)[i..], f)
  {
    assert (a + v)[i..] == a[i..] + v && (a + w)[i..] == a[i..] + w;
    RunLocal(a[i..], v, w, f);
  }

  lemma HexLocal(a: string, v: string, w: string, i: nat)
    requires i <= |a| && HexEnd(a + v, i) <= |a| && Stops(w)
    ensures HexEnd(a + w, i) == HexEnd(a + v, i)
  {
    if i < |a| {
      assert (a + v)[i] == (a + w)[i];
      if a[i] == 'x' || a[i] == 'X' { RunFrom(a, v, w, HexDigits, i + 1); }
    } else {
      assert (a + w)[i] == w[0];
    }
  }

  lemma ExponentLocal(a: string, v: string, w: string, i: nat)
    requires i <= |a| && ExponentEnd(a + v, i) <= |a| && Stops(w)
    ensures ExponentEnd(a + w, i) == ExponentEnd(a + v, i)
  {
    if i < |a| {
      assert (a + v)[i] == (a + w)[i];
      if a[i] == 'E' || a[i] == 'e' { RunFrom(a, v, w, Exponent, i + 1); }
    } else {
      assert (a + w)[i] == w[0];
    }
  }

  lemma TailLocal(a: string, v: string, w: string, i: nat)
    requires i <= |a| && SuffixEnd(a + v, ExponentEnd(a + v, HexEnd(a + v, i))) <= |a| && Stops(w)
    ensures SuffixEnd(a + w, ExponentEnd(a + w, HexEnd(a + w, i))) ==
            SuffixEnd(a + v, ExponentEnd(a + v, HexEnd(a + v, i)))
  {
    var j := HexEnd(a + v, i);
    var k := ExponentEnd(a + v, j);
    HexLocal(a, v, w, i);
    ExponentLocal(a, v, w, j);
    RunFrom(a, v, w, Suffix, k);
  }

  lemma NumberLocal(a: string, v: string, w: string)
    requires NumberLen(a + v) <= |a| && Stops(w)
    ensures NumberLen(a + w) == NumberLen(a + v)
  {
    var i := Run(a + v, Digits);
    RunLocal(a, v, w, Digits);
    TailLocal(a, v, w, i);
  }

  lemma {:induction false} QuoteLocal(a: string, v: string, w: string, q: char)
    requires 0 <= QuoteEnd(a + v, q) < |a|
    ensures QuoteEnd(a + w, q) == QuoteEnd(a + v, q)
  {
    var p := a + v;
    assert p[0] == a[0] == (a + w)[0];
    if a[0] == '\\' {
      assert p[2..] == a[2..] + v && (a + w)[2..] == a[2..] + w;
      QuoteLocal(a[2..], v, w, q);
    } else if a[0] != q {
      assert p[1..] == a[1..] + v && (a + w)[1..] == a[1..] + w;
      QuoteLocal(a[1..], v, w, q);
    }
  }

  lemma PrefixGrows(t: string, a: string, v: string)
    requires t <= a
    ensures t <= a + v
  {
    assert t == a[..|t|] == (a + v)[..|t|];
  }

  lemma {:induction false} MatchLocal(ts: seq<string>, a: string, v: string, w: string)
    requires (forall t :: t in ts ==> Clean(t)) && Stops(w) && |FirstMatch(ts, a + v)| <= |a|
    ensures FirstMatch(ts, a + w) == FirstMatch(ts, a + v)
  {
    if ts != [] {
      var t := ts[0];
      PrefixLocal(t, a, w);
      if t <= a { PrefixGrows(t, a, v); }
      if t <= a + v {
        assert t == (a + v)[..|t|] == a[..|t|];
      } else {
        MatchLocal(ts[1..], a, v, w);
      }
    }
  }

  lemma TokenLocal(a: string, v: string, w: string)
    requires a != "" && Closed(a + v) && a[0] != '#' && !IsSpace(a[0]) && TokenLen(a + v) <= |a| && Stops(w)
    ensures Closed(a + w) && TokenLen(a + w) == TokenLen(a + v)
  {
    var p := a + v;
    assert p[0] == a[0] == (a + w)[0];
    if IsAlpha(a[0]) {
      RunLocal(a, v, w, Word);
    } else if IsDigit(a[0]) {
      NumberLocal(a, v, w);
    } else if IsQuote(a[0]) {
      assert p[1..] == a[1..] + v && (a + w)[1..] == a[1..] + w;
      QuoteLocal(a[1..], v, w, a[0]);
    } else {
      TokensClean();
      OperatorsClean(TOKENS, a[0]);
      MatchLocal(Operators(TOKENS, a[0]), a, v, w);
    }
  }

  /** A round that ends within `a` is the same whatever stops it. */
  lemma StepLocal(a: string, v: string, w: string)
    requires a != "" && Closed(a + v) && Step(a + v).used <= |a| && Stops(w)
    requires IsSpace(a[0]) && Step(a + v).used == |a| ==> w[0] == '#'
    ensures Closed(a + w) && Step(a + w) == Step(a + v)
  {
    var p, q := a + v, a + w;
    assert p[0] == a[0] == q[0];
    var n := Step(p).used;
    assert p[..n] == q[..n];
    if a[0] == '#' {
      RunLocal(a, v, w, Line);
      assert p[..n - 1] == q[..n - 1];
      assert n >= 2 ==> p[1] == q[1];
      assert p[n - 1] == '\n' == q[n - 1];
      assert n >= 3 ==> p[2] == q[2];
    } else if IsSpace(a[0]) {
      RunLocal(a, v, w, Blank);
    } else {
      TokenLocal(a, v, w);
    }
  }

  // ---------- unified text is its own unification ----------

  lemma {:induction false} RunPast(v: string, b: string, f: Class)
    requires forall i :: 0 <= i < |v| ==> In(f, v[i])
    ensures Run(v + b, f) == |v| + Run(b, f)
  {
    if v == "" {
      assert v + b == b;
    } else {
      assert (v + b)[1..] == v[1..] + b;
      RunPast(v[1..], b, f);
    }
  }

  /** A blank run at the start, which goes on for `n` characters of `b`, is one round without text. */
  lemma BlankRound(v: string, b: string, n: nat)
    requires v != "" && (forall i :: 0 <= i < |v| ==> IsSpace(v[i])) && n == Run(b, Blank)
    ensures Terminated(v + b) <==> Terminated(b[n..])
    ensures Terminated(v + b) ==> Unify(v + b) == Unify(b[n..])
  {
    RunPast(v, b, Blank);
    SilentRound(v + b, b[n..]);
  }

  lemma SilentRound(p: string, r: string)
    requires p != "" && Closed(p) && Step(p).text == "" && Rest(p) == r
    ensures Terminated(p) <==> Terminated(r)
    ensures Terminated(p) ==> Unify(p) == Unify(r)
  {
  }

  /** Leading white space is skipped. */
  lemma SkipBlank(v: string, b: string)
    requires forall i :: 0 <= i < |v| ==> IsSpace(v[i])
    ensures Terminated(v + b) <==> Terminated(b)
    ensures Terminated(b) ==> Unify(v + b) == Unify(b)
  {
    if v == "" {
      assert v + b == b;
    } else {
      var n := Run(b, Blank);
      BlankRound(v, b, n);
      if n == 0 {
        assert b[0..] == b;
      } else {
        assert Rest(b) == b[n..];
      }
    }
  }

  /** An emitted piece, scanned again in front of anything, is emitted as it stands. */
  lemma PieceStable(p: string, r: string)
    requires p != "" && Closed(p) && Step(p).text != "" && Terminated(r)
    ensures Terminated(Step(p).text + r) && Unify(Step(p).text + r) == Step(p).text + Unify(r)
  {
    if p[0] == '#' {
      DirectiveStable(p, r);
    } else {
      TokenPieceStable(p, TokenLen(p), r);
    }
  }

  lemma TextOf(p: string, n: nat)
    requires p != "" && Closed(p) && p[0] != '#' && !IsSpace(p[0]) && n == TokenLen(p)
    ensures Step(p).text == p[..n] + "\n"
  {
  }

  lemma TokenPieceStable(p: string, n: nat, r: string)
    requires p != "" && Closed(p) && p[0] != '#' && !IsSpace(p[0]) && n == TokenLen(p) && Terminated(r)
    ensures Terminated(Step(p).text + r) && Unify(Step(p).text + r) == Step(p).text + Unify(r)
  {
    TextOf(p, n);
    Halves(p, n);
    TokenStable(p[..n], p[n..], r);
  }

  lemma Halves(p: string, n: nat)
    requires n <= |p|
    ensures p == p[..n] + p[n..]
  {
  }

  lemma TokenStable(a: string, v: string, r: string)
    requires a != "" && Closed(a + v) && a[0] != '#' && !IsSpace(a[0]) && TokenLen(a + v) == |a| && Terminated(r)
    ensures Terminated(a + "\n" + r) && Unify(a + "\n" + r) == a + "\n" + Unify(r)
  {
    var q := a + ("\n" + r);
    StepLocal(a, v, "\n" + r);
    assert q[..|a|] == a && Rest(q) == "\n" + r;
    SkipBlank("\n", r);
    assert a + "\n" + r == q;
  }

  lemma DirectiveStable(p: string, r: string)
    requires p != "" && p[0] == '#' && !IsMarker(p) && Terminated(r)
    ensures Terminated(Step(p).text + r) && Unify(Step(p).text + r) == Step(p).text + Unify(r)
  {
    var n := Run(p, Line);
    var q := p[..n] + "\n" + r;
    RunIs(q, Line, n);
    assert n >= 3 ==> q[1] == p[1] && q[2] == p[2];
    assert n < 3 ==> q[n] == '\n';
    assert !IsMarker(q);
    assert q[..n] == p[..n] && Rest(q) == r;
  }

  /** Unifying a second time changes nothing. */
  lemma {:induction false} Idempotent(p: string)
    requires Terminated(p)
    ensures Terminated(Unify(p)) && Unify(Unify(p)) == Unify(p)
    decreases |p|
  {
    if p != "" {
      Idempotent(Rest(p));
      if Step(p).text != "" {
        PieceStable(p, Unify(Rest(p)));
      } else {
        assert Unify(p) == Unify(Rest(p));
      }
    }
  }

  // ---------- layout and line markers do not matter ----------

  /** Offset `i` is one at which a round of the scanner starts. */
  predicate Reaches(p: string, i: nat)
    decreases |p|
  {
    i == 0 || (p != "" && Closed(p) && Step(p).used <= i && Reaches(Rest(p), i - Step(p).used))
  }

  lemma RestWithin(a: string, v: string, n: nat)
    requires a != "" && Closed(a + v) && Step(a + v).used == n <= |a|
    ensures Rest(a + v) == a[n..] + v
  {
  }

  /** A run of blanks does not end where more follow. */
  lemma BlankRunsOn(a: string, v: string)
    requires a != "" && IsSpace(a[0]) && v != "" && IsSpace(v[0])
    ensures Step(a + v).used != |a|
  {
    assert (a + v)[|a|] == v[0];
  }

  lemma RoundOf(p: string, i: nat)
    requires p != "" && Terminated(p) && i > 0 && Reaches(p, i)
    ensures Closed(p) && Terminated(Rest(p)) && Step(p).used <= i && Reaches(Rest(p), i - Step(p).used)
  {
  }

  /** The first round is the same in front of both rests, and leads inside `a` or to its end. */
  lemma SameStep(a: string, x: string, y: string) returns (n: nat)
    requires a != "" && Stops(y) && (IsSpace(y[0]) ==> x != "" && IsSpace(x[0]))
    requires Terminated(a + x) && Reaches(a + x, |a|)
    ensures Closed(a + x) && Closed(a + y) && Step(a + y) == Step(a + x) && 1 <= n <= |a|
    ensures Rest(a + x) == a[n..] + x && Rest(a + y) == a[n..] + y
    ensures Terminated(a[n..] + x) && Reaches(a[n..] + x, |a[n..]|)
  {
    var p := a + x;
    RoundOf(p, |a|);
    n := Step(p).used;
    SameFirst(a, x, y);
    RestWithin(a, x, n);
    RestWithin(a, y, n);
  }

  lemma SameFirst(a: string, x: string, y: string)
    requires a != "" && Stops(y) && (IsSpace(y[0]) ==> x != "" && IsSpace(x[0]))
    requires Closed(a + x) && Step(a + x).used <= |a|
    ensures Closed(a + y) && Step(a + y) == Step(a + x)
  {
    if IsSpace(a[0]) && IsSpace(y[0]) { BlankRunsOn(a, x); }
    StepLocal(a, x, y);
  }

  /** From an offset where a token may start, the rest may be replaced by one of equal unification that begins
      with a directive, or with white space where there was some. */
  lemma {:induction false} ReplaceRest(a: string, x: string, y: string)
    requires Stops(y) && (IsSpace(y[0]) ==> x != "" && IsSpace(x[0]))
    requires Terminated(a + x) && Reaches(a + x, |a|)
    requires Terminated(x) ==> Terminated(y) && Unify(y) == Unify(x)
    ensures Terminated(a + y) && Unify(a + y) == Unify(a + x)
    decreases |a|
  {
    if a == "" {
      assert a + x == x && a + y == y;
    } else {
      var p, q := a + x, a + y;
      var n := SameStep(a, x, y);
      ReplaceRest(a[n..], x, y);
      SameRound(p, q);
    }
  }

  lemma SameRound(p: string, q: string)
    requires p != "" && q != "" && Terminated(p) && Closed(q) && Step(q) == Step(p)
    requires Terminated(Rest(q)) && Unify(Rest(q)) == Unify(Rest(p))
    ensures Terminated(q) && Unify(q) == Unify(p)
  {
  }

  predicate IsBlank(v: string) {
    v != "" && forall i :: 0 <= i < |v| ==> IsSpace(v[i])
  }

  /** One non-empty run of white space is as good as another wherever a token may start. */
  lemma LayoutFolds(a: string, v: string, w: string, b: string)
    requires IsBlank(v) && IsBlank(w)
    requires Terminated(a + (v + b)) && Reaches(a + (v + b), |a|)
    ensures Terminated(a + (w + b)) && Unify(a + (w + b)) == Unify(a + (v + b))
  {
    SkipBlank(v, b);
    SkipBlank(w, b);
    ReplaceRest(a, v + b, w + b);
  }

  /** A line marker of the preprocessor, with its newline. */
  predicate IsMarkerLine(m: string) {
    IsMarker(m) && m[|m| - 1] == '\n' && forall i :: 0 <= i < |m| - 1 ==> m[i] != '\n'
  }

  /** A line marker may stand wherever a token may start. */
  lemma MarkersVanish(a: string, m: string, b: string)
    requires IsMarkerLine(m) && Terminated(a + b) && Reaches(a + b, |a|)
    ensures Terminated(a + (m + b)) && Unify(a + (m + b)) == Unify(a + b)
  {
    RunIs(m + b, Line, |m| - 1);
    assert Rest(m + b) == b;
    ReplaceRest(a, b, m + b);
  }

  // ---------- nothing else is lost or moved ----------

  /** The text without its white space. */
  function Strip(s: string): string {
    if s == "" then "" else (if IsSpace(s[0]) then "" else [s[0]]) + Strip(s[1..])
  }

  lemma {:induction false} StripAppend(s: string, t: string)
    ensures Strip(s + t) == Strip(s) + Strip(t)
  {
    if s == "" {
      assert s + t == t;
    } else {
      assert (s + t)[1..] == s[1..] + t;
      StripAppend(s[1..], t);
    }
  }

  lemma {:induction false} StripBlank(s: string)
    requires forall i :: 0 <= i < |s| ==> IsSpace(s[i])
    ensures Strip(s) == ""
  {
    if s != "" { StripBlank(s[1..]); }
  }

  /** The input without the line markers the scanner meets. */
  function Unmarked(p: string): string
    requires Terminated(p)
    decreases |p|
  {
    if p == "" then "" else (if IsMarker(p) then "" else p[..|p| - |Rest(p)|]) + Unmarked(Rest(p))
  }

  lemma LineConserves(p: string, n: nat)
    requires n <= |p| && (n < |p| ==> p[n] == '\n')
    ensures Strip(p[..n] + "\n") == Strip(p[..if n < |p| then n + 1 else n])
  {
    if n < |p| {
      assert p[..n + 1] == p[..n] + "\n";
    } else {
      StripAppend(p[..n], "\n");
    }
  }

  lemma StepConserves(p: string)
    requires p != "" && Closed(p)
    ensures Strip(Step(p).text) == if IsMarker(p) then "" else Strip(p[..|p| - |Rest(p)|])
  {
    var n := Step(p).used;
    if p[0] == '#' {
      if !IsMarker(p) { LineConserves(p, n - 1); }
    } else if IsSpace(p[0]) {
      StripBlank(p[..n]);
    } else {
      StripAppend(p[..n], "\n");
    }
  }

  /** Apart from white space and line markers, unify emits the input, in order. */
  lemma {:induction false} Conserves(p: string)
    requires Terminated(p)
    ensures Strip(Unify(p)) == Strip(Unmarked(p))
    decreases |p|
  {
    if p != "" {
      StepConserves(p);
      Conserves(Rest(p));
      StripAppend(Step(p).text, Unify(Rest(p)));
      StripAppend(if IsMarker(p) then "" else p[..|p| - |Rest(p)|], Unmarked(Rest(p)));
    }
  }
}
