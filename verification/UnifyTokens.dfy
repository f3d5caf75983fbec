/** Where the tokens of unify.c end, by the codes of ISO 646: what one round takes, and what it pushes for it. */
module UnifyTokens {
  import opened UnifyLaws
  import opened UnifyLongest
  import opened UnifyScan
  import opened UnifyText

  // ---------- characters by their codes ----------

  predicate Letter(c: char) {
    65 <= c as int <= 90 || 97 <= c as int <= 122 || c as int == 95
  }

  predicate Numeral(c: char) {
    48 <= c as int <= 57
  }

  predicate HexNumeral(c: char) {
    Numeral(c) || 65 <= c as int <= 70 || 97 <= c as int <= 102
  }

  /** A digit or a dot. */
  predicate NumberPart(c: char) {
    Numeral(c) || c as int == 46
  }

  /** A digit or a sign. */
  predicate ExponentPart(c: char) {
    Numeral(c) || c as int == 43 || c as int == 45
  }

  predicate White(c: char) {
    c as int == 32 || 9 <= c as int <= 13
  }

  /** l, L, f, F, u or U. */
  predicate Suffixed(c: char) {
    c as int in {108, 76, 102, 70, 117, 85}
  }

  /** An apostrophe or a quotation mark. */
  predicate Quote(c: char) {
    c as int == 39 || c as int == 34
  }

  lemma ClassesAre(c: char)
    ensures In(Word, c) <==> Letter(c) || Numeral(c)
    ensures In(Digits, c) <==> NumberPart(c)
    ensures In(HexDigits, c) <==> HexNumeral(c)
    ensures In(Exponent, c) <==> ExponentPart(c)
    ensures In(Suffix, c) <==> Suffixed(c)
    ensures In(Blank, c) <==> White(c)
    ensures In(Line, c) <==> c as int != 10
    ensures (IsAlpha(c) <==> Letter(c)) && (IsDigit(c) <==> Numeral(c)) && (IsQuote(c) <==> Quote(c))
  {
  }

  /** The first `n` characters are pushed with a newline, and the scanner goes on behind them. */
  ghost predicate Taken(p: string, n: nat) {
    && p != "" && Closed(p) && n <= |p| && Step(p) == Item(p[..n] + "\n", n)
    && (Terminated(p[n..]) ==> Terminated(p) && Unify(p) == p[..n] + "\n" + Unify(p[n..]))
  }

  lemma TakenIs(p: string, n: nat)
    requires p != "" && Closed(p) && n <= |p| && Step(p) == Item(p[..n] + "\n", n)
    ensures Taken(p, n)
  {
    assert Rest(p) == p[n..];
  }

  // ---------- words and numbers ----------

  /** A word: a letter and all letters and digits behind it. */
  lemma WordToken(p: string, n: nat)
    requires 1 <= n <= |p| && Letter(p[0]) && (forall i :: 0 <= i < n ==> Letter(p[i]) || Numeral(p[i]))
    requires n < |p| ==> !Letter(p[n]) && !Numeral(p[n])
    ensures Taken(p, n)
  {
    forall i | 0 <= i < |p| ensures In(Word, p[i]) <==> Letter(p[i]) || Numeral(p[i]) { ClassesAre(p[i]); }
    ClassesAre(p[0]);
    RunIs(p, Word, n);
    TakenIs(p, n);
  }

  /** From `i` to `k` the characters of `p` are in the class, and the one behind them is not. */
  ghost predicate Span(p: string, i: nat, k: nat, f: char -> bool) {
    && i <= k <= |p| && (forall x :: i <= x < k ==> f(p[x])) && (k < |p| ==> !f(p[k]))
  }

  lemma SpanRun(p: string, i: nat, k: nat, f: char -> bool, c: Class)
    requires Span(p, i, k, f) && forall x :: In(c, x) <==> f(x)
    ensures i + Run(p[i..], c) == k
  {
    RunIs(p[i..], c, k - i);
  }

  lemma DigitsSpan(p: string, i: nat)
    requires Span(p, 0, i, NumberPart)
    ensures Run(p, Digits) == i
  {
    forall c: char ensures In(Digits, c) <==> NumberPart(c) { ClassesAre(c); }
    assert p[0..] == p;
    SpanRun(p, 0, i, NumberPart, Digits);
  }

  /** The part of a number from `i` to `j` is there if and only if it begins with one of two letters; the letter and the
      characters behind it are the part. */
  ghost predicate Part(p: string, i: nat, j: nat, lower: int, upper: int, f: char -> bool) {
    if i < |p| && (p[i] as int == lower || p[i] as int == upper) then i < j && Span(p, i + 1, j, f) else j == i
  }

  lemma HexPart(p: string, i: nat, j: nat)
    requires i <= |p| && Part(p, i, j, 120, 88, HexNumeral)
    ensures HexEnd(p, i) == j
  {
    forall c: char ensures In(HexDigits, c) <==> HexNumeral(c) { ClassesAre(c); }
    if j > i { SpanRun(p, i + 1, j, HexNumeral, HexDigits); }
  }

  lemma ExpPart(p: string, i: nat, j: nat)
    requires i <= |p| && Part(p, i, j, 101, 69, ExponentPart)
    ensures ExponentEnd(p, i) == j
  {
    forall c: char ensures In(Exponent, c) <==> ExponentPart(c) { ClassesAre(c); }
    if j > i { SpanRun(p, i + 1, j, ExponentPart, Exponent); }
  }

  lemma SuffixSpan(p: string, i: nat, j: nat)
    requires Span(p, i, j, Suffixed)
    ensures SuffixEnd(p, i) == j
  {
    forall c: char ensures In(Suffix, c) <==> Suffixed(c) { ClassesAre(c); }
    SpanRun(p, i, j, Suffixed, Suffix);
  }

  /** A number: a digit and all digits and dots behind it, up to `i`; then up to `j` an x with hexadecimal digits, up to
      `k` an e with digits and signs, and up to `n` the suffixes, each part as long as it can be. */
  lemma NumberToken(p: string, i: nat, j: nat, k: nat, n: nat)
    requires p != "" && Numeral(p[0]) && Span(p, 0, i, NumberPart)
    requires i <= |p| && Part(p, i, j, 120, 88, HexNumeral)
    requires j <= |p| && Part(p, j, k, 101, 69, ExponentPart)
    requires Span(p, k, n, Suffixed)
    ensures Taken(p, n)
  {
    DigitsSpan(p, i);
    HexPart(p, i, j);
    ExpPart(p, j, k);
    SuffixSpan(p, k, n);
    NumberTaken(p, i, j, k, n);
  }

  lemma NumberTaken(p: string, i: nat, j: nat, k: nat, n: nat)
    requires p != "" && Numeral(p[0]) && i == Run(p, Digits)
    requires j == HexEnd(p, i) && k == ExponentEnd(p, j) && n == SuffixEnd(p, k)
    ensures Taken(p, n)
  {
    ClassesAre(p[0]);
    TakenIs(p, n);
  }

  // ---------- literals ----------

  /** `w` has no `q` that no backslash hides, and no backslash at its end that hides nothing. */
  predicate Body(w: string, q: char) {
    w == "" || (if w[0] as int == 92 then |w| >= 2 && Body(w[2..], q) else w[0] != q && Body(w[1..], q))
  }

  lemma {:induction false} QuoteEndIs(p: string, q: char, n: nat)
    requires q as int != 92 && n < |p| && p[n] == q && Body(p[..n], q)
    ensures QuoteEnd(p, q) == n
    decreases n
  {
    if n > 0 {
      assert p[..n][0] == p[0];
      if p[0] as int == 92 {
        assert p[..n][2..] == p[2..][..n - 2];
        QuoteEndIs(p[2..], q, n - 2);
      } else {
        assert p[..n][1..] == p[1..][..n - 1];
        QuoteEndIs(p[1..], q, n - 1);
      }
    }
  }

  /** A literal: up to the next quote of the kind it began with, but for hidden ones. */
  lemma LiteralToken(p: string, n: nat)
    requires 2 <= n <= |p| && Quote(p[0]) && p[n - 1] == p[0] && Body(p[1..n - 1], p[0])
    ensures Taken(p, n)
  {
    ClassesAre(p[0]);
    assert p[1..][..n - 2] == p[1..n - 1];
    QuoteEndIs(p[1..], p[0], n - 2);
    TakenIs(p, n);
  }

  // ---------- white space and lines ----------

  /** White space is dropped, all of it that follows. */
  lemma BlankToken(p: string, n: nat)
    requires 1 <= n <= |p| && (forall i :: 0 <= i < n ==> White(p[i])) && (n < |p| ==> !White(p[n]))
    ensures Closed(p) && Step(p) == Item("", n)
    ensures Terminated(p[n..]) ==> Terminated(p) && Unify(p) == Unify(p[n..])
  {
    forall i | 0 <= i < |p| ensures In(Blank, p[i]) <==> White(p[i]) { ClassesAre(p[i]); }
    ClassesAre(p[0]);
    RunIs(p, Blank, n);
    assert Rest(p) == p[n..];
  }

  /** A line that begins with "#": it is pushed with its newline, or with one where the input ends, unless a blank and a
      digit follow the "#"; then nothing is. */
  lemma LineToken(p: string, n: nat)
    requires 1 <= n <= |p| && p[0] as int == 35
    requires (forall i :: 0 <= i < n ==> p[i] as int != 10) && (n < |p| ==> p[n] as int == 10)
    ensures Closed(p) &&
            Step(p) == Item(if n > 2 && p[1] as int == 32 && Numeral(p[2]) then "" else p[..n] + "\n", n + 1)
    ensures var rest := if n < |p| then p[n + 1..] else "";
            Terminated(rest) ==> Terminated(p) && Unify(p) == Step(p).text + Unify(rest)
  {
    forall i | 0 <= i < |p| ensures In(Line, p[i]) <==> p[i] as int != 10 { ClassesAre(p[i]); }
    RunIs(p, Line, n);
    if |p| > 2 { ClassesAre(p[2]); }
    assert IsMarker(p) <==> n > 2 && p[1] as int == 32 && Numeral(p[2]);
    assert Step(p).used == n + 1;
  }

  // ---------- operators ----------

  /** The operators. */
  lemma OperatorsAre(t: string)
    ensures t in TOKENS <==>
            || t in {"...", ">>=", "<<=", "+=", "-=", "*=", "/=", "%=", "&=", "^="}
            || t in {"|=", ">>", "<<", "++", "--", "->", "&&", "||", "<=", ">="}
            || t in {"==", "!=", ";", "{", "<%", "}", "%>", ",", ":", "="}
            || t in {"(", ")", "[", "<:", "]", ":>", ".", "&", "!", "~"}
            || t in {"-", "+", "*", "/", "%", "<", ">", "^", "|", "?"}
  {
    RowsAre(t);
  }

  lemma RowsAre(t: string)
    ensures t in ROW1 <==> t in {"...", ">>=", "<<=", "+=", "-=", "*=", "/=", "%=", "&=", "^="}
    ensures t in ROW2 <==> t in {"|=", ">>", "<<", "++", "--", "->", "&&", "||", "<=", ">="}
    ensures t in ROW3 <==> t in {"==", "!=", ";", "{", "<%", "}", "%>", ",", ":", "="}
    ensures t in ROW4 <==> t in {"(", ")", "[", "<:", "]", ":>", ".", "&", "!", "~"}
    ensures t in ROW5 <==> t in {"-", "+", "*", "/", "%", "<", ">", "^", "|", "?"}
  {
  }

  /** A character of no class so far. */
  predicate Other(c: char) {
    !Letter(c) && !Numeral(c) && !White(c) && !Quote(c) && c as int != 35
  }

  /** Any other character begins the longest operator there is, but of ":>" the ":" is taken; where there is none the
      character stands alone. */
  lemma OtherToken(p: string, t: string)
    requires p != "" && Other(p[0]) && IsLongest(p, t)
    ensures Taken(p, if ":>" <= p || t == "" then 1 else |t|)
  {
    if ":>" <= p {
      ColonWins(p);
      OperatorTaken(p, ":");
    } else {
      LongestOperator(p);
      LongestIsOne(p, t, Operator(p));
      OperatorTaken(p, t);
    }
  }

  lemma OperatorTaken(p: string, t: string)
    requires p != "" && Other(p[0]) && t == Operator(p)
    ensures Taken(p, if t == "" then 1 else |t|)
  {
    ClassesAre(p[0]);
    TakenIs(p, if t == "" then 1 else |t|);
  }

  lemma LongestIsOne(p: string, t: string, u: string)
    requires IsLongest(p, t) && IsLongest(p, u)
    ensures t == u
  {
    assert |u| <= |t| && |t| <= |u|;
    assert t == p[..|t|] && u == p[..|u|];
  }

  // ---------- a whole text ----------

  predicate IsWord(t: string) {
    t != "" && Letter(t[0]) && forall i :: 0 <= i < |t| ==> Letter(t[i]) || Numeral(t[i])
  }

  lemma Then(a: string, v: string)
    requires Taken(a + v, |a|) && Terminated(v)
    ensures Terminated(a + v) && Unify(a + v) == a + "\n" + Unify(v)
  {
    assert (a + v)[..|a|] == a && (a + v)[|a|..] == v;
  }

  lemma WordThen(a: string, v: string)
    requires IsWord(a) && Terminated(v) && (v != "" ==> !Letter(v[0]) && !Numeral(v[0]))
    ensures Terminated(a + v) && Unify(a + v) == a + "\n" + Unify(v)
  {
    var p := a + v;
    assert forall i :: 0 <= i < |a| ==> p[i] == a[i];
    assert v != "" ==> p[|a|] == v[0];
    WordToken(p, |a|);
    Then(a, v);
  }

  lemma BlankThen(v: string)
    requires Terminated(v) && (v != "" ==> !White(v[0]))
    ensures Terminated(" " + v) && Unify(" " + v) == Unify(v)
  {
    var p := " " + v;
    assert p[1..] == v;
    BlankToken(p, 1);
  }

  lemma Semicolon(p: string)
    requires p == ";"
    ensures Terminated(p) && Unify(p) == ";\n"
  {
    assert forall u | u in TOKENS && u <= p :: |u| <= 1;
    OperatorsAre(p);
    OtherToken(p, p);
    assert p + "" == p;
    Then(p, "");
  }

  /** A declaration: two words on one line and a semicolon come out on three lines. */
  lemma Declaration(t: string, x: string)
    requires IsWord(t) && IsWord(x)
    ensures var p := t + (" " + (x + ";"));
            Terminated(p) && Unify(p) == t + "\n" + (x + "\n" + ";\n")
  {
    var s, u := ";", x + ";";
    Semicolon(s);
    WordThen(x, s);
    assert u[0] == x[0];
    BlankThen(u);
    WordThen(t, " " + u);
  }
}
