/** The text that unify.c produces: characters, tokens, one scanning step, and the whole unification. */
module UnifyText {

  // ---------- character classes, as build_table sets them up ----------

  predicate IsAlpha(c: char) {
    'a' <= c <= 'z' || 'A' <= c <= 'Z' || c == '_'
  }

  predicate IsDigit(c: char) {
    '0' <= c <= '9'
  }

  predicate IsSpace(c: char) {
    c == ' ' || c == '\t' || c == '\n' || c == '\U{B}' || c == '\U{C}' || c == '\r'
  }

  predicate IsHex(c: char) {
    IsDigit(c) || 'a' <= c <= 'f' || 'A' <= c <= 'F'
  }

  predicate IsQuote(c: char) {
    c == '\'' || c == '"'
  }

  predicate IsFloat(c: char) {
    c in "lLfFuU"
  }

  predicate IsSign(c: char) {
    c == '-' || c == '+'
  }

  /** The sets of characters that the inner loops run over. */
  datatype Class = Word | Digits | HexDigits | Exponent | Suffix | Blank | Line

  predicate In(f: Class, c: char) {
    match f
    case Word => IsAlpha(c) || IsDigit(c)
    case Digits => IsDigit(c) || c == '.'
    case HexDigits => IsHex(c)
    case Exponent => IsDigit(c) || IsSign(c)
    case Suffix => IsFloat(c)
    case Blank => IsSpace(c)
    case Line => c != '\n'
  }

  // ---------- operators ----------

  // s_tokens, row by row
  const ROW1: seq<string> := ["...", ">>=", "<<=", "+=", "-=", "*=", "/=", "%=", "&=", "^="]
  const ROW2: seq<string> := ["|=", ">>", "<<", "++", "--", "->", "&&", "||", "<=", ">="]
  const ROW3: seq<string> := ["==", "!=", ";", "{", "<%", "}", "%>", ",", ":", "="]
  const ROW4: seq<string> := ["(", ")", "[", "<:", "]", ":>", ".", "&", "!", "~"]
  const ROW5: seq<string> := ["-", "+", "*", "/", "%", "<", ">", "^", "|", "?"]

  const TOKENS := ROW1 + ROW2 + ROW3 + ROW4 + ROW5

  /** The operators that begin with `c`, in the order of the list. */
  function Operators(ts: seq<string>, c: char): seq<string> {
    if ts == [] then []
    else if ts[0] != "" && ts[0][0] == c then [ts[0]] + Operators(ts[1..], c)
    else Operators(ts[1..], c)
  }

  /** The first of `ts` that `p` begins with. */
  function FirstMatch(ts: seq<string>, p: string): (r: string)
    ensures r <= p
  {
    if ts == [] then "" else if ts[0] <= p then ts[0] else FirstMatch(ts[1..], p)
  }

  /** The operator at the start of `p`, or "" when there is none. */
  function Operator(p: string): (r: string)
    requires p != ""
    ensures r <= p
  {
    FirstMatch(Operators(TOKENS, p[0]), p)
  }

  /** No character of an operator is white space, starts a directive, or is outside ASCII. */
  predicate Clean(t: string) {
    t != "" && forall i :: 0 <= i < |t| ==> !IsSpace(t[i]) && t[i] != '#' && t[i] != '\0' && t[i] < '\U{80}'
  }

  lemma Row1Clean()
    ensures forall t :: t in ROW1 ==> Clean(t)
  {
    forall t | t in ROW1 ensures Clean(t) {
      assert t == "..." || t == ">>=" || t == "<<=" || t == "+=" || t == "-=" || t == "*=" || t == "/=" || t == "%=" ||
             t == "&=" || t == "^=";
    }
  }

  lemma Row2Clean()
    ensures forall t :: t in ROW2 ==> Clean(t)
  {
    forall t | t in ROW2 ensures Clean(t) {
      assert t == "|=" || t == ">>" || t == "<<" || t == "++" || t == "--" || t == "->" || t == "&&" || t == "||" ||
             t == "<=" || t == ">=";
    }
  }

  lemma Row3Clean()
    ensures forall t :: t in ROW3 ==> Clean(t)
  {
    forall t | t in ROW3 ensures Clean(t) {
      assert t == "==" || t == "!=" || t == ";" || t == "{" || t == "<%" || t == "}" || t == "%>" || t == "," ||
             t == ":" || t == "=";
    }
  }

  lemma Row4Clean()
    ensures forall t :: t in ROW4 ==> Clean(t)
  {
    forall t | t in ROW4 ensures Clean(t) {
      assert t == "(" || t == ")" || t == "[" || t == "<:" || t == "]" || t == ":>" || t == "." || t == "&" ||
             t == "!" || t == "~";
    }
  }

  lemma Row5Clean()
    ensures forall t :: t in ROW5 ==> Clean(t)
  {
    forall t | t in ROW5 ensures Clean(t) {
      assert t == "-" || t == "+" || t == "*" || t == "/" || t == "%" || t == "<" || t == ">" || t == "^" || t == "|" ||
             t == "?";
    }
  }

  lemma TokensClean()
    ensures forall t :: t in TOKENS ==> Clean(t)
  {
    Row1Clean(); Row2Clean(); Row3Clean(); Row4Clean(); Row5Clean();
  }

  lemma {:induction false} OperatorsClean(ts: seq<string>, c: char)
    requires forall t :: t in ts ==> Clean(t)
    ensures forall t :: t in Operators(ts, c) ==> Clean(t) && t[0] == c
  {
    if ts != [] { OperatorsClean(ts[1..], c); }
  }

  lemma {:induction false} FirstMatchOf(ts: seq<string>, p: string)
    ensures FirstMatch(ts, p) != "" ==> FirstMatch(ts, p) in ts
  {
    if ts != [] && !(ts[0] <= p) { FirstMatchOf(ts[1..], p); }
  }

  /** The match does not change when what follows it changes, as long as no operator reaches into either rest. */
  lemma {:induction false} FirstMatchLocal(ts: seq<string>, a: string, v: string, w: string)
    requires forall t :: t in ts ==> Clean(t)
    requires v != "" && w != "" && (IsSpace(v[0]) || v[0] == '#') && (IsSpace(w[0]) || w[0] == '#')
    ensures FirstMatch(ts, a + v) == FirstMatch(ts, a + w)
  {
    if ts != [] {
      PrefixLocal(ts[0], a, v);
      PrefixLocal(ts[0], a, w);
      FirstMatchLocal(ts[1..], a, v, w);
    }
  }

  lemma PrefixLocal(t: string, a: string, v: string)
    requires Clean(t) && v != "" && (IsSpace(v[0]) || v[0] == '#')
    ensures t <= a + v <==> t <= a
  {
    if |t| <= |a| {
      assert (a + v)[..|t|] == a[..|t|];
    } else {
      assert (a + v)[|a|] == v[0] && t[|a|] != v[0];
    }
  }
}
