/** One step of the scanner of unify.c, and the text it emits over a whole input. */
module UnifyScan {
  import opened UnifyText

  /** How many leading characters of `p` are in the class. */
  function Run(p: string, f: Class): (n: nat)
    ensures n <= |p|
    ensures forall i :: 0 <= i < n ==> In(f, p[i])
    ensures n < |p| ==> !In(f, p[n])
  {
    if p != "" && In(f, p[0]) then 1 + Run(p[1..], f) else 0
  }

  /** The length of the number at the start of `p`: digits and dots, then a hex part, an exponent, and suffixes. */
  function NumberLen(p: string): (n: nat)
    ensures n <= |p|
  {
    SuffixEnd(p, ExponentEnd(p, HexEnd(p, Run(p, Digits))))
  }

  function HexEnd(p: string, i: nat): (n: nat)
    requires i <= |p|
    ensures i <= n <= |p|
  {
    if i < |p| && (p[i] == 'x' || p[i] == 'X') then i + 1 + Run(p[i + 1..], HexDigits) else i
  }

  function ExponentEnd(p: string, i: nat): (n: nat)
    requires i <= |p|
    ensures i <= n <= |p|
  {
    if i < |p| && (p[i] == 'E' || p[i] == 'e') then i + 1 + Run(p[i + 1..], Exponent) else i
  }

  function SuffixEnd(p: string, i: nat): (n: nat)
    requires i <= |p|
    ensures i <= n <= |p|
  {
    i + Run(p[i..], Suffix)
  }

  /** The index of the quote `q` that ends the literal whose body starts `p`; a backslash hides the next
      character; -1 when the input ends first. */
  function QuoteEnd(p: string, q: char): (e: int)
    ensures -1 <= e < |p|
    ensures e >= 0 ==> p[e] == q
  {
    if p == "" then -1
    else if p[0] == '\\' then
      if |p| == 1 then -1 else var e := QuoteEnd(p[2..], q); if e < 0 then -1 else e + 2
    else if p[0] == q then 0
    else var e := QuoteEnd(p[1..], q); if e < 0 then -1 else e + 1
  }

  /** A literal at the start of `p` is terminated. */
  predicate Closed(p: string) {
    p != "" && IsQuote(p[0]) ==> QuoteEnd(p[1..], p[0]) >= 0
  }

  predicate IsMarker(p: string) {
    |p| > 2 && p[0] == '#' && p[1] == ' ' && IsDigit(p[2])
  }

  /** What one round of the scanner emits, and by how much it advances (past the end for a last line without
      newline). */
  datatype Item = Item(text: string, used: nat)

  function Step(p: string): (r: Item)
    requires p != "" && Closed(p)
    ensures 1 <= r.used <= |p| + 1
  {
    if p[0] == '#' then
      Item(if IsMarker(p) then "" else p[..Run(p, Line)] + "\n", Run(p, Line) + 1)
    else if IsSpace(p[0]) then
      assert In(Blank, p[0]);
      Item("", Run(p, Blank))
    else
      assert IsAlpha(p[0]) ==> In(Word, p[0]);
      Item(p[..TokenLen(p)] + "\n", TokenLen(p))
  }

  /** The length of the token at the start of `p`. */
  function TokenLen(p: string): (n: nat)
    requires p != "" && Closed(p) && p[0] != '#' && !IsSpace(p[0])
    ensures 1 <= n <= |p|
  {
    if IsAlpha(p[0]) then assert In(Word, p[0]); Run(p, Word)
    else if IsDigit(p[0]) then assert In(Digits, p[0]); NumberLen(p)
    else if IsQuote(p[0]) then QuoteEnd(p[1..], p[0]) + 2
    else if Operator(p) != "" then |Operator(p)|
    else 1
  }

  function Rest(p: string): (r: string)
    requires p != "" && Closed(p)
    ensures |r| < |p|
  {
    if Step(p).used <= |p| then p[Step(p).used..] else ""
  }

  /** Every literal the scanner meets is terminated. */
  predicate Terminated(p: string)
    decreases |p|
  {
    p == "" || (Closed(p) && Terminated(Rest(p)))
  }

  /** The text unify pushes for `p`. */
  function Unify(p: string): string
    requires Terminated(p)
    decreases |p|
  {
    if p == "" then "" else Step(p).text + Unify(Rest(p))
  }
}
