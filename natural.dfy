/** A numeric-aware string comparison in the spirit of
    `a.localeCompare(b, undefined, { numeric: true })`: maximal runs of decimal digits compare
    by their numeric value, every other character compares by its code. Two runs of equal
    value are ordered by their number of digits, so that the comparison is zero only for
    equal strings. */
module Natural {
  import opened Text
  import opened Order

  /** A piece of a string: a maximal run of digits, or a single non-digit character. */
  datatype Piece = Run(digits: string) | Chr(c: char)

  predicate WellFormed(p: Piece) {
    match p
    case Run(d) => d != [] && AllDigits(d)
    case Chr(c) => !IsDigit(c)
  }

  type Token = p: Piece | WellFormed(p) witness Chr('a')

  /** Length of the run of digits at the start of `s`. */
  function DigitRun(s: string): (n: nat)
    ensures n <= |s| && AllDigits(s[..n])
    ensures forall i :: 0 <= i < n ==> IsDigit(s[i])
    ensures n < |s| ==> !IsDigit(s[n])
  {
    if s == [] || !IsDigit(s[0]) then 0
    else
      var n := 1 + DigitRun(s[1..]);
      assert s[..n] == [s[0]] + s[1..][..n - 1];
      n
  }

  function Tokenize(s: string): (ts: seq<Token>)
    decreases |s|
  {
    if s == [] then []
    else if IsDigit(s[0]) then
      var n := DigitRun(s);
      [Run(s[..n])] + Tokenize(s[n..])
    else [Chr(s[0])] + Tokenize(s[1..])
  }

  function Spelling(t: Token): string {
    match t
    case Run(d) => d
    case Chr(c) => [c]
  }

  function Untokenize(ts: seq<Token>): string {
    if ts == [] then "" else Spelling(ts[0]) + Untokenize(ts[1..])
  }

  /** Tokenizing loses nothing. */
  lemma {:induction false} TokenizeRoundTrip(s: string)
    ensures Untokenize(Tokenize(s)) == s
    decreases |s|
  {
    if s != [] && IsDigit(s[0]) {
      var n := DigitRun(s);
      UntokenizeCons(Run(s[..n]), Tokenize(s[n..]));
      TokenizeRoundTrip(s[n..]);
      assert s == s[..n] + s[n..];
    } else if s != [] {
      UntokenizeCons(Chr(s[0]), Tokenize(s[1..]));
      TokenizeRoundTrip(s[1..]);
      assert s == [s[0]] + s[1..];
    }
  }

  lemma UntokenizeCons(t: Token, ts: seq<Token>)
    ensures Untokenize([t] + ts) == Spelling(t) + Untokenize(ts)
  {
    assert ([t] + ts)[1..] == ts;
  }

  /** A non-empty string of digits is a single run. */
  lemma TokenizeDigits(d: string)
    requires d != [] && AllDigits(d)
    ensures Tokenize(d) == [Run(d)]
  {
    var n := DigitRun(d);
    assert n == |d|;
    assert IsDigit(d[0]) && d[..n] == d && d[n..] == [];
  }

  /** Rank of a token: characters by code; a run sits at the code of '0' (no character
      token can) and is then ordered by value and by number of digits. */
  function Rank(t: Token): (int, int, int) {
    match t
    case Run(d) => ('0' as int, DigitsValue(d), |d|)
    case Chr(c) => (c as int, 0, 0)
  }

  function TokenCmp(a: Token, b: Token): int {
    var (a0, a1, a2) := Rank(a);
    var (b0, b1, b2) := Rank(b);
    if a0 != b0 then (if a0 < b0 then -1 else 1)
    else if a1 != b1 then (if a1 < b1 then -1 else 1)
    else if a2 != b2 then (if a2 < b2 then -1 else 1)
    else 0
  }

  lemma TokenCmpIsTotalOrder()
    ensures IsTotalOrder(TokenCmp)
  {
    forall a: Token, b: Token | TokenCmp(a, b) == 0 ensures a == b {
      if a.Run? && b.Run? {
        DigitsInjective(a.digits, b.digits);
      }
    }
  }

  /** The numeric-aware comparison of two strings. */
  function Compare(a: string, b: string): (r: int)
    ensures r == 0 <==> a == b
  {
    TokenCmpIsTotalOrder();
    LexZero(Tokenize(a), Tokenize(b), TokenCmp);
    TokenizeRoundTrip(a);
    TokenizeRoundTrip(b);
    LexCmp(Tokenize(a), Tokenize(b), TokenCmp)
  }

  /** The comparison is a strict total order on strings. */
  lemma CompareIsTotalOrder()
    ensures IsTotalOrder(Compare)
  {
    TokenCmpIsTotalOrder();
    forall a: string, b: string ensures Compare(a, b) == 0 <==> a == b {
      LexZero(Tokenize(a), Tokenize(b), TokenCmp);
      TokenizeRoundTrip(a);
      TokenizeRoundTrip(b);
    }
    forall a: string, b: string ensures Compare(a, b) < 0 <==> Compare(b, a) > 0 {
      LexAntisymmetric(Tokenize(a), Tokenize(b), TokenCmp);
    }
    forall a: string, b: string, c: string | Compare(a, b) < 0 && Compare(b, c) < 0
      ensures Compare(a, c) < 0
    {
      LexTransitive(Tokenize(a), Tokenize(b), Tokenize(c), TokenCmp);
    }
  }

  /** Swapping the arguments flips the sign of the comparison. */
  lemma CompareFlip(a: string, b: string)
    ensures Compare(a, b) < 0 <==> Compare(b, a) > 0
  {
    TokenCmpIsTotalOrder();
    LexAntisymmetric(Tokenize(a), Tokenize(b), TokenCmp);
  }

  /** Numbers written in decimal compare by value: "2" comes before "10". */
  lemma CompareNumbers(a: string, b: string)
    requires a != [] && AllDigits(a) && b != [] && AllDigits(b)
    requires DigitsValue(a) != DigitsValue(b)
    ensures Compare(a, b) < 0 <==> DigitsValue(a) < DigitsValue(b)
  {
    TokenizeDigits(a);
    TokenizeDigits(b);
  }

  /** No token spans the boundary between a string that ends in a non-digit and the rest. */
  lemma {:induction false} TokenizeAppend(p: string, s: string)
    requires p == [] || !IsDigit(p[|p| - 1])
    ensures Tokenize(p + s) == Tokenize(p) + Tokenize(s)
    decreases |p|
  {
    if p == [] {
      assert p + s == s;
    } else if IsDigit(p[0]) {
      var n := DigitRun(p);
      DigitRunPrefix(p, s);
      assert (p + s)[..n] == p[..n] && (p + s)[n..] == p[n..] + s;
      TokenizeAppend(p[n..], s);
      ConsAppend(Run(p[..n]), Tokenize(p[n..]), Tokenize(s));
    } else {
      assert (p + s)[0] == p[0] && (p + s)[1..] == p[1..] + s;
      TokenizeAppend(p[1..], s);
      ConsAppend(Chr(p[0]), Tokenize(p[1..]), Tokenize(s));
    }
  }

  lemma ConsAppend(t: Token, a: seq<Token>, b: seq<Token>)
    ensures [t] + (a + b) == ([t] + a) + b
  {
  }

  lemma {:induction false} DigitRunPrefix(p: string, s: string)
    requires DigitRun(p) < |p|
    ensures DigitRun(p + s) == DigitRun(p)
  {
    var ps := p + s;
    assert ps[0] == p[0];
    if IsDigit(p[0]) {
      assert ps[1..] == p[1..] + s;
      DigitRunPrefix(p[1..], s);
    }
  }

  lemma {:induction false} LexCommonPrefix<T>(p: seq<T>, a: seq<T>, b: seq<T>, cmp: (T, T) -> int)
    requires forall x :: cmp(x, x) == 0
    ensures LexCmp(p + a, p + b, cmp) == LexCmp(a, b, cmp)
  {
    if p == [] {
      assert p + a == a && p + b == b;
    } else {
      assert (p + a)[0] == p[0] && (p + a)[1..] == p[1..] + a;
      assert (p + b)[0] == p[0] && (p + b)[1..] == p[1..] + b;
      LexCommonPrefix(p[1..], a, b, cmp);
    }
  }

  /** Equal text, then different numbers: the numbers decide, so "Kapitel 2" comes before
      "Kapitel 10". */
  lemma ComparePrefixThenNumber(p: string, x: nat, y: nat)
    requires p == [] || !IsDigit(p[|p| - 1])
    requires x < y
    ensures Compare(p + NatToString(x), p + NatToString(y)) < 0
  {
    TokenizeAppend(p, NatToString(x));
    TokenizeAppend(p, NatToString(y));
    TokenCmpIsTotalOrder();
    LexCommonPrefix(Tokenize(p), Tokenize(NatToString(x)), Tokenize(NatToString(y)), TokenCmp);
    CompareNumbers(NatToString(x), NatToString(y));
  }
}
