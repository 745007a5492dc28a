/** Characters, decimal digits and the few string operations of the JavaScript runtime that
    the writing studio relies on: `Number.prototype.toString` for integers, `padStart`,
    `endsWith`/`startsWith`, `trim` and `split(/\s+/)`. */
module Text {

  predicate IsDigit(c: char) {
    '0' <= c <= '9'
  }

  predicate AllDigits(s: string) {
    forall i :: 0 <= i < |s| ==> IsDigit(s[i])
  }

  function DigitValue(c: char): (d: nat)
    requires IsDigit(c)
    ensures d < 10
  {
    c as int - '0' as int
  }

  function DigitChar(d: nat): (c: char)
    requires d < 10
    ensures IsDigit(c) && DigitValue(c) == d
  {
    ('0' as int + d) as char
  }

  /** The value of a string of decimal digits, most significant digit first. */
  function DigitsValue(s: string): nat
    requires AllDigits(s)
  {
    if s == [] then 0 else DigitsValue(s[..|s| - 1]) * 10 + DigitValue(s[|s| - 1])
  }

  /** Decimal notation of a natural number, as `n.toString()` writes it: no leading zero. */
  function NatToString(n: nat): (r: string)
    ensures |r| >= 1 && AllDigits(r)
    ensures DigitsValue(r) == n
    ensures |r| > 1 ==> r[0] != '0'
    ensures n < 10 <==> |r| == 1
  {
    if n < 10 then [DigitChar(n)]
    else
      var p := NatToString(n / 10);
      var r := p + [DigitChar(n % 10)];
      assert r[..|r| - 1] == p;
      r
  }

  /** `i.toString()` for an integer `i`. */
  function IntToString(i: int): (r: string)
    ensures |r| >= 1
    ensures i >= 0 ==> AllDigits(r) && DigitsValue(r) == i
    ensures i < 0 ==> r[0] == '-' && AllDigits(r[1..]) && DigitsValue(r[1..]) == -i
  {
    if i < 0 then "-" + NatToString(-i) else NatToString(i)
  }

  /** Leading zeros do not change the value of a digit string. */
  lemma {:induction false} LeadingZeroValue(s: string)
    requires AllDigits(s)
    ensures AllDigits("0" + s) && DigitsValue("0" + s) == DigitsValue(s)
  {
    if s != [] {
      var t := "0" + s;
      assert t[..|t| - 1] == "0" + s[..|s| - 1];
      LeadingZeroValue(s[..|s| - 1]);
    }
  }

  /** The last decimal digit and the rest are recovered by `% 10` and `/ 10`. */
  lemma LastDigit(v: nat, d: nat)
    requires d < 10
    ensures (v * 10 + d) % 10 == d && (v * 10 + d) / 10 == v
  {
  }

  /** A number has one last decimal digit and one rest. */
  lemma SameDigits(va: nat, da: nat, vb: nat, db: nat)
    requires da < 10 && db < 10 && va * 10 + da == vb * 10 + db
    ensures va == vb && da == db
  {
    LastDigit(va, da);
    LastDigit(vb, db);
  }

  /** Two digit strings of the same length and value are the same string. */
  lemma {:induction false} DigitsInjective(a: string, b: string)
    requires AllDigits(a) && AllDigits(b)
    requires |a| == |b| && DigitsValue(a) == DigitsValue(b)
    ensures a == b
  {
    if a != [] {
      var n := |a| - 1;
      var a', b' := a[..n], b[..n];
      assert AllDigits(a') && AllDigits(b');
      var da, db := DigitValue(a[n]), DigitValue(b[n]);
      assert DigitsValue(a) == DigitsValue(a') * 10 + da;
      assert DigitsValue(b) == DigitsValue(b') * 10 + db;
      SameDigits(DigitsValue(a'), da, DigitsValue(b'), db);
      DigitsInjective(a', b');
      assert a[n] == b[n];
      assert a == a' + [a[n]] && b == b' + [b[n]];
    }
  }

  /** `str.padStart(2, '0')`. */
  function PadStart2(s: string): (r: string)
    ensures |r| == if |s| < 2 then 2 else |s|
    ensures r[|r| - |s|..] == s
    ensures forall i :: 0 <= i < |r| - |s| ==> r[i] == '0'
  {
    if |s| == 0 then "00" else if |s| == 1 then "0" + s else s
  }

  predicate StartsWith(s: string, prefix: string) {
    |prefix| <= |s| && s[..|prefix|] == prefix
  }

  predicate EndsWith(s: string, suffix: string) {
    |suffix| <= |s| && s[|s| - |suffix|..] == suffix
  }

  /** The characters JavaScript's `\s` and `String.prototype.trim` treat as white space
      (WhiteSpace and LineTerminator of ECMA-262). */
  predicate IsWhitespace(c: char) {
    c == ' ' || c == '\t' || c == '\n' || c == '\r' || c == '\U{B}' || c == '\U{C}'
    || c == '\U{A0}' || c == '\U{1680}' || ('\U{2000}' <= c <= '\U{200A}')
    || c == '\U{2028}' || c == '\U{2029}' || c == '\U{202F}' || c == '\U{205F}'
    || c == '\U{3000}' || c == '\U{FEFF}'
  }

  predicate AllWhitespace(s: string) {
    forall i :: 0 <= i < |s| ==> IsWhitespace(s[i])
  }

  predicate NoWhitespace(s: string) {
    forall i :: 0 <= i < |s| ==> !IsWhitespace(s[i])
  }

  /** `s.trimStart()`: the suffix of `s` left after dropping its leading white space. */
  function TrimStart(s: string): (r: string)
    ensures |r| <= |s| && r == s[|s| - |r|..]
    ensures AllWhitespace(s[..|s| - |r|])
    ensures r == [] || !IsWhitespace(r[0])
  {
    if s != [] && IsWhitespace(s[0]) then TrimStart(s[1..]) else s
  }

  /** Trimming the start keeps a last character that is not white space. */
  lemma {:induction false} TrimStartKeepsLast(s: string)
    requires s != [] && !IsWhitespace(s[|s| - 1])
    ensures TrimStart(s) != [] && TrimStart(s)[|TrimStart(s)| - 1] == s[|s| - 1]
  {
    if IsWhitespace(s[0]) {
      assert s[1..][|s| - 2] == s[|s| - 1];
      TrimStartKeepsLast(s[1..]);
    }
  }

  /** `s.trimEnd()`: the prefix of `s` left after dropping its trailing white space. */
  function TrimEnd(s: string): (r: string)
    ensures |r| <= |s| && r == s[..|r|]
    ensures AllWhitespace(s[|r|..])
    ensures r == [] || !IsWhitespace(r[|r| - 1])
  {
    if s != [] && IsWhitespace(s[|s| - 1]) then TrimEnd(s[..|s| - 1]) else s
  }

  /** `r` is a slice of `s` that neither starts nor ends with white space, and everything
      cut off on either side of it is white space. */
  predicate TrimmedFrom(r: string, s: string) {
    && (r == [] || (!IsWhitespace(r[0]) && !IsWhitespace(r[|r| - 1])))
    && exists i :: 0 <= i <= |s| - |r| && r == s[i..i + |r|]
                   && AllWhitespace(s[..i]) && AllWhitespace(s[i + |r|..])
  }

  /** `s.trim()`. */
  function Trim(s: string): (r: string)
    ensures TrimmedFrom(r, s)
  {
    var t := TrimStart(s);
    var r := TrimEnd(t);
    TrimSlices(s, t, r);
    r
  }

  /** Dropping white space from the start and then from the end leaves a trimmed slice. */
  lemma TrimSlices(s: string, t: string, r: string)
    requires |t| <= |s| && t == s[|s| - |t|..] && AllWhitespace(s[..|s| - |t|])
    requires t == [] || !IsWhitespace(t[0])
    requires |r| <= |t| && r == t[..|r|] && AllWhitespace(t[|r|..])
    requires r == [] || !IsWhitespace(r[|r| - 1])
    ensures TrimmedFrom(r, s)
  {
    var i := |s| - |t|;
    assert s[i + |r|..] == t[|r|..];
    assert r != [] ==> r[0] == t[0];
    assert 0 <= i <= |s| - |r| && r == s[i..i + |r|]
      && AllWhitespace(s[..i]) && AllWhitespace(s[i + |r|..]);
  }

  /** `t.split(/\s+/)`: the pieces of `t` between maximal runs of white space. */
  function Split(t: string): (pieces: seq<string>)
    ensures |pieces| >= 1
    ensures forall k :: 0 <= k < |pieces| ==> NoWhitespace(pieces[k])
    decreases |t|
  {
    if t == [] then [""]
    else if IsWhitespace(t[0]) then [""] + Split(TrimStart(t))
    else
      var rest := Split(t[1..]);
      [[t[0]] + rest[0]] + rest[1..]
  }

  function Concat(pieces: seq<string>): string {
    if pieces == [] then "" else pieces[0] + Concat(pieces[1..])
  }

  /** The non-white-space characters of `s`, in order. */
  function NonWhitespace(s: string): string {
    if s == [] then ""
    else if IsWhitespace(s[0]) then NonWhitespace(s[1..])
    else [s[0]] + NonWhitespace(s[1..])
  }

  lemma {:induction false} NonWhitespaceOfWhitespace(s: string)
    requires AllWhitespace(s)
    ensures NonWhitespace(s) == ""
  {
    if s != [] {
      NonWhitespaceOfWhitespace(s[1..]);
    }
  }

  lemma {:induction false} NonWhitespaceAppend(a: string, b: string)
    ensures NonWhitespace(a + b) == NonWhitespace(a) + NonWhitespace(b)
  {
    if a == [] {
      assert a + b == b;
    } else {
      assert (a + b)[0] == a[0] && (a + b)[1..] == a[1..] + b;
      NonWhitespaceAppend(a[1..], b);
      if !IsWhitespace(a[0]) {
        calc {
          NonWhitespace(a + b);
          [a[0]] + NonWhitespace(a[1..] + b);
          [a[0]] + (NonWhitespace(a[1..]) + NonWhitespace(b));
          ([a[0]] + NonWhitespace(a[1..])) + NonWhitespace(b);
        }
      }
    }
  }

  /** Splitting drops exactly the white space: gluing the pieces back together gives the
      non-white-space characters of the input. */
  lemma {:induction false} SplitLosesOnlyWhitespace(t: string)
    ensures Concat(Split(t)) == NonWhitespace(t)
    decreases |t|
  {
    if t == [] {
    } else if IsWhitespace(t[0]) {
      var u := TrimStart(t);
      SplitLosesOnlyWhitespace(u);
      assert t == t[..|t| - |u|] + u;
      NonWhitespaceAppend(t[..|t| - |u|], u);
      NonWhitespaceOfWhitespace(t[..|t| - |u|]);
      assert Concat(Split(t)) == "" + Concat(Split(u));
    } else {
      var rest := Split(t[1..]);
      SplitLosesOnlyWhitespace(t[1..]);
      assert Concat(rest) == rest[0] + Concat(rest[1..]);
      assert Concat(Split(t)) == ([t[0]] + rest[0]) + Concat(rest[1..]);
    }
  }

  /** A string that neither starts nor ends with white space splits into non-empty pieces
      (and the empty string splits into the single piece ""). */
  lemma {:induction false} SplitPiecesNonEmpty(t: string)
    requires t != [] && !IsWhitespace(t[0]) && !IsWhitespace(t[|t| - 1])
    ensures forall k :: 0 <= k < |Split(t)| ==> Split(t)[k] != ""
    decreases |t|
  {
    var rest := Split(t[1..]);
    assert Split(t) == [[t[0]] + rest[0]] + rest[1..];
    if |t| == 1 {
      assert rest == [""];
    } else if IsWhitespace(t[1]) {
      var u := TrimStart(t[1..]);
      assert t[1..][|t| - 2] == t[|t| - 1];
      TrimStartKeepsLast(t[1..]);
      SplitPiecesNonEmpty(u);
      assert rest[1..] == Split(u);
    } else {
      SplitPiecesNonEmpty(t[1..]);
    }
    GluedPiecesNonEmpty(t[0], rest);
  }

  /** Gluing a character to the first piece makes that piece non-empty. */
  lemma GluedPiecesNonEmpty(c: char, rest: seq<string>)
    requires |rest| >= 1 && forall k :: 1 <= k < |rest| ==> rest[k] != ""
    ensures var pieces := [[c] + rest[0]] + rest[1..];
      forall k :: 0 <= k < |pieces| ==> pieces[k] != ""
  {
    var pieces := [[c] + rest[0]] + rest[1..];
    forall k | 0 <= k < |pieces|
      ensures pieces[k] != ""
    {
      if k > 0 {
        assert pieces[k] == rest[k];
      } else {
        assert |pieces[0]| >= 1;
      }
    }
  }

  /** Trimming removes only white space. */
  lemma TrimKeepsNonWhitespace(s: string)
    ensures NonWhitespace(Trim(s)) == NonWhitespace(s)
  {
    TrimStartKeepsNonWhitespace(s);
    TrimEndKeepsNonWhitespace(TrimStart(s));
  }

  lemma TrimStartKeepsNonWhitespace(s: string)
    ensures NonWhitespace(TrimStart(s)) == NonWhitespace(s)
  {
    var t := TrimStart(s);
    var lead := s[..|s| - |t|];
    assert s == lead + t;
    NonWhitespaceAppend(lead, t);
    NonWhitespaceOfWhitespace(lead);
  }

  lemma TrimEndKeepsNonWhitespace(t: string)
    ensures NonWhitespace(TrimEnd(t)) == NonWhitespace(t)
  {
    var r := TrimEnd(t);
    var trail := t[|r|..];
    assert t == r + trail;
    NonWhitespaceAppend(r, trail);
    NonWhitespaceOfWhitespace(trail);
  }

  /** The pieces put back together with the separators between them:
      `pieces[0] + seps[0] + pieces[1] + ... + seps[k - 1] + pieces[k]`. */
  function Glue(pieces: seq<string>, seps: seq<string>): string
    requires |pieces| == |seps| + 1
    decreases |seps|
  {
    if seps == [] then pieces[0] else pieces[0] + seps[0] + Glue(pieces[1..], seps[1..])
  }

  /** The shape of a split: pieces without white space, separated by non-empty runs of white
      space, where only the first and the last piece may be empty. */
  ghost predicate SplitShape(pieces: seq<string>, seps: seq<string>) {
    && |pieces| == |seps| + 1
    && (forall k :: 0 <= k < |pieces| ==> NoWhitespace(pieces[k]))
    && (forall k :: 0 <= k < |seps| ==> seps[k] != [] && AllWhitespace(seps[k]))
    && (forall k :: 0 < k < |pieces| - 1 ==> pieces[k] != [])
  }

  /** The runs of white space that `split(/\s+/)` cuts at, in order. */
  function Separators(t: string): seq<string>
    decreases |t|
  {
    if t == [] then []
    else if IsWhitespace(t[0]) then [t[..|t| - |TrimStart(t)|]] + Separators(TrimStart(t))
    else Separators(t[1..])
  }

  /** The glued string starts with the first piece. */
  lemma GlueStart(pieces: seq<string>, seps: seq<string>)
    requires |pieces| == |seps| + 1
    ensures |pieces[0]| <= |Glue(pieces, seps)|
    ensures Glue(pieces, seps)[..|pieces[0]|] == pieces[0]
  {
    if seps != [] {
      var g := Glue(pieces, seps);
      assert g == pieces[0] + (seps[0] + Glue(pieces[1..], seps[1..]));
    }
  }

  /** A character in front of the first piece is a character in front of the glued string. */
  lemma GlueCons(c: char, pieces: seq<string>, seps: seq<string>)
    requires |pieces| == |seps| + 1
    ensures Glue([[c] + pieces[0]] + pieces[1..], seps) == [c] + Glue(pieces, seps)
  {
    var q := [[c] + pieces[0]] + pieces[1..];
    assert q[0] == [c] + pieces[0] && q[1..] == pieces[1..];
  }

  /** Leading white space in front of text that does not start with white space is exactly
      what `trimStart` removes. */
  lemma {:induction false} TrimStartPrefix(w: string, r: string)
    requires AllWhitespace(w) && (r == [] || !IsWhitespace(r[0]))
    ensures TrimStart(w + r) == r
    decreases |w|
  {
    if w != [] {
      assert (w + r)[1..] == w[1..] + r;
      TrimStartPrefix(w[1..], r);
    } else {
      assert w + r == r;
    }
  }

  /** Text without white space is a single piece. */
  lemma {:induction false} SplitNoWhitespace(t: string)
    requires NoWhitespace(t)
    ensures Split(t) == [t]
    decreases |t|
  {
    if t != [] {
      SplitNoWhitespace(t[1..]);
      assert [t[0]] + t[1..] == t;
    }
  }

  /** A string that starts with a character other than white space starts its first piece. */
  lemma SplitFirstNonEmpty(u: string)
    requires u != [] && !IsWhitespace(u[0])
    ensures Split(u)[0] != []
  {
  }

  /** A run of white space in front: an empty first piece and one more separator. */
  lemma ShapeAfterRun(w: string, p: seq<string>, q: seq<string>)
    requires SplitShape(p, q) && w != [] && AllWhitespace(w)
    requires |p| >= 2 ==> p[0] != []
    ensures SplitShape([""] + p, [w] + q)
    ensures Glue([""] + p, [w] + q) == w + Glue(p, q)
  {
    var pieces, seps := [""] + p, [w] + q;
    assert pieces[1..] == p && seps[1..] == q;
    forall k | 0 <= k < |pieces| ensures NoWhitespace(pieces[k]) {
      if k > 0 {
        assert pieces[k] == p[k - 1];
      }
    }
    forall k | 0 <= k < |seps| ensures seps[k] != [] && AllWhitespace(seps[k]) {
      if k > 0 {
        assert seps[k] == q[k - 1];
      }
    }
    forall k | 0 < k < |pieces| - 1 ensures pieces[k] != [] {
      assert pieces[k] == p[k - 1];
    }
  }

  /** A character other than white space in front: it joins the first piece. */
  lemma ShapeAfterChar(c: char, p: seq<string>, q: seq<string>)
    requires SplitShape(p, q) && !IsWhitespace(c)
    ensures SplitShape([[c] + p[0]] + p[1..], q)
  {
    var pieces := [[c] + p[0]] + p[1..];
    forall k | 0 <= k < |pieces| ensures NoWhitespace(pieces[k]) {
      if k > 0 {
        assert pieces[k] == p[k];
      } else {
        assert forall i :: 1 <= i < |pieces[0]| ==> pieces[0][i] == p[0][i - 1];
      }
    }
    forall k | 0 < k < |pieces| - 1 ensures pieces[k] != [] {
      assert pieces[k] == p[k];
    }
  }

  /** Without its first piece and first separator, a split keeps its shape. */
  lemma ShapeTail(pieces: seq<string>, seps: seq<string>)
    requires SplitShape(pieces, seps) && seps != []
    ensures SplitShape(pieces[1..], seps[1..])
  {
    var p, q := pieces[1..], seps[1..];
    forall k | 0 <= k < |p| ensures NoWhitespace(p[k]) {
      assert p[k] == pieces[k + 1];
    }
    forall k | 0 <= k < |q| ensures q[k] != [] && AllWhitespace(q[k]) {
      assert q[k] == seps[k + 1];
    }
    forall k | 0 < k < |p| - 1 ensures p[k] != [] {
      assert p[k] == pieces[k + 1];
    }
  }

  /** Without the first character of its first piece, a split keeps its shape. */
  lemma ShapeDrop(pieces: seq<string>, seps: seq<string>)
    requires SplitShape(pieces, seps) && pieces[0] != []
    ensures SplitShape([pieces[0][1..]] + pieces[1..], seps)
  {
    var p := [pieces[0][1..]] + pieces[1..];
    forall k | 0 <= k < |p| ensures NoWhitespace(p[k]) {
      if k > 0 {
        assert p[k] == pieces[k];
      } else {
        assert forall i :: 0 <= i < |p[0]| ==> p[0][i] == pieces[0][i + 1];
      }
    }
    forall k | 0 < k < |p| - 1 ensures p[k] != [] {
      assert p[k] == pieces[k];
    }
  }

  /** The split has the shape of a split, and the pieces glued back with the runs of white
      space between them give the text back. */
  lemma {:induction false} SplitGlue(t: string)
    ensures |Split(t)| == |Separators(t)| + 1
    ensures SplitShape(Split(t), Separators(t))
    ensures Glue(Split(t), Separators(t)) == t
    decreases |t|
  {
    if t == [] {
    } else if IsWhitespace(t[0]) {
      var u := TrimStart(t);
      var w := t[..|t| - |u|];
      SplitGlue(u);
      var p, q := Split(u), Separators(u);
      if u != [] {
        SplitFirstNonEmpty(u);
      }
      ShapeAfterRun(w, p, q);
      assert Split(t) == [""] + p && Separators(t) == [w] + q;
      assert t == w + u;
    } else {
      var rest, q := Split(t[1..]), Separators(t[1..]);
      SplitGlue(t[1..]);
      GlueCons(t[0], rest, q);
      ShapeAfterChar(t[0], rest, q);
      assert Split(t) == [[t[0]] + rest[0]] + rest[1..] && Separators(t) == q;
      assert t == [t[0]] + t[1..];
    }
  }

  /** A split is determined by its shape: whenever `t` is glued from pieces and runs of white
      space of that shape, those pieces are what `split(/\s+/)` returns. */
  lemma {:induction false} SplitUnique(t: string, pieces: seq<string>, seps: seq<string>)
    requires SplitShape(pieces, seps) && Glue(pieces, seps) == t
    ensures Split(t) == pieces
    decreases |t|
  {
    if seps == [] {
      SplitNoWhitespace(t);
    } else if pieces[0] == [] {
      RunStep(t, pieces, seps);
      SplitUnique(TrimStart(t), pieces[1..], seps[1..]);
    } else {
      WordStep(t, pieces, seps);
      SplitUnique(t[1..], [pieces[0][1..]] + pieces[1..], seps);
    }
  }

  /** A decomposition that starts with an empty piece: `t` starts with white space, and what
      `TrimStart` leaves is glued from the remaining pieces. */
  lemma RunStep(t: string, pieces: seq<string>, seps: seq<string>)
    requires SplitShape(pieces, seps) && Glue(pieces, seps) == t
    requires seps != [] && pieces[0] == []
    ensures t != [] && IsWhitespace(t[0]) && pieces == [""] + pieces[1..]
    ensures SplitShape(pieces[1..], seps[1..]) && Glue(pieces[1..], seps[1..]) == TrimStart(t)
    ensures |TrimStart(t)| < |t|
  {
    var rest := Glue(pieces[1..], seps[1..]);
    assert t == seps[0] + rest;
    ShapeTail(pieces, seps);
    RestStartsWord(pieces, seps);
    TrimStartPrefix(seps[0], rest);
    assert t[0] == seps[0][0];
  }

  /** A decomposition that starts with a word: `t` starts with that word's first character,
      and the rest of `t` is glued from the decomposition without it. */
  lemma WordStep(t: string, pieces: seq<string>, seps: seq<string>)
    requires SplitShape(pieces, seps) && Glue(pieces, seps) == t && pieces[0] != []
    ensures var q := [pieces[0][1..]] + pieces[1..];
      && t != [] && !IsWhitespace(t[0])
      && SplitShape(q, seps) && Glue(q, seps) == t[1..]
      && pieces == [[t[0]] + q[0]] + q[1..]
  {
    var c := pieces[0][0];
    var q := [pieces[0][1..]] + pieces[1..];
    assert q[0] == pieces[0][1..] && q[1..] == pieces[1..];
    assert [c] + q[0] == pieces[0];
    assert [[c] + q[0]] + q[1..] == [pieces[0]] + pieces[1..] == pieces;
    GlueCons(c, q, seps);
    assert t == [c] + Glue(q, seps);
    ShapeDrop(pieces, seps);
  }

  /** After an empty first piece and its separator, the rest starts with a word, or is empty. */
  lemma RestStartsWord(pieces: seq<string>, seps: seq<string>)
    requires SplitShape(pieces, seps) && seps != []
    ensures var rest := Glue(pieces[1..], seps[1..]);
      rest == [] || !IsWhitespace(rest[0])
  {
    var rest := Glue(pieces[1..], seps[1..]);
    GlueStart(pieces[1..], seps[1..]);
    if pieces[1] != [] {
      assert rest[0] == pieces[1][0];
    } else {
      assert |pieces| == 2;
    }
  }

  /** What the word count counts: the pieces of the trimmed content are the words — non-empty
      (unless the content is blank), free of white space, and together exactly the
      non-white-space characters of the content. */
  lemma WordCountPieces(content: string)
    ensures var pieces := Split(Trim(content));
      && Concat(pieces) == NonWhitespace(content)
      && (forall k :: 0 <= k < |pieces| ==> NoWhitespace(pieces[k]))
      && (Trim(content) != "" ==> forall k :: 0 <= k < |pieces| ==> pieces[k] != "")
  {
    SplitLosesOnlyWhitespace(Trim(content));
    TrimKeepsNonWhitespace(content);
    assert TrimmedFrom(Trim(content), content);
    if Trim(content) != "" {
      SplitPiecesNonEmpty(Trim(content));
    }
  }

  /** `content.trim().split(/\s+/).length`: the per-module word count of the statistics. */
  function WordCount(content: string): (n: nat)
    ensures n >= 1
    ensures Trim(content) == "" ==> n == 1
  {
    |Split(Trim(content))|
  }

  /** The word count is the number of words: when the trimmed content is a sequence of
      non-empty words separated by runs of white space, the count is the number of words. */
  lemma WordCountWords(content: string, words: seq<string>, seps: seq<string>)
    requires SplitShape(words, seps) && Glue(words, seps) == Trim(content)
    requires forall k :: 0 <= k < |words| ==> words[k] != []
    ensures WordCount(content) == |words|
  {
    SplitUnique(Trim(content), words, seps);
  }
}
