/** JavaScript's prefix number parsers, `parseFloat` and `parseInt` with
    radix 10 (sections 19.2.4 and 19.2.5 of ECMA-262), over exact reals,
    and the `parseInt(parseFloat(..))` composition the first revision's
    integer rule uses. */
module Numbers {
  import opened Wrappers
  import opened JsString

  /** A JavaScript number as the preprocessors can produce it. Exact reals
      stand in for IEEE-754 doubles; `NaN` is the not-a-number sentinel and
      `Infinity` comes only from the literal text `Infinity`. */
  datatype Number = NaN | Finite(value: real) | Infinity(negative: bool)

  predicate IsDigit(c: char) {
    '0' <= c <= '9'
  }

  predicate AllDigits(s: string) {
    forall i :: 0 <= i < |s| ==> IsDigit(s[i])
  }

  function DigitValue(c: char): nat
    requires IsDigit(c)
  {
    c as int - '0' as int
  }

  /** The natural number a run of decimal digits spells. */
  function DigitsValue(ds: string): nat
    requires AllDigits(ds)
    decreases |ds|
  {
    if ds == [] then 0 else 10 * DigitsValue(ds[..|ds| - 1]) + DigitValue(ds[|ds| - 1])
  }

  /** The end of the maximal run of digits that starts at `i`. */
  function DigitRunEnd(s: string, i: nat): (j: nat)
    requires i <= |s|
    ensures i <= j <= |s|
    ensures AllDigits(s[i..j])
    ensures j == |s| || !IsDigit(s[j])
    decreases |s| - i
  {
    if i < |s| && IsDigit(s[i]) then DigitRunEnd(s, i + 1) else i
  }

  function Pow10(e: nat): (p: nat)
    ensures p >= 1
  {
    if e == 0 then 1 else 10 * Pow10(e - 1)
  }

  /** `x` times ten to the power `e`. */
  function Scale(x: real, e: int): real {
    if e >= 0 then x * Pow10(e) as real else x / Pow10(-e) as real
  }

  function Signed(negative: bool, x: real): real {
    if negative then -x else x
  }

  function SignedInt(negative: bool, n: nat): int {
    if negative then -(n as int) else n as int
  }

  /** The length of an optional leading `+` or `-`. */
  function SignLength(t: string): (k: nat)
    ensures k <= |t|
  {
    if |t| > 0 && (t[0] == '+' || t[0] == '-') then 1 else 0
  }

  predicate HasMinus(t: string) {
    |t| > 0 && t[0] == '-'
  }

  /** The optional exponent part `(e|E)[+-]?digits` of a decimal literal
      starting at `c`: the index where the literal then ends, and the
      exponent. A marker with no digits after it is not part of the literal. */
  function ExponentPart(t: string, c: nat): (r: (nat, int))
    requires c <= |t|
    ensures c <= r.0 <= |t|
    ensures r.0 == c ==> r.1 == 0
  {
    if c < |t| && (t[c] == 'e' || t[c] == 'E') then
      var minus := c + 1 < |t| && t[c + 1] == '-';
      var k := if c + 1 < |t| && (t[c + 1] == '+' || minus) then c + 2 else c + 1;
      var e := DigitRunEnd(t, k);
      if e == k then (c, 0)
      else (e, SignedInt(minus, DigitsValue(t[k..e])))
    else (c, 0)
  }

  /** The value of `ds` read as the digits after a decimal point. */
  function Fraction(ds: string): real
    requires AllDigits(ds)
  {
    DigitsValue(ds) as real / Pow10(|ds|) as real
  }

  /** After leading white space, the text starts the way a StrDecimalLiteral
      does: an optional sign, then a digit, a point followed by a digit, or
      the word `Infinity`. */
  predicate BeginsNumber(t: string) {
    var k := SignLength(t);
    || (k < |t| && IsDigit(t[k]))
    || (k + 1 < |t| && t[k] == '.' && IsDigit(t[k + 1]))
    || OccursAt(t, "Infinity", k)
  }

  /** Where the parts of a decimal literal at the start of `t` lie: the sign
      ends at `k`, the whole digits are `t[k..a]`, and the fraction digits are
      `t[b..c]`, with `b == a + 1` after a point and `b == c == a` without one. */
  datatype Span = Span(k: nat, a: nat, b: nat, c: nat)

  function ScanDecimal(t: string): (sp: Span)
    ensures sp.k == SignLength(t) && sp.k <= sp.a <= sp.b <= sp.c <= |t|
    ensures AllDigits(t[sp.k..sp.a]) && AllDigits(t[sp.b..sp.c])
    ensures sp.a == |t| || !IsDigit(t[sp.a])
    ensures sp.b == sp.a + 1 <==> sp.a < |t| && t[sp.a] == '.'
    ensures sp.b == sp.a + 1 || (sp.b == sp.a && sp.c == sp.a)
    ensures sp.b == sp.a + 1 ==> sp.c == DigitRunEnd(t, sp.b)
  {
    var k := SignLength(t);
    var a := DigitRunEnd(t, k);
    if a < |t| && t[a] == '.' then Span(k, a, a + 1, DigitRunEnd(t, a + 1)) else Span(k, a, a, a)
  }

  /** `parseFloat(s)`: the value of the longest prefix of `s`, after leading
      white space, that is a StrDecimalLiteral; `NaN` when no prefix is. */
  function ParseFloat(s: string): (r: Number)
    ensures r.NaN? <==> !BeginsNumber(TrimStart(s))
  {
    var t := TrimStart(s);
    if OccursAt(t, "Infinity", SignLength(t)) then Infinity(HasMinus(t))
    else
      var sp := ScanDecimal(t);
      if sp.a == sp.k && sp.c == sp.b then NaN
      else Finite(SpanValue(t, sp))
  }

  /** The value of the decimal literal whose parts `sp` locates in `t`. */
  function SpanValue(t: string, sp: Span): real
    requires sp.k <= sp.a <= sp.b <= sp.c <= |t|
    requires AllDigits(t[sp.k..sp.a]) && AllDigits(t[sp.b..sp.c])
  {
    Signed(HasMinus(t), Scale(Mantissa(t[sp.k..sp.a], t[sp.b..sp.c]), ExponentPart(t, sp.c).1))
  }

  /** The value of whole digits followed by a point and fraction digits. */
  function Mantissa(whole: string, fd: string): real
    requires AllDigits(whole) && AllDigits(fd)
  {
    DigitsValue(whole) as real + Fraction(fd)
  }

  /** After leading white space, an optional sign and then a digit. */
  predicate BeginsInteger(t: string) {
    SignLength(t) < |t| && IsDigit(t[SignLength(t)])
  }

  predicate IsInteger(x: real) {
    x == x.Floor as real
  }

  /** `parseInt(s, 10)`: the signed value of the leading run of digits after
      white space and an optional sign; `NaN` when there is no digit. It never
      reads a point or an exponent. */
  function ParseInt(s: string): (r: Number)
    ensures r.NaN? <==> !BeginsInteger(TrimStart(s))
    ensures !r.Infinity?
    ensures r.Finite? ==> IsInteger(r.value)
  {
    var t := TrimStart(s);
    var k := SignLength(t);
    var a := DigitRunEnd(t, k);
    if a == k then NaN
    else
      var n := DigitsValue(t[k..a]);
      assert IsInteger(Signed(HasMinus(t), n as real)) by {
        assert (n as real).Floor == n;
        assert (-(n as real)).Floor == -(n as int);
      }
      Finite(Signed(HasMinus(t), n as real))
  }

  // ---------------------------------------------------------------------
  // Reading back rendered literals

  /** The decimal digits of `n`, most significant first. */
  function NatToString(n: nat): (ds: string)
    ensures AllDigits(ds) && ds != []
    decreases n
  {
    if n < 10 then ['0' + n as char] else NatToString(n / 10) + ['0' + (n % 10) as char]
  }

  /** Writing a natural number in decimal and reading the digits back gives
      the number. */
  lemma {:induction false} DigitsOfNat(n: nat)
    ensures DigitsValue(NatToString(n)) == n
    decreases n
  {
    var ds := NatToString(n);
    if n >= 10 {
      DigitsOfNat(n / 10);
      assert ds[..|ds| - 1] == NatToString(n / 10);
    }
  }

  /** An integer as decimal text, with a leading `-` when negative. */
  function IntToString(i: int): string {
    (if i < 0 then "-" else "") + NatToString(if i < 0 then -i else i)
  }

  /** `DigitRunEnd` stops exactly after a known run of digits. */
  lemma {:induction false} DigitRunEndAt(t: string, i: nat, ds: string)
    requires AllDigits(ds) && i + |ds| <= |t| && t[i..i + |ds|] == ds
    requires i + |ds| == |t| || !IsDigit(t[i + |ds|])
    ensures DigitRunEnd(t, i) == i + |ds|
    decreases |ds|
  {
    if ds != [] {
      assert t[i] == ds[0];
      assert t[i + 1..i + |ds|] == ds[1..];
      DigitRunEndAt(t, i + 1, ds[1..]);
    }
  }

  /** `parseInt` reads back the decimal text of any integer, whatever
      non-digit text follows it (a unit, a note marker, a decimal part). */
  lemma {:induction false} ParseIntReadsInteger(i: int, rest: string)
    requires rest == [] || !IsDigit(rest[0])
    ensures ParseInt(IntToString(i) + rest) == Finite(i as real)
  {
    var n: nat := if i < 0 then -i else i;
    var ds := NatToString(n);
    var t := IntToString(i) + rest;
    assert t == (if i < 0 then "-" else "") + ds + rest;
    SignedDigitsLayout(i < 0, ds, rest);
    ParseIntOfDigits(t, ds);
    DigitsOfNat(n);
  }

  /** `parseInt` reads back the decimal text of any integer on its own. */
  lemma ParseIntReadsWholeInteger(i: int)
    ensures ParseInt(IntToString(i)) == Finite(i as real)
  {
    ParseIntReadsInteger(i, []);
    assert IntToString(i) + [] == IntToString(i);
  }

  /** `parseFloat` and `parseInt` pass over leading white space, so every
      read-back here also holds for text that a line break and indentation
      precede (`"\n  6.941"`). */
  lemma ParseSkipsWhite(w: string, s: string)
    requires AllWhite(w)
    ensures ParseFloat(w + s) == ParseFloat(s)
    ensures ParseInt(w + s) == ParseInt(s)
  {
    TrimStartSkipsWhite(w, s);
  }

  /** `parseInt` reads back an integer with white space in front of it and
      non-digit text after it. */
  lemma IndentedIntegerReads(w: string, i: int, rest: string)
    requires AllWhite(w) && (rest == [] || !IsDigit(rest[0]))
    ensures ParseInt(w + IntToString(i) + rest) == Finite(i as real)
  {
    assert w + IntToString(i) + rest == w + (IntToString(i) + rest);
    ParseSkipsWhite(w, IntToString(i) + rest);
    ParseIntReadsInteger(i, rest);
  }

  /** Where the sign and the digits lie in a signed run of digits followed
      by a non-digit. */
  lemma SignedDigitsLayout(negative: bool, ds: string, rest: string)
    requires AllDigits(ds) && ds != [] && (rest == [] || !IsDigit(rest[0]))
    ensures var sign := if negative then "-" else "";
            var t := sign + ds + rest;
            var a := |sign| + |ds|;
            && t != [] && !IsWhite(t[0])
            && SignLength(t) == |sign| && HasMinus(t) == negative
            && a <= |t| && t[|sign|..a] == ds && (a == |t| || !IsDigit(t[a]))
  {
    var sign := if negative then "-" else "";
    var r := ds + rest;
    var t := sign + r;
    assert t == sign + ds + rest;
    assert t[|sign|..] == r;
    assert t[|sign|] == r[0] == ds[0];
    assert IsDigit(ds[0]);
    assert negative ==> t[0] == '-';
    assert !negative ==> t[0] == ds[0] && t[0] != '+' && t[0] != '-';
    LiteralCharNotWhite(t[0]);
    assert t[|sign|..|sign| + |ds|] == r[..|ds|] == ds;
    if |sign| + |ds| < |t| {
      assert t[|sign| + |ds|] == r[|ds|] == rest[0];
    }
  }

  /** `parseInt` on text with no leading white space that starts with an
      optional sign and then a known maximal run of digits. */
  lemma ParseIntOfDigits(t: string, ds: string)
    requires t != [] && !IsWhite(t[0])
    requires AllDigits(ds) && ds != []
    requires SignLength(t) + |ds| <= |t| && t[SignLength(t)..SignLength(t) + |ds|] == ds
    requires SignLength(t) + |ds| == |t| || !IsDigit(t[SignLength(t) + |ds|])
    ensures ParseInt(t) == Finite(Signed(HasMinus(t), DigitsValue(ds) as real))
  {
    assert TrimStart(t) == t;
    DigitRunEndAt(t, SignLength(t), ds);
  }

  /** A decimal literal in the form the cells print it: sign, whole digits,
      optional point with fraction digits, optional exponent with its sign
      and digits. */
  datatype Literal = Literal(negative: bool, whole: string, fraction: Option<string>, exponent: Option<(bool, string)>)

  /** The digit strings are digits, some digit precedes or follows the
      point, and an exponent has at least one digit. */
  predicate WellFormed(l: Literal) {
    && AllDigits(l.whole)
    && (l.fraction.Some? ==> AllDigits(l.fraction.value))
    && (l.whole != [] || (l.fraction.Some? && l.fraction.value != []))
    && (l.exponent.Some? ==> AllDigits(l.exponent.value.1) && l.exponent.value.1 != [])
  }

  function FractionDigits(l: Literal): string {
    if l.fraction.Some? then l.fraction.value else ""
  }

  function ExponentText(l: Literal): string {
    match l.exponent
    case None => ""
    case Some((neg, ds)) => "e" + (if neg then "-" else "") + ds
  }

  function Render(l: Literal): string {
    (if l.negative then "-" else "") + l.whole
    + (if l.fraction.Some? then "." + l.fraction.value else "")
    + ExponentText(l)
  }

  /** The mathematical value of a well-formed literal. */
  function LiteralValue(l: Literal): real
    requires WellFormed(l)
  {
    Signed(l.negative, Scale(Mantissa(l.whole, FractionDigits(l)), LiteralExponent(l)))
  }

  function LiteralExponent(l: Literal): int
    requires WellFormed(l)
  {
    match l.exponent
    case None => 0
    case Some((neg, ds)) => SignedInt(neg, DigitsValue(ds))
  }

  /** `rest` cannot continue the literal: it does not start with a digit, nor
      with a point when the literal has none, nor with an exponent marker when
      the literal has no exponent. */
  predicate Stops(l: Literal, rest: string) {
    rest == [] ||
    (&& !IsDigit(rest[0])
     && (l.fraction.None? ==> rest[0] != '.')
     && (l.exponent.None? ==> rest[0] != 'e' && rest[0] != 'E'))
  }

  /** An exponent part `e`, optional `-`, digits, followed by a non-digit,
      is read back exactly. */
  lemma ExponentPartReads(t: string, c: nat, neg: bool, ds: string)
    requires AllDigits(ds) && ds != []
    requires var k := c + 1 + (if neg then 1 else 0);
             && k + |ds| <= |t| && t[c] == 'e' && (neg ==> t[c + 1] == '-')
             && t[k..k + |ds|] == ds && (k + |ds| == |t| || !IsDigit(t[k + |ds|]))
    ensures ExponentPart(t, c).1 == SignedInt(neg, DigitsValue(ds))
  {
    var k := c + 1 + (if neg then 1 else 0);
    var minus := c + 1 < |t| && t[c + 1] == '-';
    assert minus == neg && (if c + 1 < |t| && (t[c + 1] == '+' || minus) then c + 2 else c + 1) == k by {
      if !neg {
        assert t[k] == t[k..k + |ds|][0] == ds[0];
      }
    }
    assert DigitRunEnd(t, k) == k + |ds| by {
      DigitRunEndAt(t, k, ds);
    }
    ExponentPartAt(t, c, minus, k, ds);
  }

  /** The exponent part once its marker, sign and digit run are located. */
  lemma ExponentPartAt(t: string, c: nat, minus: bool, k: nat, ds: string)
    requires c < |t| && t[c] == 'e'
    requires minus == (c + 1 < |t| && t[c + 1] == '-')
    requires k == (if c + 1 < |t| && (t[c + 1] == '+' || minus) then c + 2 else c + 1)
    requires ds != [] && AllDigits(ds) && k + |ds| <= |t| && t[k..k + |ds|] == ds
    requires DigitRunEnd(t, k) == k + |ds|
    ensures ExponentPart(t, c).1 == SignedInt(minus, DigitsValue(ds))
  {
  }

  /** The scan of a literal whose whole digits, point and fraction digits
      are known. */
  lemma ScanDecimalOf(t: string, whole: string, dot: bool, fd: string)
    requires AllDigits(whole) && AllDigits(fd) && (!dot ==> fd == [])
    requires var a := SignLength(t) + |whole|;
             && a <= |t| && t[SignLength(t)..a] == whole && (a == |t| || !IsDigit(t[a]))
             && (dot <==> a < |t| && t[a] == '.')
             && (dot ==> a + 1 + |fd| <= |t| && t[a + 1..a + 1 + |fd|] == fd
                         && (a + 1 + |fd| == |t| || !IsDigit(t[a + 1 + |fd|])))
    ensures var k := SignLength(t);
            var a := k + |whole|;
            ScanDecimal(t) == if dot then Span(k, a, a + 1, a + 1 + |fd|) else Span(k, a, a, a)
  {
    var k := SignLength(t);
    var a := k + |whole|;
    DigitRunEndAt(t, k, whole);
    if dot {
      DigitRunEndAt(t, a + 1, fd);
    }
  }

  /** `t` has no leading white space and starts with an optional sign, the
      maximal digit run `whole`, and, when `dot`, a point followed by the
      maximal digit run `fd`; the literal part before any exponent ends at `c`. */
  predicate PartsAt(t: string, whole: string, dot: bool, fd: string, c: nat) {
    var a := SignLength(t) + |whole|;
    && t != [] && !IsWhite(t[0]) && !OccursAt(t, "Infinity", SignLength(t))
    && AllDigits(whole) && AllDigits(fd) && (whole != [] || fd != [])
    && (!dot ==> fd == [])
    && a <= |t| && t[SignLength(t)..a] == whole && (a == |t| || !IsDigit(t[a]))
    && (dot <==> a < |t| && t[a] == '.')
    && (dot ==> a + 1 + |fd| <= |t| && t[a + 1..a + 1 + |fd|] == fd
                && (a + 1 + |fd| == |t| || !IsDigit(t[a + 1 + |fd|])))
    && c == a + (if dot then 1 + |fd| else 0)
  }

  /** `parseFloat` on text whose sign, whole digits and optional point with
      fraction digits are known. */
  lemma ParseFloatOfParts(t: string, whole: string, dot: bool, fd: string, c: nat)
    requires PartsAt(t, whole, dot, fd, c)
    ensures c <= |t|
    ensures ParseFloat(t) == Finite(Signed(HasMinus(t), Scale(Mantissa(whole, fd), ExponentPart(t, c).1)))
  {
    assert TrimStart(t) == t;
    ScanDecimalOf(t, whole, dot, fd);
    var sp := ScanDecimal(t);
    assert t[sp.k..sp.a] == whole;
    assert t[sp.b..sp.c] == fd;
    assert ParseFloat(t) == Finite(SpanValue(t, sp));
    assert sp.c == c;
    assert Mantissa(t[sp.k..sp.a], t[sp.b..sp.c]) == Mantissa(whole, fd);
  }

  /** `parseFloat` reads back every rendered decimal literal, whatever text
      that cannot extend it follows (a unit, a percent sign, a note marker). */
  lemma {:induction false} ParseFloatReadsLiteral(l: Literal, rest: string)
    requires WellFormed(l) && Stops(l, rest)
    ensures ParseFloat(Render(l) + rest) == Finite(LiteralValue(l))
  {
    var t := Render(l) + rest;
    var c := LiteralLayout(l, rest);
    ParseFloatOfParts(t, l.whole, l.fraction.Some?, FractionDigits(l), c);
    LiteralExponentReads(l, t, c, rest);
  }

  /** Where the parts of a rendered literal lie in the text that starts with it. */
  lemma LiteralLayout(l: Literal, rest: string) returns (c: nat)
    requires WellFormed(l) && Stops(l, rest)
    ensures var t := Render(l) + rest;
            && PartsAt(t, l.whole, l.fraction.Some?, FractionDigits(l), c)
            && HasMinus(t) == l.negative
            && t[c..] == ExponentText(l) + rest
  {
    var dot := l.fraction.Some?;
    var fd := FractionDigits(l);
    var tail := ExponentText(l) + rest;
    assert Render(l) + rest == (if l.negative then "-" else "") + l.whole + (if dot then "." + fd else "") + tail;
    assert tail == [] || (!IsDigit(tail[0]) && (!dot ==> tail[0] != '.'));
    c := PartsOfConcat(l.negative, l.whole, dot, fd, tail);
  }

  /** Sign, whole digits, optional point with fraction digits, then text
      that cannot extend the literal. */
  lemma PartsOfConcat(negative: bool, whole: string, dot: bool, fd: string, tail: string) returns (c: nat)
    requires AllDigits(whole) && AllDigits(fd) && (!dot ==> fd == []) && (whole != [] || fd != [])
    requires tail == [] || (!IsDigit(tail[0]) && (!dot ==> tail[0] != '.'))
    ensures var t := (if negative then "-" else "") + whole + (if dot then "." + fd else "") + tail;
            && PartsAt(t, whole, dot, fd, c)
            && HasMinus(t) == negative
            && t[c..] == tail
  {
    var sign := if negative then "-" else "";
    var frac := if dot then "." + fd else "";
    var t := sign + whole + frac + tail;
    var a := |sign| + |whole|;
    c := a + |frac|;
    ConcatSlices(sign, whole, frac, tail);
    LiteralStart(negative, whole, frac, tail);
    if dot {
      PointLayout(t, a, fd, tail);
    } else {
      assert t[a..] == tail;
    }
  }

  /** The slices of a four-part concatenation are its parts. */
  lemma ConcatSlices(p: string, q: string, u: string, v: string)
    ensures var t := p + q + u + v;
            && t[..|p|] == p && t[|p|..|p| + |q|] == q
            && t[|p| + |q|..|p| + |q| + |u|] == u && t[|p| + |q| + |u|..] == v
            && t[|p| + |q|..] == u + v
  {
  }

  /** A text whose first character is a letter other than the `I` of
      `Infinity` has no numeric prefix. */
  lemma LetterStartIsNaN(s: string)
    requires s != [] && 'A' <= s[0] <= 'Z' && s[0] != 'I'
    ensures ParseFloat(s).NaN?
  {
    assert TrimStart(s) == s by {
      assert !IsWhite(s[0]);
    }
    assert !OccursAt(s, "Infinity", 0) by {
      if |s| >= 8 {
        assert s[0..8][0] == s[0];
      }
    }
  }

  /** The characters a literal can start with are not white space. */
  lemma LiteralCharNotWhite(ch: char)
    requires IsDigit(ch) || ch == '-' || ch == '.'
    ensures !IsWhite(ch)
  {
  }

  /** A rendered literal holds only digits, `-`, `.` and `e`. */
  lemma LiteralLacks(l: Literal, c: char)
    requires WellFormed(l) && !IsDigit(c) && c != '-' && c != '.' && c != 'e'
    ensures c !in Render(l)
  {
    var sign := if l.negative then "-" else "";
    var frac := if l.fraction.Some? then "." + l.fraction.value else "";
    assert Render(l) == sign + l.whole + frac + ExponentText(l);
    assert c !in l.whole by {
      forall k | 0 <= k < |l.whole| ensures l.whole[k] != c {
        assert IsDigit(l.whole[k]);
      }
    }
    assert c !in frac by {
      if l.fraction.Some? {
        forall k | 0 <= k < |l.fraction.value| ensures l.fraction.value[k] != c {
          assert IsDigit(l.fraction.value[k]);
        }
        assert frac == ['.'] + l.fraction.value;
      }
    }
    assert c !in ExponentText(l) by {
      if l.exponent.Some? {
        var ds := l.exponent.value.1;
        forall k | 0 <= k < |ds| ensures ds[k] != c {
          assert IsDigit(ds[k]);
        }
        assert ExponentText(l) == ['e'] + (if l.exponent.value.0 then "-" else "") + ds;
      }
    }
  }

  /** The literal Number::toString writes for an integer: its sign and
      digits, with neither point nor exponent. */
  function IntegerLiteral(i: int): Literal {
    Literal(i < 0, NatToString(if i < 0 then -i else i), None, None)
  }

  /** An integer's literal is well formed, renders as its text and has its
      value. */
  lemma IntegerLiteralReads(i: int)
    ensures WellFormed(IntegerLiteral(i))
    ensures Render(IntegerLiteral(i)) == IntToString(i)
    ensures LiteralValue(IntegerLiteral(i)) == i as real
  {
    IntegerLiteralRenders(i);
    IntegerLiteralValue(i);
  }

  lemma IntegerLiteralRenders(i: int)
    ensures Render(IntegerLiteral(i)) == IntToString(i)
  {
    var l := IntegerLiteral(i);
    assert ExponentText(l) == "";
    assert Render(l) == (if i < 0 then "-" else "") + l.whole + "" + "";
  }

  lemma IntegerLiteralValue(i: int)
    ensures WellFormed(IntegerLiteral(i))
    ensures LiteralValue(IntegerLiteral(i)) == i as real
  {
    var l := IntegerLiteral(i);
    var n: nat := if i < 0 then -i else i;
    assert WellFormed(l);
    assert Mantissa(l.whole, FractionDigits(l)) == n as real by {
      assert FractionDigits(l) == "";
      assert Fraction("") == 0.0;
      DigitsOfNat(n);
    }
    assert LiteralExponent(l) == 0;
    assert Scale(n as real, 0) == n as real;
  }

  /** A natural number's literal given the exponent `e` has the value
      `i`·10^e. */
  lemma IntegerLiteralWithExponent(i: nat, e: nat)
    ensures var l := IntegerLiteral(i).(exponent := Some((false, NatToString(e))));
            WellFormed(l) && LiteralValue(l) == (i * Pow10(e)) as real
  {
    var l := IntegerLiteral(i).(exponent := Some((false, NatToString(e))));
    var p := Pow10(e);
    assert WellFormed(l);
    assert Mantissa(l.whole, FractionDigits(l)) == i as real by {
      assert l.whole == NatToString(i) && FractionDigits(l) == "";
      assert Fraction("") == 0.0;
      DigitsOfNat(i);
    }
    assert LiteralExponent(l) == e by {
      DigitsOfNat(e);
    }
    ScaleNatural(i, e);
  }

  /** Scaling a natural number up by ten to the `e` stays integral. */
  lemma ScaleNatural(n: nat, e: nat)
    ensures Scale(n as real, e) == (n * Pow10(e)) as real
  {
    var p := Pow10(e);
    assert Scale(n as real, e) == (n as real) * (p as real);
  }

  /** A product of naturals is a natural. */
  lemma NaturalProduct(a: nat, b: nat)
    ensures a * b >= 0
  {
  }

  /** A positive exponent makes a positive number larger. */
  lemma PowerGrows(i: nat, e: nat)
    requires i != 0 && e != 0
    ensures i * Pow10(e) > i
  {
    assert Pow10(e) == 10 * Pow10(e - 1) >= 10;
    assert i * Pow10(e) >= i * 10;
  }

  /** A literal starts with an optional minus and then a digit or a point,
      so it is neither white space nor the word `Infinity`. */
  lemma LiteralStart(negative: bool, whole: string, frac: string, tail: string)
    requires AllDigits(whole) && (whole != [] || (frac != [] && frac[0] == '.'))
    ensures var sign := if negative then "-" else "";
            var t := sign + whole + frac + tail;
            && t != [] && !IsWhite(t[0])
            && SignLength(t) == |sign| && HasMinus(t) == negative
            && !OccursAt(t, "Infinity", SignLength(t))
  {
    var sign := if negative then "-" else "";
    var r := whole + frac + tail;
    var t := sign + r;
    assert t == sign + whole + frac + tail;
    assert r[0] == '.' || IsDigit(r[0]);
    assert t[|sign|] == r[0];
    LiteralCharNotWhite(t[0]);
  }

  /** A point, fraction digits, and text that does not start with a digit. */
  lemma PointLayout(t: string, a: nat, fd: string, tail: string)
    requires a <= |t| && t[a..] == "." + fd + tail
    requires AllDigits(fd) && (tail == [] || !IsDigit(tail[0]))
    ensures a < |t| && t[a] == '.'
    ensures a + 1 + |fd| <= |t| && t[a + 1..a + 1 + |fd|] == fd
    ensures a + 1 + |fd| == |t| || !IsDigit(t[a + 1 + |fd|])
  {
    var u := t[a..];
    assert t[a] == u[0];
    assert t[a + 1..a + 1 + |fd|] == u[1..1 + |fd|];
    if a + 1 + |fd| < |t| {
      assert t[a + 1 + |fd|] == u[1 + |fd|] == tail[0];
    }
  }

  /** The exponent text of a literal, followed by text that stops it, is read
      back as the literal's exponent. */
  lemma LiteralExponentReads(l: Literal, t: string, c: nat, rest: string)
    requires WellFormed(l) && Stops(l, rest)
    requires c <= |t| && t[c..] == ExponentText(l) + rest
    ensures ExponentPart(t, c).1 == LiteralExponent(l)
  {
    var x := ExponentText(l);
    match l.exponent
    case None =>
      assert c == |t| || t[c] == rest[0];
    case Some((neg, ds)) =>
      var sign := if neg then "-" else "";
      var k := c + 1 + |sign|;
      var u := t[c..];
      assert x == "e" + sign + ds;
      assert u == "e" + sign + (ds + rest);
      assert t[c] == u[0] == 'e';
      assert neg ==> t[c + 1] == u[1] == '-';
      assert u[1 + |sign|..] == ds + rest;
      assert t[k..] == u[1 + |sign|..];
      assert t[k..k + |ds|] == (ds + rest)[..|ds|] == ds;
      assert k + |ds| == |t| || t[k + |ds|] == (ds + rest)[|ds|] == rest[0];
      ExponentPartReads(t, c, neg, ds);
  }

  // ---------------------------------------------------------------------
  // parseInt applied to a number

  function Abs(x: real): real {
    if x < 0.0 then -x else x
  }

  /** Truncation toward zero. */
  function Trunc(x: real): (r: int)
    ensures x >= 0.0 ==> 0 <= r && r as real <= x < r as real + 1.0
    ensures x < 0.0 ==> r <= 0 && r as real - 1.0 < x <= r as real
  {
    if x >= 0.0 then x.Floor else -((-x).Floor)
  }

  /** Number::toString (section 6.1.6.1.20 of ECMA-262) writes `x` in plain
      decimal notation exactly when it is zero or 1e-6 <= |x| < 1e21. */
  predicate InDecimalRange(x: real) {
    x == 0.0 || (0.000001 <= Abs(x) < 1000000000000000000000.0)
  }

  /** Moves a positive number into [1, 10) by powers of ten, going down. */
  function DecadeDown(x: real): (r: (real, int))
    requires x >= 1.0
    ensures 1.0 <= r.0 < 10.0 && r.0 == Scale(x, r.1)
    decreases x.Floor
  {
    if x < 10.0 then (assert Scale(x, 0) == x; (x, 0))
    else
      var (y, k) := DecadeDown(x / 10.0);
      ScaleTimesTen(x / 10.0, k - 1);
      assert (x / 10.0) * 10.0 == x;
      (y, k - 1)
  }

  /** Moves a number in (0, 1) into [1, 10) by powers of ten, going up;
      `bound` is any natural number at least 1/x. */
  function DecadeUp(x: real, bound: nat): (r: (real, int))
    requires 0.0 < x < 1.0 && x * bound as real >= 1.0
    ensures 1.0 <= r.0 < 10.0 && r.0 == Scale(x, r.1)
    decreases bound
  {
    var y := x * 10.0;
    ScaleTimesTen(x, 0);
    if y >= 1.0 then (assert Scale(y, 0) == y; (y, 1))
    else
      assert bound >= 2;
      assert y * (bound - 1) as real >= 1.0 by {
        assert y * (bound - 1) as real == 10.0 * (x * bound as real) - y;
      }
      var (z, k) := DecadeUp(y, bound - 1);
      ScaleTimesTen(x, k);
      (z, k + 1)
  }

  lemma ScaleTimesTen(x: real, k: int)
    ensures Scale(x * 10.0, k) == Scale(x, k + 1)
  {
    if k >= 0 {
      assert Pow10(k + 1) == 10 * Pow10(k);
    } else if k == -1 {
      assert Pow10(1) == 10;
    } else {
      var q := Pow10(-k - 1) as real;
      assert Pow10(-k) as real == 10.0 * q;
      CancelTen(x, q);
    }
  }

  lemma CancelTen(x: real, q: real)
    requires q > 0.0
    ensures (x * 10.0) / (10.0 * q) == x / q
  {
    var y := x / q;
    assert x == y * q;
    assert x * 10.0 == y * (10.0 * q);
  }

  /** The leading digit of a positive number's decimal expansion. */
  function LeadingDigit(x: real): (d: nat)
    requires x > 0.0
    ensures 1 <= d <= 9
    ensures exists k :: d as real <= Scale(x, k) < d as real + 1.0
  {
    var (y, k) := if x >= 1.0 then DecadeDown(x)
                  else (assert x * ((1.0 / x).Floor + 1) as real >= 1.0; DecadeUp(x, (1.0 / x).Floor + 1));
    y.Floor
  }

  /** `parseInt(x, 10)` for a number `x`, which reads the text of
      Number::toString(x): `NaN` for `NaN` and the infinities, truncation
      toward zero while the text is plain decimal, and only the leading digit
      (with the sign) once the text is in exponent notation. */
  function IntegerOfNumber(x: Number): (r: Number)
    ensures r.NaN? <==> !x.Finite?
    ensures x.Finite? && InDecimalRange(x.value) ==> r == Finite(Trunc(x.value) as real)
    ensures x.Finite? && !InDecimalRange(x.value) ==>
              r.Finite? && 1.0 <= Abs(r.value) <= 9.0 && (r.value < 0.0 <==> x.value < 0.0)
  {
    match x
    case NaN => NaN
    case Infinity(_) => NaN
    case Finite(v) =>
      if InDecimalRange(v) then Finite(Trunc(v) as real)
      else
        var d := LeadingDigit(Abs(v));
        Finite(if v < 0.0 then -(d as real) else d as real)
  }
}
