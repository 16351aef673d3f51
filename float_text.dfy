/**
 * Decimal text of the cutoff values.
 *
 * A cutoff is a Python float that is written out with its shortest
 * round-tripping text ("5.0", "4.25", "100.0"). This module models the
 * finite, non-negative values whose text has no exponent: a value is a
 * mantissa and a count of fractional digits, and the canonical form is the
 * one that text has (at least one fractional digit, no trailing zero after
 * the first one).
 */
module FloatText {
  import opened Wrappers

  /** The number mantissa / 10^places. */
  datatype Decimal = Decimal(mantissa: nat, places: nat)

  function Pow10(n: nat): (p: nat)
    ensures p >= 1
  {
    if n == 0 then 1 else 10 * Pow10(n - 1)
  }

  /** The real number a decimal stands for. */
  function Value(d: Decimal): real
  {
    d.mantissa as real / Pow10(d.places) as real
  }

  /** The shape of the shortest text of a float: "5.0" but not "5" or "5.00". */
  predicate Canonical(d: Decimal)
  {
    d.places >= 1 && (d.places == 1 || d.mantissa % 10 != 0)
  }

  /** A cutoff value, always held in canonical form. */
  type Num = d: Decimal | Canonical(d) witness Decimal(0, 1)

  predicate IsDigit(c: char)
  {
    '0' <= c <= '9'
  }

  predicate AllDigits(s: string)
  {
    forall i | 0 <= i < |s| :: IsDigit(s[i])
  }

  function DigitChar(d: nat): (c: char)
    requires d < 10
    ensures IsDigit(c) && c as int - '0' as int == d
  {
    ('0' as int + d) as char
  }

  function DigitValue(c: char): nat
    requires IsDigit(c)
  {
    c as int - '0' as int
  }

  /** The last w decimal digits of n, padded with zeros on the left. */
  function FixedDigits(n: nat, w: nat): (s: string)
    ensures |s| == w && AllDigits(s)
    decreases w
  {
    if w == 0 then "" else FixedDigits(n / 10, w - 1) + [DigitChar(n % 10)]
  }

  /** How many digits n has in decimal. */
  function NumDigits(n: nat): (k: nat)
    ensures k >= 1 && n < Pow10(k)
  {
    if n < 10 then 1 else 1 + NumDigits(n / 10)
  }

  /** Decimal text of n without leading zeros ("0" for zero). */
  function NatDigits(n: nat): (s: string)
    ensures |s| >= 1 && AllDigits(s)
  {
    FixedDigits(n, NumDigits(n))
  }

  /** The number a string of digits denotes. */
  function DigitsValue(s: string): (v: nat)
    requires AllDigits(s)
    ensures v < Pow10(|s|)
    decreases |s|
  {
    if s == [] then 0 else 10 * DigitsValue(s[..|s| - 1]) + DigitValue(s[|s| - 1])
  }

  /** The characters a formatted number is made of. */
  predicate NumberChars(s: string)
  {
    forall i | 0 <= i < |s| :: IsDigit(s[i]) || s[i] == '.'
  }

  /** The text of a cutoff value: integer digits, a point, the fractional digits. */
  function Format(d: Num): (s: string)
    ensures |s| >= 3 && NumberChars(s)
  {
    Dotted(NatDigits(WholePart(d)), FixedDigits(d.mantissa, d.places))
  }

  /** The digits before the point. */
  function WholePart(d: Decimal): nat
  {
    var p := Pow10(d.places);
    DivMod(d.mantissa, p);
    d.mantissa / p
  }

  function Dotted(whole: string, frac: string): string
  {
    whole + "." + frac
  }

  /** Index of the first '.' in s, or |s| when there is none. */
  function DotIndex(s: string): (k: nat)
    ensures k <= |s|
    ensures forall i | 0 <= i < k :: s[i] != '.'
    ensures k < |s| ==> s[k] == '.'
  {
    if s == [] || s[0] == '.' then 0 else 1 + DotIndex(s[1..])
  }

  /** The canonical decimal with the same value: the form Python's float keeps. */
  function Normalize(d: Decimal): (r: Num)
    decreases d.places
  {
    if d.places == 0 then
      Decimal(d.mantissa * 10, 1)
    else if d.places == 1 || d.mantissa % 10 != 0 then
      d
    else
      Normalize(Decimal(d.mantissa / 10, d.places - 1))
  }

  /** Normalizing keeps the value. */
  lemma {:induction false} NormalizeValue(d: Decimal)
    ensures Value(Normalize(d)) == Value(d)
    decreases d.places
  {
    if d.places == 0 {
      assert Pow10(1) == 10;
      assert (d.mantissa * 10) as real / 10.0 == d.mantissa as real / 1.0;
    } else if d.places > 1 && d.mantissa % 10 == 0 {
      DropTrailingZero(d.mantissa, d.places - 1);
      NormalizeValue(Decimal(d.mantissa / 10, d.places - 1));
    }
  }

  lemma DropTrailingZero(m: nat, p: nat)
    requires m % 10 == 0
    ensures Value(Decimal(m / 10, p)) == Value(Decimal(m, p + 1))
  {
    var q := Pow10(p) as real;
    assert (m as real) == 10.0 * ((m / 10) as real);
    assert Pow10(p + 1) as real == 10.0 * q;
    calc {
      Value(Decimal(m, p + 1));
      (10.0 * ((m / 10) as real)) / (10.0 * q);
      ((m / 10) as real) / q;
    }
  }

  /**
   * A decimal literal as Python's float() reads it, restricted to the
   * non-negative, exponent-free texts: digits with at most one point and at
   * least one digit ("5", "5.", ".5", "5.25").
   */
  predicate DecimalLiteral(tok: string)
  {
    && NumberChars(tok)
    && (forall i, j | 0 <= i < j < |tok| && tok[i] == '.' :: tok[j] != '.')
    && (exists i | 0 <= i < |tok| :: IsDigit(tok[i]))
  }

  /** The digits before a literal's point; all of it when there is no point. */
  function WholeDigits(tok: string): string
  {
    tok[..DotIndex(tok)]
  }

  /** The digits after a literal's point; none when there is no point. */
  function FracDigits(tok: string): string
  {
    if DotIndex(tok) == |tok| then "" else tok[DotIndex(tok) + 1..]
  }

  /** Reads a cutoff value back from its text; None for anything else. */
  function Parse(tok: string): (r: Option<Num>)
    ensures r.Some? ==> AllDigits(WholeDigits(tok)) && AllDigits(FracDigits(tok))
  {
    var k := DotIndex(tok);
    if k == |tok| then
      if tok != [] && AllDigits(tok) then Some(Normalize(Decimal(DigitsValue(tok), 0))) else None
    else
      var whole, frac := tok[..k], tok[k + 1..];
      if AllDigits(whole) && AllDigits(frac) && |whole| + |frac| >= 1 then
        Some(Normalize(Assemble(whole, frac)))
      else
        None
  }

  /** What Parse reads is the number the literal's digits denote, in canonical form. */
  lemma ParseValue(tok: string)
    requires Parse(tok).Some?
    ensures Value(Parse(tok).value) == Value(Assemble(WholeDigits(tok), FracDigits(tok)))
  {
    if DotIndex(tok) == |tok| {
      assert WholeDigits(tok) + FracDigits(tok) == tok;
      NormalizeValue(Decimal(DigitsValue(tok), 0));
    } else {
      NormalizeValue(Assemble(WholeDigits(tok), FracDigits(tok)));
    }
  }

  /** The decimal written with integer digits `whole` and fractional digits `frac`. */
  function Assemble(whole: string, frac: string): (d: Decimal)
    requires AllDigits(whole) && AllDigits(frac)
  {
    Decimal(DigitsValue(whole + frac), |frac|)
  }

  // ---------------------------------------------------------------------
  // Arithmetic on digit strings

  lemma MulAtLeast(m: int, k: int)
    requires m > 0 && k >= 1
    ensures m * k >= m
  {
    if k > 1 {
      MulAtLeast(m, k - 1);
      assert m * k == m * (k - 1) + m;
    }
  }

  lemma ModUnique(x: int, m: int, a: int, c: int)
    requires m > 0 && 0 <= c < m && x == m * a + c
    ensures x % m == c && x / m == a
  {
    var q, r := x / m, x % m;
    assert x == m * q + r;
    assert m * q - m * a == c - r;
    if q > a {
      assert m * (q - a) == m * q - m * a;
      MulAtLeast(m, q - a);
      assert false;
    } else if q < a {
      assert m * (a - q) == m * a - m * q;
      MulAtLeast(m, a - q);
      assert false;
    }
  }

  lemma DivMod(x: nat, p: nat)
    requires p > 0
    ensures x == (x / p) * p + x % p
    ensures x / p >= 0
  {
  }

  lemma ModTen(n: nat, p: nat)
    requires p >= 1
    ensures 10 * ((n / 10) % p) + n % 10 == n % (10 * p)
  {
    var q := n / 10;
    var a, b := q / p, q % p;
    assert q == p * a + b;
    assert n == 10 * q + n % 10;
    assert n == (10 * p) * a + (10 * b + n % 10);
    ModUnique(n, 10 * p, a, 10 * b + n % 10);
  }

  lemma {:induction false} FixedDigitsValue(n: nat, w: nat)
    ensures DigitsValue(FixedDigits(n, w)) == n % Pow10(w)
  {
    if w > 0 {
      var s := FixedDigits(n, w);
      assert s[..|s| - 1] == FixedDigits(n / 10, w - 1);
      FixedDigitsValue(n / 10, w - 1);
      ModTen(n, Pow10(w - 1));
    }
  }

  /** Appending digits shifts the value left by their count. */
  lemma {:induction false} DigitsValueConcat(a: string, b: string)
    requires AllDigits(a) && AllDigits(b)
    ensures DigitsValue(a + b) == DigitsValue(a) * Pow10(|b|) + DigitsValue(b)
    decreases |b|
  {
    if b != [] {
      var ab, b' := a + b, b[..|b| - 1];
      var last := DigitValue(b[|b| - 1]);
      assert ab[..|ab| - 1] == a + b';
      assert ab[|ab| - 1] == b[|b| - 1];
      assert DigitsValue(ab) == 10 * DigitsValue(a + b') + last;
      assert DigitsValue(b) == 10 * DigitsValue(b') + last;
      DigitsValueConcat(a, b');
      var x, p := DigitsValue(a), Pow10(|b'|);
      assert Pow10(|b|) == 10 * p;
      MulTen(x, p);
    } else {
      assert a + b == a;
    }
  }

  lemma ConcatValue(whole: string, frac: string, x: nat, y: nat, p: nat)
    requires AllDigits(whole) && AllDigits(frac)
    requires DigitsValue(whole) == x && DigitsValue(frac) == y && Pow10(|frac|) == p
    ensures DigitsValue(whole + frac) == x * p + y
  {
    DigitsValueConcat(whole, frac);
  }

  lemma MulTen(x: nat, p: nat)
    ensures x * (10 * p) == 10 * (x * p)
  {
  }

  lemma NatDigitsValue(n: nat)
    ensures DigitsValue(NatDigits(n)) == n
  {
    FixedDigitsValue(n, NumDigits(n));
    ModUnique(n, Pow10(NumDigits(n)), 0, n);
  }

  /** A number written with more than one digit is at least the matching power of ten. */
  lemma {:induction false} NumDigitsLower(n: nat)
    ensures NumDigits(n) == 1 || Pow10(NumDigits(n) - 1) <= n
  {
    if n >= 10 {
      NumDigitsLower(n / 10);
    }
  }

  /** A number that needs all w digits does not start with '0'. */
  lemma {:induction false} LeadingDigit(n: nat, w: nat)
    requires w >= 1 && Pow10(w - 1) <= n < Pow10(w)
    ensures FixedDigits(n, w)[0] != '0'
  {
    if w > 1 {
      LeadingDigit(n / 10, w - 1);
      assert FixedDigits(n, w)[0] == FixedDigits(n / 10, w - 1)[0];
    }
  }

  // ---------------------------------------------------------------------
  // Properties of the text form

  /**
   * The text of a value is digits, one point, digits: the whole part has a
   * leading '0' only when it is the single digit "0", and the fraction ends
   * in '0' only when it is the single digit "0" ("5.0", "0.25", "120.5").
   */
  lemma FormatShape(d: Num)
    ensures var s := Format(d);
      exists k | 1 <= k <= |s| - 2 ::
        s[k] == '.' && AllDigits(s[..k]) && AllDigits(s[k + 1..])
        && (k == 1 || s[0] != '0') && (k == |s| - 2 || s[|s| - 1] != '0')
  {
    var q := WholePart(d);
    var whole := NatDigits(q);
    var frac := FixedDigits(d.mantissa, d.places);
    var s := Format(d);
    var k := |whole|;
    assert s == whole + "." + frac;
    assert s[..k] == whole && s[k + 1..] == frac;
    NumDigitsLower(q);
    if k > 1 {
      LeadingDigit(q, k);
      assert s[0] == whole[0];
    }
    if d.places > 1 {
      assert s[|s| - 1] == frac[|frac| - 1] == DigitChar(d.mantissa % 10);
    }
    assert s[k] == '.';
  }

  lemma DotIndexAfterDigits(whole: string, rest: string)
    requires AllDigits(whole) && |rest| > 0 && rest[0] == '.'
    ensures DotIndex(whole + rest) == |whole|
  {
    var s := whole + rest;
    var k := DotIndex(s);
    assert s[|whole|] == '.';
  }

  lemma ParseDotted(whole: string, frac: string)
    requires AllDigits(whole) && AllDigits(frac) && |whole| >= 1
    ensures Parse(whole + "." + frac) == Some(Normalize(Assemble(whole, frac)))
  {
    var s := whole + ("." + frac);
    assert s == whole + "." + frac;
    DotIndexAfterDigits(whole, "." + frac);
    assert s[..|whole|] == whole;
    assert s[|whole| + 1..] == frac;
  }

  /** Reading back the text of a value gives the same value. */
  lemma ParseFormat(d: Num)
    ensures Parse(Format(d)) == Some(d)
  {
    AssembleFormatted(d);
    ParseDottedCanonical(NatDigits(WholePart(d)), FixedDigits(d.mantissa, d.places), d);
  }

  lemma ParseDottedCanonical(whole: string, frac: string, d: Num)
    requires AllDigits(whole) && AllDigits(frac) && |whole| >= 1
    requires Assemble(whole, frac) == d
    ensures Parse(Dotted(whole, frac)) == Some(d)
  {
    ParseDotted(whole, frac);
  }

  /** The digits Format writes assemble back into the same decimal. */
  lemma AssembleFormatted(d: Num)
    ensures Assemble(NatDigits(WholePart(d)), FixedDigits(d.mantissa, d.places)) == d
  {
    var p := Pow10(d.places);
    var q := WholePart(d);
    var r := d.mantissa % p;
    WholePartSplit(d);
    NatDigitsValue(q);
    FixedDigitsValue(d.mantissa, d.places);
    AssembleSplit(NatDigits(q), FixedDigits(d.mantissa, d.places), q, r, p, d);
  }

  /** The mantissa is the whole part times 10^places plus the remainder. */
  lemma WholePartSplit(d: Decimal)
    ensures d.mantissa == WholePart(d) * Pow10(d.places) + d.mantissa % Pow10(d.places)
  {
    DivMod(d.mantissa, Pow10(d.places));
  }

  /** Whole digits of value q and p-scaled fractional digits of value r assemble to q * p + r. */
  lemma AssembleSplit(whole: string, frac: string, q: nat, r: nat, p: nat, d: Decimal)
    requires AllDigits(whole) && AllDigits(frac) && |frac| == d.places
    requires DigitsValue(whole) == q && DigitsValue(frac) == r && Pow10(|frac|) == p
    requires d.mantissa == q * p + r
    ensures Assemble(whole, frac) == d
  {
    ConcatValue(whole, frac, q, r, p);
  }

  /** Parse accepts exactly the decimal literals. */
  lemma ParseAcceptsExactly(tok: string)
    ensures Parse(tok).Some? <==> DecimalLiteral(tok)
  {
    var k := DotIndex(tok);
    if k == |tok| {
      if Parse(tok).Some? {
        assert IsDigit(tok[0]);
      }
      if DecimalLiteral(tok) {
        assert AllDigits(tok);
      }
    } else {
      var whole, frac := tok[..k], tok[k + 1..];
      if Parse(tok).Some? {
        assert forall i | 0 <= i < |tok| && i != k :: IsDigit(tok[i]) by {
          forall i | 0 <= i < |tok| && i != k ensures IsDigit(tok[i]) {
            if i < k { assert tok[i] == whole[i]; } else { assert tok[i] == frac[i - k - 1]; }
          }
        }
        if |whole| >= 1 { assert IsDigit(tok[0]); } else { assert IsDigit(tok[k + 1]); }
      }
      if DecimalLiteral(tok) {
        assert AllDigits(whole);
        assert AllDigits(frac) by {
          forall i | 0 <= i < |frac| ensures IsDigit(frac[i]) {
            assert frac[i] == tok[k + 1 + i];
          }
        }
        var i :| 0 <= i < |tok| && IsDigit(tok[i]);
        if i < k { assert whole[i] == tok[i]; } else { assert frac[i - k - 1] == tok[i]; }
      }
    }
  }

  /** Two canonical decimals with the same value are the same decimal. */
  lemma CanonicalUnique(a: Num, b: Num)
    requires Value(a) == Value(b)
    ensures a == b
  {
    if a.places < b.places {
      TrailingZeroWhenLonger(a, b);
      assert false;
    } else if b.places < a.places {
      TrailingZeroWhenLonger(b, a);
      assert false;
    } else {
      RealScale(a.mantissa, b.mantissa, Pow10(a.places), 1, Value(a));
    }
  }

  lemma Pow10Add(m: nat, n: nat)
    ensures Pow10(m + n) == Pow10(m) * Pow10(n)
  {
    if n > 0 {
      Pow10Add(m, n - 1);
    }
  }

  lemma RealScale(x: nat, y: nat, p: nat, k: nat, v: real)
    requires p > 0 && k > 0
    requires x as real / p as real == v
    requires y as real / (p * k) as real == v
    ensures y == x * k
  {
    assert x as real == v * p as real;
    assert (p * k) as real == (p as real) * (k as real);
    assert y as real == v * (p as real) * (k as real);
    assert (y as real) == (x as real) * (k as real);
  }

  /** The longer of two equal-valued decimals ends in a zero digit. */
  lemma TrailingZeroWhenLonger(a: Decimal, b: Decimal)
    requires Value(a) == Value(b) && a.places < b.places
    ensures b.mantissa % 10 == 0
  {
    var e := b.places - a.places;
    var pa, k := Pow10(a.places), Pow10(e);
    assert Pow10(b.places) == pa * k by { Pow10Add(a.places, e); }
    RealScale(a.mantissa, b.mantissa, pa, k, Value(a));
    assert k == 10 * Pow10(e - 1);
    TenFactor(b.mantissa, a.mantissa, Pow10(e - 1));
  }

  lemma TenFactor(y: nat, x: nat, t: nat)
    requires y == x * (10 * t)
    ensures y % 10 == 0
  {
    MulTen(x, t);
  }
}
