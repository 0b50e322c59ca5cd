/** The part of java.math.BigDecimal the registry uses: a fine is an exact
    decimal `unscaled * 10^-scale`; it is read from text with `new BigDecimal(String)`,
    compared with `compareTo`, and rounded with `setScale(2, ROUND_HALF_UP)`. */
module Decimals {
  import opened Wrappers
  import opened Text

  /** The number `unscaled / 10^scale`. Only non-negative scales arise from the
      plain notation read here. */
  datatype Decimal = Decimal(unscaled: int, scale: nat)

  function Pow10(n: nat): (p: nat)
    ensures p >= 1
  {
    if n == 0 then 1 else 10 * Pow10(n - 1)
  }

  lemma {:induction false} Pow10Add(a: nat, b: nat)
    ensures Pow10(a + b) == Pow10(a) * Pow10(b)
    decreases a
  {
    if a > 0 {
      Pow10Add(a - 1, b);
    }
  }

  /** The exact value a decimal denotes: the reference meaning of every operation below. */
  ghost function Value(d: Decimal): real {
    d.unscaled as real / Pow10(d.scale) as real
  }

  // ---------------------------------------------------------------------
  // compareTo
  // ---------------------------------------------------------------------

  /** `a.compareTo(b)`: the sign of `a - b`, computed by bringing both to the larger scale. */
  function CompareTo(a: Decimal, b: Decimal): (c: int)
    ensures -1 <= c <= 1
  {
    var s := if a.scale < b.scale then b.scale else a.scale;
    var x := a.unscaled * Pow10(s - a.scale);
    var y := b.unscaled * Pow10(s - b.scale);
    if x < y then -1 else if x == y then 0 else 1
  }

  // Facts of arithmetic the proofs below rely on.

  lemma CastMul(a: int, b: int)
    ensures (a * b) as real == a as real * b as real
  {}

  lemma RealCancel(x: real, a: real, b: real)
    requires a != 0.0 && b != 0.0
    ensures (x * b) / (a * b) == x / a
  {
    var q := x / a;
    assert q * a == x;
    assert q * (a * b) == x * b;
  }

  lemma DivMul(x: real, p: real)
    requires p != 0.0
    ensures (x / p) * p == x
  {}

  lemma MulPosMono(x: real, y: real, p: real)
    requires p > 0.0
    ensures x < y <==> x * p < y * p
    ensures x <= y <==> x * p <= y * p
  {}

  lemma MulMonoInt(p: int, a: int, b: int)
    requires p >= 0 && a <= b
    ensures p * a <= p * b
  {}

  /** Raising the scale while multiplying the unscaled value keeps the number. */
  lemma Rescale(u: int, s: nat, k: nat)
    ensures Value(Decimal(u * Pow10(k), s + k)) == Value(Decimal(u, s))
  {
    Pow10Add(s, k);
    CastMul(u, Pow10(k));
    CastMul(Pow10(s), Pow10(k));
    RealCancel(u as real, Pow10(s) as real, Pow10(k) as real);
  }

  /** At one scale, the order of the values is the order of the unscaled integers. */
  lemma SameScaleOrder(x: int, y: int, s: nat)
    ensures x < y <==> Value(Decimal(x, s)) < Value(Decimal(y, s))
    ensures x == y <==> Value(Decimal(x, s)) == Value(Decimal(y, s))
  {
    var p := Pow10(s) as real;
    var vx, vy := Value(Decimal(x, s)), Value(Decimal(y, s));
    DivMul(x as real, p);
    DivMul(y as real, p);
    MulPosMono(vx, vy, p);
  }

  /** `compareTo` orders decimals by the numbers they denote. */
  lemma CompareToIsValueOrder(a: Decimal, b: Decimal)
    ensures CompareTo(a, b) < 0 <==> Value(a) < Value(b)
    ensures CompareTo(a, b) == 0 <==> Value(a) == Value(b)
    ensures CompareTo(a, b) > 0 <==> Value(a) > Value(b)
  {
    var s := if a.scale < b.scale then b.scale else a.scale;
    var x := a.unscaled * Pow10(s - a.scale);
    var y := b.unscaled * Pow10(s - b.scale);
    Rescale(a.unscaled, a.scale, s - a.scale);
    Rescale(b.unscaled, b.scale, s - b.scale);
    assert Value(Decimal(x, s)) == Value(a);
    assert Value(Decimal(y, s)) == Value(b);
    SameScaleOrder(x, y, s);
  }

  // ---------------------------------------------------------------------
  // setScale(2, ROUND_HALF_UP)
  // ---------------------------------------------------------------------

  /** `c` is `100 * n / p` rounded to the nearest integer, a tie going up:
      `c - 1/2 <= 100 * n / p < c + 1/2`, multiplied out by `2 * p`. */
  predicate HalfUpBracket(n: int, p: int, c: int) {
    2 * p * c <= 200 * n + p < 2 * p * c + 2 * p
  }

  /** `n / p` rounded to an integer, half-way going up. */
  function HalfUpQuotient(n: nat, p: nat): nat
    requires p >= 1
  {
    if 2 * (n % p) >= p then n / p + 1 else n / p
  }

  /** `n / 10^s` rounded half-up to hundredths, as a count of hundredths. */
  function RoundedHundredths(n: nat, s: nat): (c: nat)
    ensures HalfUpBracket(n, Pow10(s), c)
  {
    if s <= 2 then
      ExactBracket(n, s);
      n * Pow10(2 - s)
    else
      RoundingBracket(n, s);
      HalfUpQuotient(n, Pow10(s - 2))
  }

  /** `d.setScale(2, ROUND_HALF_UP)`: to the nearest hundredth, a tie going away
      from zero, so a negative `d` rounds as the mirror image of `-d`. */
  function RoundHalfUp(d: Decimal): (r: Decimal)
    ensures r.scale == 2
    ensures d.unscaled >= 0 ==> HalfUpBracket(d.unscaled, Pow10(d.scale), r.unscaled)
    ensures d.unscaled < 0 ==> HalfUpBracket(-d.unscaled, Pow10(d.scale), -r.unscaled)
  {
    if d.unscaled < 0 then Decimal(-(RoundedHundredths(-d.unscaled, d.scale) as int), 2)
    else Decimal(RoundedHundredths(d.unscaled, d.scale), 2)
  }

  /** With at most two fraction digits nothing is rounded: the value is scaled up exactly. */
  lemma ExactBracket(n: nat, s: nat)
    requires s <= 2
    ensures HalfUpBracket(n, Pow10(s), n * Pow10(2 - s))
  {
    var p, k := Pow10(s), Pow10(2 - s);
    Pow10Add(s, 2 - s);
    assert Pow10(2) == 100;
    assert p * k == 100;
    assert 2 * p * (n * k) == 2 * n * (p * k);
  }

  /** The arithmetic behind one half-up rounding step of `n / 10^(s-2)`. */
  lemma RoundingBracket(n: nat, s: nat)
    requires s > 2
    ensures HalfUpBracket(n, Pow10(s), HalfUpQuotient(n, Pow10(s - 2)))
  {
    var p := Pow10(s - 2);
    Pow10Add(2, s - 2);
    assert Pow10(2) == 100;
    assert Pow10(s) == 100 * p;
    DivModNat(n, p);
    DivisionBracket(n, p, n / p, n % p, HalfUpQuotient(n, p));
  }

  /** Rounding the quotient `q` up exactly when the remainder is at least half of `p`
      brackets `n` at hundredths when `100 * p` is the scale. */
  lemma DivisionBracket(n: int, p: int, q: int, rem: int, m: int)
    requires p >= 1 && n == q * p + rem && 0 <= rem < p
    requires m == if 2 * rem >= p then q + 1 else q
    ensures HalfUpBracket(n, 100 * p, m)
  {
    assert 200 * n == 200 * p * q + 200 * rem;
    assert 2 * (100 * p) * m == 200 * p * m;
    if 2 * rem >= p {
      assert 200 * p * m == 200 * p * q + 200 * p;
    } else {
      assert 200 * p * m == 200 * p * q;
    }
  }


  lemma BracketNearest(n: int, p: int, c: int)
    requires p >= 1 && HalfUpBracket(n, p, c)
    ensures (c as real) / 100.0 - 0.005 <= (n as real) / (p as real) < (c as real) / 100.0 + 0.005
  {
    var pr, cr, nr := p as real, c as real, n as real;
    BracketAsReal(n, p, c);
    HundredthsScaled(cr, pr);
    DivMul(nr, pr);
    Sandwich(cr / 100.0 - 0.005, nr / pr, cr / 100.0 + 0.005, 200.0 * pr);
  }

  /** The bracket read over the reals. */
  lemma BracketAsReal(n: int, p: int, c: int)
    requires HalfUpBracket(n, p, c)
    ensures 2.0 * ((p as real) * (c as real)) - (p as real) <= 200.0 * (n as real)
    ensures 200.0 * (n as real) < 2.0 * ((p as real) * (c as real)) + (p as real)
  {
    CastMul(p, c);
  }

  /** Multiplying by a positive factor keeps a sandwich. */
  lemma Sandwich(lo: real, q: real, hi: real, k: real)
    requires k > 0.0 && lo * k <= q * k < hi * k
    ensures lo <= q < hi
  {
    MulPosMono(lo, q, k);
    MulPosMono(q, hi, k);
  }


  lemma HundredthsScaled(c: real, p: real)
    ensures (c / 100.0 - 0.005) * (200.0 * p) == 2.0 * (p * c) - p
    ensures (c / 100.0 + 0.005) * (200.0 * p) == 2.0 * (p * c) + p
  {
  }


  /** In terms of the numbers denoted: a non-negative fine moves by at most half a cent,
      and an exact half cent is rounded up. */
  lemma RoundHalfUpIsNearest(d: Decimal)
    requires d.unscaled >= 0
    ensures Value(RoundHalfUp(d)) - 0.005 <= Value(d) < Value(RoundHalfUp(d)) + 0.005
  {
    var r := RoundHalfUp(d);
    BracketNearest(d.unscaled, Pow10(d.scale), r.unscaled);
    assert Pow10(2) == 100;
  }

  lemma BracketBound(n: int, p: int, c: int)
    requires p >= 1 && 0 <= n <= 250 * p && HalfUpBracket(n, p, c)
    ensures 0 <= c <= 25000
  {
    assert 2 * p * c <= 50001 * p;
    if c > 25000 {
      MulMonoInt(p, 25001, c);
    }
    if c < 0 {
      MulMonoInt(p, c, -1);
    }
  }

  /** A fine in [0, 250] stays in [0.00, 250.00] after rounding; 249.995 becomes exactly 250.00. */
  lemma RoundedFineBound(d: Decimal)
    requires 0 <= d.unscaled <= 250 * Pow10(d.scale)
    ensures 0 <= RoundHalfUp(d).unscaled <= 25000
  {
    BracketBound(d.unscaled, Pow10(d.scale), RoundHalfUp(d).unscaled);
  }

  lemma RoundHalfUpExamples()
    ensures RoundHalfUp(Decimal(12345, 3)) == Decimal(1235, 2)   // 12.345 -> 12.35
    ensures RoundHalfUp(Decimal(12344, 3)) == Decimal(1234, 2)   // 12.344 -> 12.34
    ensures RoundHalfUp(Decimal(249995, 3)) == Decimal(25000, 2) // 249.995 -> 250.00
    ensures RoundHalfUp(Decimal(-5, 3)) == Decimal(-1, 2)        // -0.005 -> -0.01
    ensures RoundHalfUp(Decimal(7, 0)) == Decimal(700, 2)        // 7 -> 7.00
  {
    assert Pow10(1) == 10;
    assert Pow10(2) == 100;
    assert Pow10(3) == 1000;
  }

  // ---------------------------------------------------------------------
  // new BigDecimal(String), plain notation
  // ---------------------------------------------------------------------

  function DigitValue(c: char): (v: nat)
    requires IsDigit(c)
    ensures v < 10
  {
    c as int - '0' as int
  }

  function DigitChar(v: nat): (c: char)
    requires v < 10
    ensures IsDigit(c) && DigitValue(c) == v
  {
    ('0' as int + v) as char
  }

  /** The number a string of decimal digits spells, most significant digit first. */
  function DigitsValue(s: string): nat
    requires AllDigits(s)
  {
    if s == [] then 0 else DigitsValue(s[..|s| - 1]) * 10 + DigitValue(s[|s| - 1])
  }

  /** The position of the first '.' in `s`, scanning left to right. */
  function PointIndex(s: string): (r: Option<nat>)
    ensures r.None? ==> forall j :: 0 <= j < |s| ==> s[j] != '.'
    ensures r.Some? ==> r.value < |s| && s[r.value] == '.' && forall j :: 0 <= j < r.value ==> s[j] != '.'
  {
    if s == [] then None
    else if s[0] == '.' then Some(0)
    else match PointIndex(s[1..])
      case None => None
      case Some(i) => Some(i + 1)
  }

  /** A string without a point has no point index ... */
  lemma {:induction false} NoPoint(s: string)
    requires forall j :: 0 <= j < |s| ==> s[j] != '.'
    ensures PointIndex(s) == None
  {
    if s != [] {
      NoPoint(s[1..]);
    }
  }

  /** ... and otherwise its index is that of the first point. */
  lemma {:induction false} FirstPoint(s: string, i: nat)
    requires i < |s| && s[i] == '.'
    requires forall j :: 0 <= j < i ==> s[j] != '.'
    ensures PointIndex(s) == Some(i)
  {
    if i > 0 {
      FirstPoint(s[1..], i - 1);
    }
  }

  /** The digits of a significand without its sign: `digits`, `digits.`, `.digits` or
      `digits.digits`, with at least one digit in all. */
  function ParseUnsigned(body: string): (r: Option<Decimal>)
    ensures r.Some? ==> r.value.unscaled >= 0 && r.value.scale < |body|
  {
    match PointIndex(body)
    case None =>
      if body != [] && AllDigits(body) then Some(Decimal(DigitsValue(body), 0)) else None
    case Some(i) =>
      var whole, frac := body[..i], body[i + 1..];
      if AllDigits(whole) && AllDigits(frac) && |whole| + |frac| > 0 then
        Some(Decimal(DigitsValue(whole + frac), |frac|))
      else None
  }

  /** `new BigDecimal(s)` for plain notation: an optional `+` or `-`, then the digits.
      The scale is the number of digits after the point, so "10.00" is 1000 at scale 2.
      `None` stands for the NumberFormatException. */
  function ParseDecimal(s: string): (r: Option<Decimal>)
    ensures r.Some? ==> s != [] && (r.value.unscaled < 0 ==> s[0] == '-')
  {
    var signed := s != [] && (s[0] == '+' || s[0] == '-');
    var body := if signed then s[1..] else s;
    match ParseUnsigned(body)
    case None => None
    case Some(d) => Some(if signed && s[0] == '-' then Decimal(-d.unscaled, d.scale) else d)
  }

  // ---------------------------------------------------------------------
  // Plain rendering, the inverse of parsing
  // ---------------------------------------------------------------------

  /** The shortest digit string of `n`. */
  function NatDigits(n: nat): (s: string)
    ensures |s| >= 1 && AllDigits(s)
  {
    if n < 10 then [DigitChar(n)] else NatDigits(n / 10) + [DigitChar(n % 10)]
  }

  /** Exactly `k` digits for `v`, leading zeros kept: the digits after the point. */
  function FixedDigits(v: nat, k: nat): (s: string)
    ensures |s| == k && AllDigits(s)
  {
    if k == 0 then [] else FixedDigits(v / 10, k - 1) + [DigitChar(v % 10)]
  }

  /** The digits of `n` with a point placed `scale` digits from the right: the
      whole part, and for a positive scale a point followed by exactly `scale` digits. */
  function PlainDigits(n: nat, scale: nat): (s: string)
    ensures s != [] && IsDigit(s[0])
  {
    var p := Pow10(scale);
    DivModNat(n, p);
    var whole := NatDigits(n / p);
    assert (whole + (if scale == 0 then "" else "." + FixedDigits(n % p, scale)))[0] == whole[0];
    whole + (if scale == 0 then "" else "." + FixedDigits(n % p, scale))
  }

  /** `d` written in plain notation, as a fine would be written in an import file. */
  function Render(d: Decimal): (r: string)
    ensures r != [] && (r[0] == '-' <==> d.unscaled < 0)
  {
    if d.unscaled < 0 then "-" + PlainDigits(-d.unscaled, d.scale) else PlainDigits(d.unscaled, d.scale)
  }

  lemma {:induction false} NatDigitsValue(n: nat)
    ensures DigitsValue(NatDigits(n)) == n
    decreases n
  {
    if n >= 10 {
      NatDigitsValue(n / 10);
      var s := NatDigits(n);
      assert s[..|s| - 1] == NatDigits(n / 10);
    }
  }

  lemma {:induction false} FixedDigitsValue(v: nat, k: nat)
    requires v < Pow10(k)
    ensures DigitsValue(FixedDigits(v, k)) == v
    decreases k
  {
    if k > 0 {
      assert v / 10 < Pow10(k - 1);
      FixedDigitsValue(v / 10, k - 1);
      var s := FixedDigits(v, k);
      assert s[..|s| - 1] == FixedDigits(v / 10, k - 1);
    }
  }

  /** Reading digits left to right: appending `b` shifts the value of `a` by |b| places. */
  lemma {:induction false} DigitsAppend(a: string, b: string)
    requires AllDigits(a) && AllDigits(b)
    ensures AllDigits(a + b)
    ensures DigitsValue(a + b) == DigitsValue(a) * Pow10(|b|) + DigitsValue(b)
    decreases |b|
  {
    var ab := a + b;
    if b == [] {
      assert ab == a;
    } else {
      var init := b[..|b| - 1];
      assert ab[..|ab| - 1] == a + init;
      DigitsAppend(a, init);
      var x, y := DigitsValue(a), DigitsValue(init);
      assert DigitsValue(ab) == (x * Pow10(|init|) + y) * 10 + DigitValue(b[|b| - 1]);
      assert (x * Pow10(|init|) + y) * 10 == x * (Pow10(|init|) * 10) + y * 10 by {
        MulDistrib(x, Pow10(|init|), y);
      }
    }
  }

  lemma DivModNat(n: nat, p: int)
    requires p >= 1
    ensures 0 <= n / p <= n && 0 <= n % p < p && (n / p) * p + n % p == n
  {
  }

  lemma MulDistrib(x: int, p: int, y: int)
    ensures (x * p + y) * 10 == x * (p * 10) + y * 10
  {
  }

  lemma ParseWhole(digits: string)
    requires AllDigits(digits) && |digits| > 0
    ensures ParseUnsigned(digits) == Some(Decimal(DigitsValue(digits), 0))
  {
    NoPoint(digits);
  }

  lemma ParseFractionOf(body: string, whole: string, frac: string, digits: string)
    requires AllDigits(whole) && AllDigits(frac) && |whole| > 0
    requires body == whole + "." + frac && digits == whole + frac
    ensures AllDigits(digits)
    ensures ParseUnsigned(body) == Some(Decimal(DigitsValue(digits), |frac|))
  {
    assert body[|whole|] == '.' && body[..|whole|] == whole;
    FirstPoint(body, |whole|);
    assert body[|whole| + 1..] == frac;
  }

  /** An optional sign in front of an unsigned body that starts with a digit. */
  lemma ParseSigned(s: string, body: string, d: Decimal)
    requires body != [] && IsDigit(body[0]) && ParseUnsigned(body) == Some(d)
    requires s == body || s == "-" + body
    ensures ParseDecimal(s) == Some(if s == body then d else Decimal(-d.unscaled, d.scale))
  {
    if s != body {
      assert s[0] == '-' && s[1..] == body;
    }
  }

  /** The unsigned rendering reads back as `n` at `scale`. */
  lemma ParsePlain(n: nat, scale: nat)
    ensures ParseUnsigned(PlainDigits(n, scale)) == Some(Decimal(n, scale))
  {
    var p := Pow10(scale);
    DivModNat(n, p);
    var whole := NatDigits(n / p);
    NatDigitsValue(n / p);
    var frac := if scale == 0 then "" else FixedDigits(n % p, scale);
    assert DigitsValue(frac) == n % p by {
      if scale == 0 { assert p == 1; } else { FixedDigitsValue(n % p, scale); }
    }
    DigitsAppend(whole, frac);
    assert DigitsValue(whole + frac) == n;
    assert PlainDigits(n, scale) == PlainBody(whole, frac, scale != 0);
    UnsignedPlain(PlainDigits(n, scale), whole, frac, scale != 0);
  }

  /** Reading back a rendered decimal gives the same unscaled value and scale. */
  lemma ParseRender(d: Decimal)
    ensures ParseDecimal(Render(d)) == Some(d)
  {
    var n := if d.unscaled < 0 then -d.unscaled else d.unscaled;
    var body := PlainDigits(n, d.scale);
    ParsePlain(n, d.scale);
    if d.unscaled < 0 {
      assert Render(d) == "-" + body;
      assert Render(d) != body;
    } else {
      assert Render(d) == body;
    }
    ParseSigned(Render(d), body, Decimal(n, d.scale));
  }

  // The worked examples take their literals as parameters fixed by `requires`
  // rather than writing them in the `ensures`, so that the solver meets each
  // literal only where the proof uses it.

  /** The fine text of a well-formed import line: "10.00" is 1000 hundredths at scale 2. */
  lemma ParseTenPointZeroZero(s: string)
    requires s == "10.00"
    ensures ParseDecimal(s) == Some(Decimal(1000, 2))
  {
    var whole, frac, digits := "10", "00", "1000";
    ParseFractionOf(s, whole, frac, digits);
    assert DigitsValue(digits[..1]) == 1 by { assert digits[..1][..0] == []; }
    assert DigitsValue(digits[..2]) == 10 by { assert digits[..2][..1] == digits[..1]; }
    assert DigitsValue(digits[..3]) == 100 by { assert digits[..3][..2] == digits[..2]; }
    assert DigitsValue(digits) == 1000 by { assert digits[..|digits| - 1] == digits[..3]; }
    ParseSigned(s, s, Decimal(1000, 2));
  }

  /** A sign is read off the front: "-1" is -1 and "+250" is 250, both at scale 0. */
  lemma ParseSigns(minusOne: string, plus250: string)
    requires minusOne == "-1" && plus250 == "+250"
    ensures ParseDecimal(minusOne) == Some(Decimal(-1, 0))
    ensures ParseDecimal(plus250) == Some(Decimal(250, 0))
  {
    var one := minusOne[1..];
    ParseWhole(one);
    assert DigitsValue(one) == 1 by { assert one[..0] == []; }
    var digits := plus250[1..];
    ParseWhole(digits);
    assert DigitsValue(digits) == 250 by {
      assert DigitsValue(digits[..1]) == 2 by { assert digits[..1][..0] == []; }
      assert DigitsValue(digits[..2]) == 25 by { assert digits[..2][..1] == digits[..1]; }
      assert digits[..|digits| - 1] == digits[..2];
    }
  }

  /** A point with no digits before it is accepted: ".5" is 5 at scale 1. */
  lemma ParseBarePoint(s: string)
    requires s == ".5"
    ensures ParseDecimal(s) == Some(Decimal(5, 1))
  {
    FirstPoint(s, 0);
    var frac := s[1..];
    assert s[..0] == [] && frac == "5";
    assert DigitsValue([] + frac) == 5 by { assert ([] + frac)[..0] == []; }
  }

  lemma ParseRejects()
    ensures ParseDecimal("abc") == None
    ensures ParseDecimal("") == None
    ensures ParseDecimal(".") == None
    ensures ParseDecimal("1.2.3") == None
  {
    var abc, dot, three := "abc", ".", "1.2.3";
    NoPoint(abc);
    assert !IsDigit(abc[0]);
    NoPoint([]);
    FirstPoint(dot, 0);
    assert dot[..0] == [] && dot[1..] == [];
    FirstPoint(three, 1);
    assert three[2..][1] == '.';
  }

  // ---------------------------------------------------------------------
  // new BigDecimal(String) on every input in plain notation
  // ---------------------------------------------------------------------

  /** `s` is written in plain notation: a sign of "", "+" or "-", then the digits
      `whole`, then, when `pointed`, a point and the digits `frac`; at least one
      digit in all, and at least one before the end when there is no point. */
  predicate PlainNotation(s: string, sign: string, whole: string, frac: string, pointed: bool) {
    && (sign == "" || sign == "+" || sign == "-")
    && AllDigits(whole) && AllDigits(frac)
    && (if pointed then |whole| + |frac| > 0 else whole != [] && frac == [])
    && s == sign + PlainBody(whole, frac, pointed)
  }

  /** The digits after the sign: `whole`, then a point and `frac` when `pointed`. */
  function PlainBody(whole: string, frac: string, pointed: bool): string {
    if pointed then whole + "." + frac else whole
  }

  /** The decimal that plain notation spells: all its digits read as one integer,
      negated after a minus sign, at the scale of the digits after the point. */
  function PlainValue(sign: string, whole: string, frac: string): (d: Decimal)
    requires AllDigits(whole) && AllDigits(frac)
    ensures d.scale == |frac|
    ensures d.unscaled < 0 ==> sign == "-"
  {
    DigitsAppend(whole, frac);
    var n: int := DigitsValue(whole + frac);
    Decimal(if sign == "-" then -n else n, |frac|)
  }

  /** Read as a number, plain notation is its whole part plus its fraction digits
      over the matching power of ten, with the sign in front. */
  lemma PlainValueMeaning(sign: string, whole: string, frac: string)
    requires AllDigits(whole) && AllDigits(frac)
    ensures var m := DigitsValue(whole) as real + DigitsValue(frac) as real / Pow10(|frac|) as real;
            Value(PlainValue(sign, whole, frac)) == if sign == "-" then -m else m
  {
    DigitsAppend(whole, frac);
    var n: int := DigitsValue(whole + frac);
    var w, f, p := DigitsValue(whole), DigitsValue(frac), Pow10(|frac|);
    assert PlainValue(sign, whole, frac) == Decimal(if sign == "-" then -n else n, |frac|);
    SignedQuotient(n, w, f, p, sign == "-");
  }

  lemma SignedQuotient(n: int, w: int, f: int, p: int, negative: bool)
    requires p >= 1 && n == w * p + f
    ensures var m := w as real + f as real / p as real;
            (if negative then -n else n) as real / p as real == if negative then -m else m
  {
    CastMul(w, p);
    DivSum(w as real, f as real, p as real);
  }

  lemma DivSum(w: real, f: real, p: real)
    requires p > 0.0
    ensures (w * p + f) / p == w + f / p
    ensures -(w * p + f) / p == -(w + f / p)
  {
  }

  /** The unsigned part of plain notation is read as all its digits at the scale
      of the digits after the point. */
  lemma UnsignedPlain(body: string, whole: string, frac: string, pointed: bool)
    requires AllDigits(whole) && AllDigits(frac)
    requires if pointed then |whole| + |frac| > 0 else whole != [] && frac == []
    requires body == PlainBody(whole, frac, pointed)
    ensures body != [] && body[0] != '+' && body[0] != '-'
    ensures ParseUnsigned(body) == Some(Decimal(DigitsValue(whole + frac), |frac|))
  {
    if pointed {
      assert body[|whole|] == '.' && body[..|whole|] == whole && body[|whole| + 1..] == frac;
      FirstPoint(body, |whole|);
      if whole == [] { assert body[0] == '.'; }
    } else {
      NoPoint(body);
      assert whole + frac == whole;
    }
  }

  /** A sign in front of a body that does not start with one: the body is parsed
      and a minus negates it. */
  lemma SignedBody(s: string, sign: string, body: string)
    requires sign == "" || sign == "+" || sign == "-"
    requires s == sign + body && body != [] && body[0] != '+' && body[0] != '-'
    ensures ParseDecimal(s) == match ParseUnsigned(body)
                               case None => None
                               case Some(d) => Some(if sign == "-" then Decimal(-d.unscaled, d.scale) else d)
  {
    if sign != "" {
      assert sign == [s[0]] && s[1..] == body;
    } else {
      assert s == body;
    }
  }

  /** Every string in plain notation is accepted and read as `PlainValue`. */
  lemma ParsePlainNotation(s: string, sign: string, whole: string, frac: string, pointed: bool)
    requires PlainNotation(s, sign, whole, frac, pointed)
    ensures ParseDecimal(s) == Some(PlainValue(sign, whole, frac))
  {
    var body := PlainBody(whole, frac, pointed);
    UnsignedPlain(body, whole, frac, pointed);
    SignedBody(s, sign, body);
    var d := Decimal(DigitsValue(whole + frac), |frac|);
    assert PlainValue(sign, whole, frac) == if sign == "-" then Decimal(-d.unscaled, d.scale) else d;
  }

  /** The sign the parser reads off the front, and the body after it. */
  lemma SignOf(s: string) returns (sign: string, body: string)
    ensures sign == "" || sign == "+" || sign == "-"
    ensures s == sign + body
    ensures ParseDecimal(s).Some? ==> ParseUnsigned(body).Some?
  {
    var signed := s != [] && (s[0] == '+' || s[0] == '-');
    sign := if signed then [s[0]] else "";
    body := if signed then s[1..] else s;
  }

  /** An accepted body is digits with at most one point. */
  lemma UnsignedShape(body: string) returns (whole: string, frac: string, pointed: bool)
    requires ParseUnsigned(body).Some?
    ensures AllDigits(whole) && AllDigits(frac)
    ensures if pointed then |whole| + |frac| > 0 else whole != [] && frac == []
    ensures body == PlainBody(whole, frac, pointed)
  {
    match PointIndex(body)
    case None =>
      whole, frac, pointed := body, "", false;
    case Some(i) =>
      whole, frac, pointed := body[..i], body[i + 1..], true;
      assert body == whole + "." + frac;
  }

  /** `new BigDecimal(s)` succeeds exactly on plain notation (exponents aside). */
  lemma ParseAcceptsExactlyPlainNotation(s: string)
    ensures ParseDecimal(s).Some? <==> exists sign, whole, frac, pointed :: PlainNotation(s, sign, whole, frac, pointed)
  {
    if exists sign, whole, frac, pointed :: PlainNotation(s, sign, whole, frac, pointed) {
      var sign, whole, frac, pointed :| PlainNotation(s, sign, whole, frac, pointed);
      ParsePlainNotation(s, sign, whole, frac, pointed);
    }
    if ParseDecimal(s).Some? {
      var sign, body := SignOf(s);
      var whole, frac, pointed := UnsignedShape(body);
      assert PlainNotation(s, sign, whole, frac, pointed);
    }
  }
}
