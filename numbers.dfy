/**
 * Numbers as the widget sees them: finite decimals, the string-to-number
 * coercion `s*1`, `Number.prototype.toFixed` and `Number.prototype.toString`.
 *
 * A JavaScript number is modelled by an exact finite decimal `mant / 10^scale`;
 * binary floating-point effects are abstracted away (see README).
 */
module Numbers {

  datatype Option<+T> = None | Some(value: T)

  function Pow10(k: nat): (r: nat)
    ensures r >= 1
  {
    if k == 0 then 1 else 10 * Pow10(k - 1)
  }

  lemma {:induction false} Pow10Add(a: nat, b: nat)
    ensures Pow10(a + b) == Pow10(a) * Pow10(b)
  {
    if b > 0 {
      Pow10Add(a, b - 1);
      assert Pow10(a + b) == 10 * Pow10(a + b - 1);
    }
  }

  /** The exact decimal number mant / 10^scale. */
  datatype Decimal = Decimal(mant: int, scale: nat) {
    function Value(): real {
      mant as real / Pow10(scale) as real
    }
  }

  function Abs(m: int): nat { if m < 0 then -m else m }

  /* ---------------------------------------------------------------- digits */

  predicate IsDigit(c: char) { '0' <= c <= '9' }

  predicate AllDigits(s: string) { forall i :: 0 <= i < |s| ==> IsDigit(s[i]) }

  function DigitValue(c: char): nat
    requires IsDigit(c)
  {
    c as int - '0' as int
  }

  function DigitChar(d: nat): (c: char)
    requires d < 10
    ensures IsDigit(c) && DigitValue(c) == d
  {
    ('0' as int + d) as char
  }

  /** The natural number written by a string of decimal digits (most significant first). */
  function DigitsValue(s: string): nat
    requires AllDigits(s)
  {
    if s == [] then 0 else DigitsValue(s[..|s| - 1]) * 10 + DigitValue(s[|s| - 1])
  }

  /** The shortest decimal numeral of n ("0" for zero). */
  function Digits(n: nat): (s: string)
    ensures AllDigits(s) && 1 <= |s|
    ensures s[0] != '0' || n == 0
  {
    if n < 10 then [DigitChar(n)] else Digits(n / 10) + [DigitChar(n % 10)]
  }

  lemma {:induction false} DigitsRoundTrip(n: nat)
    ensures DigitsValue(Digits(n)) == n
  {
    if n >= 10 {
      DigitsRoundTrip(n / 10);
      var s := Digits(n);
      assert s[..|s| - 1] == Digits(n / 10);
    }
  }

  lemma {:induction false} DigitsValueAppend(a: string, b: string)
    requires AllDigits(a) && AllDigits(b)
    ensures AllDigits(a + b)
    ensures DigitsValue(a + b) == DigitsValue(a) * Pow10(|b|) + DigitsValue(b)
  {
    AllDigitsConcat(a, b);
    if b == [] {
      assert a + b == a;
    } else {
      var c, b' := a + b, b[..|b| - 1];
      assert c[..|c| - 1] == a + b';
      assert c[|c| - 1] == b[|b| - 1];
      DigitsValueAppend(a, b');
      var va, vb', p := DigitsValue(a), DigitsValue(b'), Pow10(|b'|);
      var last := DigitValue(b[|b| - 1]);
      assert DigitsValue(c) == DigitsValue(a + b') * 10 + last;
      assert DigitsValue(b) == vb' * 10 + last;
      assert Pow10(|b|) == p * 10;
      ShiftDigit(va, p, vb');
    }
  }

  lemma AllDigitsConcat(a: string, b: string)
    requires AllDigits(a) && AllDigits(b)
    ensures AllDigits(a + b)
  {
    forall i | 0 <= i < |a + b| ensures IsDigit((a + b)[i]) {
      if i < |a| { assert (a + b)[i] == a[i]; } else { assert (a + b)[i] == b[i - |a|]; }
    }
  }

  lemma ShiftDigit(x: int, p: int, y: int)
    ensures (x * p + y) * 10 == x * (p * 10) + y * 10
  {
  }

  function Zeros(n: nat): (z: string)
    ensures |z| == n && AllDigits(z)
  {
    if n == 0 then [] else Zeros(n - 1) + ['0']
  }

  lemma {:induction false} ZerosValue(n: nat)
    ensures DigitsValue(Zeros(n)) == 0
  {
    if n > 0 {
      assert Zeros(n)[..n - 1] == Zeros(n - 1);
      ZerosValue(n - 1);
    }
  }

  /** Left-pads a numeral with zeros to at least `width` characters. */
  function Pad(s: string, width: nat): (p: string)
    requires AllDigits(s)
    ensures AllDigits(p) && |p| >= width && |p| >= |s|
  {
    if |s| >= width then s else Zeros(width - |s|) + s
  }

  lemma {:induction false} PadValue(s: string, width: nat)
    requires AllDigits(s)
    ensures DigitsValue(Pad(s, width)) == DigitsValue(s)
  {
    if |s| < width {
      ZerosValue(width - |s|);
      DigitsValueAppend(Zeros(width - |s|), s);
    }
  }

  /**
   * The fixed-point numeral of a sign and a magnitude n / 10^d: "-" when neg,
   * at least one integer digit, and, when d > 0, a "." and exactly d digits.
   */
  function FixedString(neg: bool, n: nat, d: nat): string
  {
    if neg then "-" + FixedBody(n, d) else FixedBody(n, d)
  }

  /** The unsigned part of FixedString: n / 10^d written with exactly d fraction digits. */
  function FixedBody(n: nat, d: nat): (s: string)
    ensures |s| >= 1 && IsDigit(s[0]) && IsDigit(s[|s| - 1])
  {
    var p := Pad(Digits(n), d + 1);
    if d == 0 then p else p[..|p| - d] + "." + p[|p| - d..]
  }

  /* ------------------------------------------------------- string to number */

  /** The white space that StringToNumber trims (WhiteSpace and LineTerminator). */
  predicate IsSpace(c: char)
  {
    var k := c as int;
    (0x09 <= k <= 0x0D) || k == 0x20 || k == 0xA0 || k == 0x1680 || (0x2000 <= k <= 0x200A)
    || k == 0x2028 || k == 0x2029 || k == 0x202F || k == 0x205F || k == 0x3000 || k == 0xFEFF
  }

  /** Drops leading white space. */
  function TrimStart(s: string): (t: string)
    ensures |t| <= |s|
  {
    if s != [] && IsSpace(s[0]) then TrimStart(s[1..]) else s
  }

  /** Drops trailing white space. */
  function TrimEnd(s: string): (t: string)
    ensures |t| <= |s|
  {
    if s != [] && IsSpace(s[|s| - 1]) then TrimEnd(s[..|s| - 1]) else s
  }

  /** Drops white space at both ends. */
  function Trim(s: string): (t: string)
    ensures |t| <= |s|
  {
    TrimEnd(TrimStart(s))
  }

  /** TrimStart leaves a suffix of s that does not start with white space. */
  lemma {:induction false} TrimStartShape(s: string)
    ensures TrimStart(s) == s[|s| - |TrimStart(s)|..]
    ensures TrimStart(s) != [] ==> !IsSpace(TrimStart(s)[0])
  {
    if s != [] && IsSpace(s[0]) {
      TrimStartShape(s[1..]);
    }
  }

  /** TrimEnd leaves a prefix of s that does not end with white space. */
  lemma {:induction false} TrimEndShape(s: string)
    ensures TrimEnd(s) == s[..|TrimEnd(s)|]
    ensures TrimEnd(s) != [] ==> !IsSpace(TrimEnd(s)[|TrimEnd(s)| - 1])
  {
    if s != [] && IsSpace(s[|s| - 1]) {
      TrimEndShape(s[..|s| - 1]);
    }
  }

  /** Trim leaves a piece of s that neither starts nor ends with white space. */
  lemma TrimShape(s: string)
    ensures Trim(s) != [] ==> !IsSpace(Trim(s)[0]) && !IsSpace(Trim(s)[|Trim(s)| - 1])
  {
    var u := TrimStart(s);
    TrimStartShape(s);
    TrimEndShape(u);
    if Trim(s) != [] {
      assert Trim(s)[0] == u[0];
    }
  }

  /** Index of the first '.', or |s| when there is none. */
  function DotIndex(s: string): (i: nat)
    ensures i <= |s|
    ensures i < |s| ==> s[i] == '.'
    ensures forall j :: 0 <= j < i ==> s[j] != '.'
  {
    if s == [] || s[0] == '.' then 0 else 1 + DotIndex(s[1..])
  }

  /** A text without "." has its DotIndex at the end. */
  lemma DotIndexNone(s: string)
    requires forall j :: 0 <= j < |s| ==> s[j] != '.'
    ensures DotIndex(s) == |s|
  {
  }

  /** An unsigned decimal literal: digits, optionally '.', optionally digits; at least one digit. */
  function ParseUnsigned(u: string): Option<Decimal>
  {
    var i := DotIndex(u);
    var ip := u[..i];
    var fp := if i < |u| then u[i + 1..] else [];
    if AllDigits(ip) && AllDigits(fp) && |ip| + |fp| > 0
    then (AllDigitsConcat(ip, fp); Some(Decimal(DigitsValue(ip + fp), |fp|)))
    else None
  }

  function Negate(r: Option<Decimal>): Option<Decimal>
  {
    match r
    case None => None
    case Some(x) => Some(Decimal(-x.mant, x.scale))
  }

  /**
   * The coercion `s*1` of a string: None stands for NaN. The empty (or
   * all-blank) string is 0; otherwise an optional sign and a decimal literal.
   */
  function Parse(s: string): (r: Option<Decimal>)
  {
    var t := Trim(s);
    if t == [] then Some(Decimal(0, 0))
    else if t[0] == '-' then Negate(ParseUnsigned(t[1..]))
    else if t[0] == '+' then ParseUnsigned(t[1..])
    else ParseUnsigned(t)
  }

  predicate Numeric(s: string) { Parse(s).Some? }

  /** A text of white space only (the empty text included) coerces to 0. */
  lemma ParseBlank(s: string)
    requires forall i | 0 <= i < |s| :: IsSpace(s[i])
    ensures Parse(s) == Some(Decimal(0, 0))
  {
    TrimStartShape(s);
  }

  /* ------------------------------------------------------- number to string */

  /** |a| * 10^d rounded to the nearest integer, ties upwards. */
  function RoundMag(a: real, d: nat): nat
    requires a >= 0.0
  {
    assert a * Pow10(d) as real >= 0.0;
    (a * Pow10(d) as real + 0.5).Floor
  }

  /** v * 10^d rounded to the nearest integer, ties away from zero. */
  function SignedRound(v: real, d: nat): int
  {
    if v < 0.0 then -(RoundMag(-v, d) as int) else RoundMag(v, d)
  }

  /** `x.toFixed(d)`. */
  function ToFixed(x: Decimal, d: nat): string
  {
    var v := x.Value();
    FixedString(v < 0.0, Abs(SignedRound(v, d)), d)
  }

  /** Drops trailing fraction zeros: the shortest form of the same number. */
  function Normalize(x: Decimal): (y: Decimal)
    ensures y.Value() == x.Value()
    ensures y.scale == 0 || y.mant % 10 != 0
    decreases x.scale
  {
    if x.scale > 0 && x.mant % 10 == 0 then
      var y := Decimal(x.mant / 10, x.scale - 1);
      assert Pow10(x.scale) == 10 * Pow10(x.scale - 1);
      assert x.mant == 10 * y.mant;
      Normalize(y)
    else x
  }

  /** `String(x)`: the shortest decimal numeral of x. */
  function ToString(x: Decimal): string
  {
    var y := Normalize(x);
    FixedString(y.mant < 0, Abs(y.mant), y.scale)
  }

  /* ------------------------------------------------------------ round trips */

  /** FixedBody is an integer numeral a, followed when d > 0 by "." and exactly d digits b. */
  lemma FixedBodySplit(n: nat, d: nat) returns (a: string, b: string)
    ensures AllDigits(a) && AllDigits(b) && |a| >= 1 && |b| == d
    ensures d == 0 ==> FixedBody(n, d) == a
    ensures d > 0 ==> FixedBody(n, d) == a + "." + b
    ensures DigitsValue(a + b) == n
  {
    var p := Pad(Digits(n), d + 1);
    PadValue(Digits(n), d + 1);
    DigitsRoundTrip(n);
    assert DigitsValue(p) == n;
    AllDigitsSplit(p, |p| - d);
    a, b := p[..|p| - d], p[|p| - d..];
    assert a + b == p;
  }

  lemma ParseUnsignedOf(u: string, a: string, b: string)
    requires AllDigits(a) && AllDigits(b) && |a| > 0
    requires u == a + "." + b
    ensures ParseUnsigned(u) == Some(Decimal(DigitsValue(a + b), |b|))
  {
    assert forall j :: 0 <= j < |a| ==> u[j] == a[j];
    assert u[|a|] == '.';
    assert DotIndex(u) == |a|;
    assert u[..|a|] == a;
    assert u[|a| + 1..] == b;
  }

  lemma ParseUnsignedDigits(u: string)
    requires AllDigits(u) && |u| > 0
    ensures ParseUnsigned(u) == Some(Decimal(DigitsValue(u), 0))
  {
    DotIndexNone(u);
    assert u[..|u|] + [] == u;
  }

  lemma AllDigitsSplit(p: string, k: nat)
    requires AllDigits(p) && k <= |p|
    ensures AllDigits(p[..k]) && AllDigits(p[k..]) && p[..k] + p[k..] == p
  {
    assert forall j :: 0 <= j < k ==> p[..k][j] == p[j];
    assert forall j :: 0 <= j < |p| - k ==> p[k..][j] == p[k + j];
  }

  lemma ParseUnsignedFixed(n: nat, d: nat)
    ensures ParseUnsigned(FixedBody(n, d)) == Some(Decimal(n, d))
  {
    var a, b := FixedBodySplit(n, d);
    if d == 0 {
      assert a + b == a;
      ParseUnsignedDigits(a);
    } else {
      ParseUnsignedOf(a + "." + b, a, b);
    }
  }

  lemma TrimNoop(s: string)
    requires |s| > 0 && !IsSpace(s[0]) && !IsSpace(s[|s| - 1])
    ensures Trim(s) == s
  {
    assert TrimStart(s) == s;
  }

  /** Reading back a fixed-point numeral gives exactly its signed magnitude. */
  lemma ParseFixed(neg: bool, n: nat, d: nat)
    ensures Parse(FixedString(neg, n, d)) == Some(Decimal(if neg then -(n as int) else n, d))
  {
    if neg {
      ParseFixedNegative(n, d);
    } else {
      ParseFixedPositive(n, d);
    }
  }

  lemma ParseFixedPositive(n: nat, d: nat)
    ensures Parse(FixedString(false, n, d)) == Some(Decimal(n, d))
  {
    ParseUnsignedFixed(n, d);
    ParseDigitsFirst(FixedBody(n, d));
  }

  /** A numeral that starts and ends with a digit is read as an unsigned literal. */
  lemma ParseDigitsFirst(body: string)
    requires |body| > 0 && IsDigit(body[0]) && IsDigit(body[|body| - 1])
    ensures Parse(body) == ParseUnsigned(body)
  {
    TrimNoop(body);
  }

  lemma ParseFixedNegative(n: nat, d: nat)
    ensures Parse(FixedString(true, n, d)) == Some(Decimal(-(n as int), d))
  {
    ParseUnsignedFixed(n, d);
    ParseNegative(FixedBody(n, d));
  }

  /** A "-" before a numeral that starts and ends with a digit negates it. */
  lemma ParseNegative(body: string)
    requires |body| > 0 && IsDigit(body[0]) && IsDigit(body[|body| - 1])
    ensures Parse("-" + body) == Negate(ParseUnsigned(body))
  {
    var fs := "-" + body;
    assert fs[|fs| - 1] == body[|body| - 1];
    TrimNoop(fs);
    assert fs[1..] == body;
  }

  lemma SignedRoundSign(v: real, d: nat)
    ensures v < 0.0 ==> SignedRound(v, d) <= 0
    ensures v >= 0.0 ==> SignedRound(v, d) >= 0
  {
  }

  /** `x.toFixed(d)*1` is x rounded half away from zero to d fraction digits. */
  lemma ParseToFixed(x: Decimal, d: nat)
    ensures Parse(ToFixed(x, d)) == Some(Decimal(SignedRound(x.Value(), d), d))
  {
    var v := x.Value();
    var r := SignedRound(v, d);
    SignedRoundSign(v, d);
    ParseFixed(v < 0.0, Abs(r), d);
    assert (if v < 0.0 then -(Abs(r) as int) else Abs(r)) == r;
  }

  lemma DivSign(a: real, p: real)
    requires p > 0.0
    ensures a / p < 0.0 <==> a < 0.0
  {
  }

  /** A decimal that already has d fraction digits prints as its own numeral. */
  lemma ToFixedAtScale(m: int, d: nat)
    ensures ToFixed(Decimal(m, d), d) == FixedString(m < 0, Abs(m), d)
  {
    var p := Pow10(d) as real;
    var v := Decimal(m, d).Value();
    DivMul(m as real, p);
    RoundOfInteger(v, d, m);
    DivSign(m as real, p);
  }

  /** `String(x)*1` is x itself. */
  lemma ParseToString(x: Decimal)
    ensures Parse(ToString(x)) == Some(Normalize(x))
    ensures Normalize(x).Value() == x.Value()
  {
    var y := Normalize(x);
    ParseFixed(y.mant < 0, Abs(y.mant), y.scale);
  }

  /** Every numeral toFixed writes at d digits reads back to a number it writes unchanged. */
  lemma CanonicalAtScale(m: int, d: nat)
    ensures Parse(ToFixed(Decimal(m, d), d)) == Some(Decimal(m, d))
    ensures ToFixed(Decimal(m, d), d) == FixedString(m < 0, Abs(m), d)
  {
    ToFixedAtScale(m, d);
    ParseFixed(m < 0, Abs(m), d);
  }

  lemma FixedStringSign(n: nat, d: nat)
    ensures FixedString(true, n, d) != FixedString(false, n, d)
  {
    assert FixedString(true, n, d)[0] == '-';
  }

  /** toFixed depends on the number only, not on how it is written. */
  lemma ToFixedValue(x: Decimal, y: Decimal, d: nat)
    requires x.Value() == y.Value()
    ensures ToFixed(x, d) == ToFixed(y, d)
  {
  }

  /* -------------------------------------------------------------- rounding */

  /** v has at most d fraction digits: rounding it to d digits loses nothing. */
  predicate ExactAt(v: real, d: nat)
  {
    SignedRound(v, d) as real == v * Pow10(d) as real
  }

  lemma DivMul(a: real, p: real)
    requires p != 0.0
    ensures (a / p) * p == a
  {
  }

  lemma RoundOfInteger(v: real, d: nat, n: int)
    requires v * Pow10(d) as real == n as real
    ensures SignedRound(v, d) == n
  {
    var p := Pow10(d) as real;
    if v < 0.0 {
      assert (-v) * p == -(n as real);
    }
  }

  lemma ExactSum(a: real, b: real, d: nat)
    requires ExactAt(a, d) && ExactAt(b, d)
    ensures ExactAt(a + b, d)
  {
    var p := Pow10(d) as real;
    assert (a + b) * p == a * p + b * p;
    RoundOfInteger(a + b, d, SignedRound(a, d) + SignedRound(b, d));
  }

  lemma ExactDecimal(m: int, d: nat)
    ensures ExactAt(Decimal(m, d).Value(), d)
    ensures SignedRound(Decimal(m, d).Value(), d) == m
  {
    ValueScaled(m, d);
    RoundOfInteger(Decimal(m, d).Value(), d, m);
  }

  /** Scaling mant / 10^d back up by 10^d gives mant. */
  lemma ValueScaled(m: int, d: nat)
    ensures Decimal(m, d).Value() * Pow10(d) as real == m as real
  {
    DivMul(m as real, Pow10(d) as real);
  }

  lemma RoundMagMonotone(a: real, b: real, d: nat)
    requires 0.0 <= a <= b
    ensures RoundMag(a, d) <= RoundMag(b, d)
  {
    var p := Pow10(d) as real;
    assert b * p - a * p == (b - a) * p;
    assert a * p <= b * p;
  }

  /** Rounding half away from zero is monotone. */
  lemma RoundMonotone(a: real, b: real, d: nat)
    requires a <= b
    ensures SignedRound(a, d) <= SignedRound(b, d)
  {
    if a < 0.0 && b < 0.0 {
      RoundMagMonotone(-b, -a, d);
    } else if 0.0 <= a {
      RoundMagMonotone(a, b, d);
    }
  }

  /** The value of the rounded number, when the input already was exact. */
  lemma RoundExactValue(v: real, d: nat)
    requires ExactAt(v, d)
    ensures Decimal(SignedRound(v, d), d).Value() == v
  {
    var p := Pow10(d) as real;
    assert SignedRound(v, d) as real == v * p;
    assert (v * p) / p == v;
  }

  /* ------------------------------------------------------------ arithmetic */

  lemma ScaleUp(m: int, p: nat, q: nat)
    requires p > 0 && q > 0
    ensures (m * q) as real / (p * q) as real == m as real / p as real
  {
    var mr, pr, qr := m as real, p as real, q as real;
    assert (m * q) as real == mr * qr;
    assert (p * q) as real == pr * qr;
    assert (mr * qr) / (pr * qr) == mr / pr;
  }

  function Align(x: Decimal, s: nat): (r: int)
    requires x.scale <= s
    ensures r as real / Pow10(s) as real == x.Value()
  {
    Pow10Add(x.scale, s - x.scale);
    ScaleUp(x.mant, Pow10(x.scale), Pow10(s - x.scale));
    x.mant * Pow10(s - x.scale)
  }

  /** The exact sum of two decimals. */
  function Add(a: Decimal, b: Decimal): (r: Decimal)
    ensures r.Value() == a.Value() + b.Value()
  {
    var s := if a.scale <= b.scale then b.scale else a.scale;
    var r := Decimal(Align(a, s) + Align(b, s), s);
    assert r.Value() == Align(a, s) as real / Pow10(s) as real + Align(b, s) as real / Pow10(s) as real;
    r
  }

  function Neg(a: Decimal): (r: Decimal)
    ensures r.Value() == -a.Value()
  {
    Decimal(-a.mant, a.scale)
  }

  /** A decimal with at most k fraction digits is exact at k digits. */
  lemma ExactAtWider(x: Decimal, k: nat)
    requires x.scale <= k
    ensures ExactAt(x.Value(), k)
  {
    var a := Align(x, k);
    assert Decimal(a, k).Value() == x.Value();
    ExactDecimal(a, k);
  }
}
