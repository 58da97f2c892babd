/**
 * The change chain: `_handleChange` runs `_validate_num`, `_validate_dec`,
 * `_validate_min`, `_validate_max` and `_validate_step` in turn; the first one
 * that fails rewrites the field and triggers `change` again, and only a field
 * that passes all of them is stored in `options.value`.
 *
 * `Validate` is one run of the validators; `Settle` follows the re-triggered
 * runs to the end. `Rank` is the measure that shows the chain stops, under the
 * `Consistent` bounds the plugin itself never checks.
 */
module Validation {
  import opened Numbers

  /** `toFixed` throws a RangeError beyond this many fraction digits. */
  const MaxFractionDigits: nat := 100

  /** What the validators read from the options: the bounds (null as None) and toFixed's digit count. */
  datatype Settings = Settings(min: Option<Decimal>, max: Option<Decimal>, places: nat)

  /** The result of one run of the validators. */
  datatype Hop = Pass | Rewrite(text: string) | Throw

  /** The result of a whole chain: the stored field, or the field when toFixed threw. */
  datatype Outcome = Stored(text: string) | Thrown(text: string)

  predicate InRange(v: real, s: Settings)
  {
    (s.min.None? || v >= s.min.value.Value()) && (s.max.None? || v <= s.max.value.Value())
  }

  /**
   * One run of `_handleChange` on the field text: the first failing validator
   * names the text it writes back (`fallback` is `options.value || 0` as text).
   */
  function Validate(field: string, fallback: string, s: Settings): (r: Hop)
    ensures r == Throw ==> Numeric(field) && s.places > MaxFractionDigits
  {
    match Parse(field)
    case None => Rewrite(fallback)
    case Some(x) =>
      if s.places > MaxFractionDigits then Throw
      else if field != ToFixed(x, s.places) then Rewrite(ToFixed(x, s.places))
      else if s.min.Some? && x.Value() < s.min.value.Value() then Rewrite(ToString(s.min.value))
      else if s.max.Some? && x.Value() > s.max.value.Value() then Rewrite(ToString(s.max.value))
      else Pass
  }

  /** A field every validator lets through: numeric, in toFixed form, within the bounds. */
  predicate Accepted(field: string, s: Settings)
  {
    && Parse(field).Some?
    && s.places <= MaxFractionDigits
    && ToFixed(Parse(field).value, s.places) == field
    && InRange(Parse(field).value.Value(), s)
  }

  /** An accepted field reads back as a number with exactly `places` fraction digits. */
  lemma AcceptedScale(field: string, s: Settings)
    requires Accepted(field, s)
    ensures Parse(field).value.scale == s.places
  {
    ParseToFixed(Parse(field).value, s.places);
  }

  /**
   * Bounds under which the chain stops: min <= max, and each bound has at most
   * `places` fraction digits. The plugin checks neither.
   */
  predicate Consistent(s: Settings)
  {
    && (s.min.Some? && s.max.Some? ==> s.min.value.Value() <= s.max.value.Value())
    && (s.min.Some? ==> ExactAt(s.min.value.Value(), s.places))
    && (s.max.Some? ==> ExactAt(s.max.value.Value(), s.places))
  }

  /**
   * How many more runs the chain may take: 0 for an accepted field, 1 or 3 for
   * a field one toFixed away from canonical, 2 for a canonical field out of
   * range, 5 for a field that toFixed turns into "-0...", 6 for non-numeric.
   */
  function Rank(field: string, fallback: string, s: Settings): nat
  {
    match Parse(field)
    case None => 6
    case Some(x) =>
      var k := s.places;
      if k > MaxFractionDigits then 0
      else
        var g := ToFixed(x, k);
        var y := Decimal(SignedRound(x.Value(), k), k);
        if field == g then (if InRange(x.Value(), s) then 0 else 2)
        else if ToFixed(y, k) == g then (if InRange(y.Value(), s) then 1 else 3)
        else 5
  }

  /* ------------------------------------------------------------- the chain */

  /** Validation passes exactly on accepted fields. */
  lemma ValidatePass(field: string, fallback: string, s: Settings)
    ensures Validate(field, fallback, s) == Pass <==> Accepted(field, s)
  {
    match Parse(field)
    case None =>
      assert Validate(field, fallback, s) == Rewrite(fallback);
    case Some(x) =>
      var k := s.places;
      if k > MaxFractionDigits {
        assert Validate(field, fallback, s) == Throw;
      } else if field != ToFixed(x, k) {
        assert Validate(field, fallback, s) == Rewrite(ToFixed(x, k));
      } else if InRange(x.Value(), s) {
        assert Validate(field, fallback, s) == Pass;
      } else {
        assert Validate(field, fallback, s).Rewrite?;
      }
  }

  /** Every text a validator writes back is numeric: `_validate_num` fails at most once per chain. */
  lemma RewriteNumeric(field: string, fallback: string, s: Settings)
    requires Numeric(fallback)
    requires Validate(field, fallback, s).Rewrite?
    ensures Numeric(Validate(field, fallback, s).text)
  {
    match Parse(field)
    case None =>
    case Some(x) =>
      var k := s.places;
      if field != ToFixed(x, k) {
        ParseToFixed(x, k);
      } else if s.min.Some? && x.Value() < s.min.value.Value() {
        ParseToString(s.min.value);
      } else {
        ParseToString(s.max.value);
      }
  }

  /**
   * `_validate_dec` rewrites a numeric field to `toFixed`; that text passes the
   * check on the next run unless x is negative and rounds to zero ("-0.00"
   * reads back as 0, which toFixed writes as "0.00").
   */
  lemma DecRewriteStable(x: Decimal, k: nat)
    ensures var g := ToFixed(x, k);
      && Parse(g).Some?
      && (ToFixed(Parse(g).value, k) == g <==> !(x.Value() < 0.0 && SignedRound(x.Value(), k) == 0))
  {
    var v := x.Value();
    var m := SignedRound(v, k);
    ParseToFixed(x, k);
    ToFixedAtScale(m, k);
    SignedRoundSign(v, k);
    assert ToFixed(x, k) == FixedString(v < 0.0, Abs(m), k);
    if v < 0.0 && m == 0 {
      FixedStringSign(0, k);
    }
  }

  /** A second `toFixed` rewrite gives a text that reads back as the number it was written from. */
  lemma DecRewriteTwice(x: Decimal, k: nat)
    ensures var y := Decimal(SignedRound(x.Value(), k), k);
      && Parse(ToFixed(x, k)) == Some(y)
      && Parse(ToFixed(y, k)) == Some(y)
  {
    ParseToFixed(x, k);
    CanonicalAtScale(SignedRound(x.Value(), k), k);
  }

  lemma RankBound(field: string, fallback: string, s: Settings)
    requires Numeric(field)
    ensures Rank(field, fallback, s) <= 5
  {
  }

  /** A bound rewritten into the field reaches an accepted text within one more run. */
  lemma BoundRank(b: Decimal, fallback: string, s: Settings)
    requires s.places <= MaxFractionDigits
    requires ExactAt(b.Value(), s.places) && InRange(b.Value(), s)
    ensures Rank(ToString(b), fallback, s) <= 1
  {
    var k := s.places;
    ParseToString(b);
    var z := Normalize(b);
    var g := ToString(b);
    if g != ToFixed(z, k) {
      var y := Decimal(SignedRound(z.Value(), k), k);
      RoundExactValue(b.Value(), k);
      assert y.Value() == b.Value();
      ToFixedValue(y, z, k);
    }
  }

  /** The `_validate_dec` rewrite lowers the rank. */
  lemma DecRewriteRank(field: string, fallback: string, s: Settings, x: Decimal)
    requires Parse(field) == Some(x) && s.places <= MaxFractionDigits
    requires field != ToFixed(x, s.places)
    ensures Rank(ToFixed(x, s.places), fallback, s) < Rank(field, fallback, s)
  {
    var k := s.places;
    var g := ToFixed(x, k);
    var m := SignedRound(x.Value(), k);
    var y := Decimal(m, k);
    DecRewriteTwice(x, k);
    if ToFixed(y, k) == g {
      assert Rank(field, fallback, s) == (if InRange(y.Value(), s) then 1 else 3);
    } else {
      assert Rank(field, fallback, s) == 5;
      ExactDecimal(m, k);
      assert Rank(g, fallback, s) <= 3;
    }
  }

  /** Every rewrite strictly lowers the rank, so the re-triggered chain stops. */
  lemma RankDecreases(field: string, fallback: string, s: Settings)
    requires Numeric(fallback) && Consistent(s)
    requires Validate(field, fallback, s).Rewrite?
    ensures Rank(Validate(field, fallback, s).text, fallback, s) < Rank(field, fallback, s)
  {
    match Parse(field)
    case None =>
      RankBound(fallback, fallback, s);
    case Some(x) =>
      var k := s.places;
      if field != ToFixed(x, k) {
        DecRewriteRank(field, fallback, s, x);
      } else if s.min.Some? && x.Value() < s.min.value.Value() {
        assert Rank(field, fallback, s) == 2;
        BoundRank(s.min.value, fallback, s);
      } else {
        assert Rank(field, fallback, s) == 2;
        BoundRank(s.max.value, fallback, s);
      }
  }

  /** Where the chain started from `field` ends: only an accepted field is ever stored. */
  function Settle(field: string, fallback: string, s: Settings): (r: Outcome)
    requires Numeric(fallback) && Consistent(s)
    ensures r.Stored? ==> Accepted(r.text, s)
    ensures r.Thrown? ==> s.places > MaxFractionDigits
    decreases Rank(field, fallback, s)
  {
    match Validate(field, fallback, s)
    case Pass => Stored(field)
    case Throw => Thrown(field)
    case Rewrite(g) =>
      RankDecreases(field, fallback, s);
      Settle(g, fallback, s)
  }

  /** A rewrite hands the chain on: the outcome is the outcome from the rewritten text, reached at a lower rank. */
  lemma SettleRewrite(field: string, fallback: string, s: Settings, next: string)
    requires Numeric(fallback) && Consistent(s)
    requires Validate(field, fallback, s) == Rewrite(next)
    ensures Settle(field, fallback, s) == Settle(next, fallback, s)
    ensures Rank(next, fallback, s) < Rank(field, fallback, s)
  {
    RankDecreases(field, fallback, s);
  }

  /* ------------------------------------------------------------ saturation */

  /** A number already exact and in range is stored in toFixed form. */
  lemma SettleExact(field: string, fallback: string, s: Settings)
    requires Numeric(fallback) && Consistent(s)
    requires Numeric(field) && s.places <= MaxFractionDigits
    requires ExactAt(Parse(field).value.Value(), s.places)
    requires InRange(Parse(field).value.Value(), s)
    ensures Settle(field, fallback, s) == Stored(ToFixed(Parse(field).value, s.places))
  {
    var k := s.places;
    var x := Parse(field).value;
    var g := ToFixed(x, k);
    if field != g {
      ParseToFixed(x, k);
      var y := Decimal(SignedRound(x.Value(), k), k);
      RoundExactValue(x.Value(), k);
      ToFixedValue(y, x, k);
      assert Validate(g, fallback, s) == Pass;
    }
  }

  /** An exact, in-range number written as `String(x)` ends stored as `x.toFixed(places)`. */
  lemma SettleString(x: Decimal, fallback: string, s: Settings)
    requires Numeric(fallback) && Consistent(s) && s.places <= MaxFractionDigits
    requires ExactAt(x.Value(), s.places) && InRange(x.Value(), s)
    ensures Settle(ToString(x), fallback, s) == Stored(ToFixed(x, s.places))
  {
    ParseToString(x);
    SettleExact(ToString(x), fallback, s);
    ToFixedValue(Normalize(x), x, s.places);
  }

  /**
   * An in-range number ends stored as its rounding to `places` digits. This is
   * its own toFixed text, except that a negative number that rounds to zero
   * ends as "0.00…", one run after "-0.00…".
   */
  lemma SettleRounds(field: string, fallback: string, s: Settings)
    requires Numeric(fallback) && Consistent(s)
    requires Numeric(field) && s.places <= MaxFractionDigits
    requires InRange(Parse(field).value.Value(), s)
    ensures var x := Parse(field).value;
      var y := Decimal(SignedRound(x.Value(), s.places), s.places);
      Settle(field, fallback, s) == Stored(ToFixed(y, s.places))
    ensures var x := Parse(field).value;
      !(x.Value() < 0.0 && SignedRound(x.Value(), s.places) == 0) ==>
        Settle(field, fallback, s) == Stored(ToFixed(x, s.places))
  {
    var k, x := s.places, Parse(field).value;
    var g := ToFixed(x, k);
    var y := Decimal(SignedRound(x.Value(), k), k);
    DecRewriteTwice(x, k);
    DecRewriteStable(x, k);
    RoundedInRange(x, s);
    if field == g {
      assert x == y;
      SettleCanonical(field, y, fallback, s);
    } else {
      DecStep(field, x, fallback, s);
      SettleRewrite(field, fallback, s, g);
      if ToFixed(y, k) == g {
        SettleCanonical(g, y, fallback, s);
      } else {
        DecStep(g, y, fallback, s);
        SettleRewrite(g, fallback, s, ToFixed(y, k));
        SettleCanonical(ToFixed(y, k), y, fallback, s);
      }
    }
  }

  /** Rounding to `places` keeps an in-range number in range, since the bounds are exact at `places`. */
  lemma RoundedInRange(x: Decimal, s: Settings)
    requires Consistent(s) && InRange(x.Value(), s)
    ensures InRange(Decimal(SignedRound(x.Value(), s.places), s.places).Value(), s)
  {
    var k := s.places;
    ParseToFixed(x, k);
    if s.min.Some? {
      RoundedAbove(x, s.min.value, k);
    }
    if s.max.Some? {
      RoundedBelow(x, s.max.value, k);
    }
  }

  /** A text in toFixed form whose number is in range passes at once and is stored. */
  lemma SettleCanonical(t: string, y: Decimal, fallback: string, s: Settings)
    requires Numeric(fallback) && Consistent(s) && s.places <= MaxFractionDigits
    requires Parse(t) == Some(y) && ToFixed(y, s.places) == t && InRange(y.Value(), s)
    ensures Settle(t, fallback, s) == Stored(t)
  {
    ValidatePass(t, fallback, s);
  }

  lemma RoundedAbove(x: Decimal, b: Decimal, k: nat)
    requires ExactAt(b.Value(), k) && x.Value() >= b.Value()
    ensures Parse(ToFixed(x, k)).Some? && Parse(ToFixed(x, k)).value.Value() >= b.Value()
  {
    ParseToFixed(x, k);
    RoundMonotone(b.Value(), x.Value(), k);
    RoundExactValue(b.Value(), k);
    DivMonotone(SignedRound(b.Value(), k) as real, SignedRound(x.Value(), k) as real, Pow10(k) as real);
  }

  lemma RoundedBelow(x: Decimal, b: Decimal, k: nat)
    requires ExactAt(b.Value(), k) && x.Value() <= b.Value()
    ensures Parse(ToFixed(x, k)).Some? && Parse(ToFixed(x, k)).value.Value() <= b.Value()
  {
    ParseToFixed(x, k);
    RoundMonotone(x.Value(), b.Value(), k);
    RoundExactValue(b.Value(), k);
    DivMonotone(SignedRound(x.Value(), k) as real, SignedRound(b.Value(), k) as real, Pow10(k) as real);
  }

  lemma DivMonotone(a: real, b: real, p: real)
    requires a <= b && p > 0.0
    ensures a / p <= b / p
  {
  }

  /** A numeric field at or above a set max ends as max, in toFixed form. */
  lemma {:induction false} SaturateMax(field: string, fallback: string, s: Settings)
    requires Numeric(fallback) && Consistent(s)
    requires Numeric(field) && s.places <= MaxFractionDigits && s.max.Some?
    requires Parse(field).value.Value() >= s.max.value.Value()
    ensures Settle(field, fallback, s) == Stored(ToFixed(s.max.value, s.places))
    decreases Rank(field, fallback, s)
  {
    var k, x, b := s.places, Parse(field).value, s.max.value;
    var h := Validate(field, fallback, s);
    if h == Pass {
      ToFixedValue(x, b, k);
    } else {
      assert h.Rewrite?;
      RankDecreases(field, fallback, s);
      var g := h.text;
      if field != ToFixed(x, k) {
        RoundedAbove(x, b, k);
      } else {
        ParseToString(b);
      }
      SaturateMax(g, fallback, s);
    }
  }

  /** A numeric field at or below a set min ends as min, in toFixed form. */
  lemma {:induction false} SaturateMin(field: string, fallback: string, s: Settings)
    requires Numeric(fallback) && Consistent(s)
    requires Numeric(field) && s.places <= MaxFractionDigits && s.min.Some?
    requires Parse(field).value.Value() <= s.min.value.Value()
    ensures Settle(field, fallback, s) == Stored(ToFixed(s.min.value, s.places))
    decreases Rank(field, fallback, s)
  {
    var k, x, b := s.places, Parse(field).value, s.min.value;
    var h := Validate(field, fallback, s);
    if h == Pass {
      ToFixedValue(x, b, k);
    } else {
      assert h.Rewrite?;
      RankDecreases(field, fallback, s);
      var g := h.text;
      if field != ToFixed(x, k) {
        RoundedBelow(x, b, k);
      } else {
        ParseToString(b);
      }
      SaturateMin(g, fallback, s);
    }
  }

  /* ------------------------------------------------- where the chain loops */

  /** One run on a field already in toFixed form only compares it with the bounds. */
  lemma CanonicalStep(field: string, x: Decimal, fallback: string, s: Settings)
    requires Parse(field) == Some(x) && s.places <= MaxFractionDigits
    requires ToFixed(x, s.places) == field
    ensures s.min.Some? && x.Value() < s.min.value.Value() ==>
      Validate(field, fallback, s) == Rewrite(ToString(s.min.value))
    ensures (s.min.None? || x.Value() >= s.min.value.Value()) && s.max.Some? && x.Value() > s.max.value.Value() ==>
      Validate(field, fallback, s) == Rewrite(ToString(s.max.value))
  {
  }

  /** One run on a numeric field not in toFixed form rewrites it to toFixed. */
  lemma DecStep(field: string, x: Decimal, fallback: string, s: Settings)
    requires Parse(field) == Some(x) && s.places <= MaxFractionDigits
    requires ToFixed(x, s.places) != field
    ensures Validate(field, fallback, s) == Rewrite(ToFixed(x, s.places))
  {
  }

  lemma WholeNormal(m: int)
    ensures Normalize(Decimal(m, 0)) == Decimal(m, 0)
  {
  }

  /**
   * With min > max the chain bounces between the two bounds forever: at 0
   * decimals, min a and max b < a, the text of a is rewritten to b and back.
   */
  lemma CrossedBoundsCycle(a: nat, b: nat)
    requires b < a
    ensures var s := Settings(Some(Decimal(a, 0)), Some(Decimal(b, 0)), 0);
      var above, below := FixedString(false, a, 0), FixedString(false, b, 0);
      && Validate(above, "0", s) == Rewrite(below)
      && Validate(below, "0", s) == Rewrite(above)
  {
    var s := Settings(Some(Decimal(a, 0)), Some(Decimal(b, 0)), 0);
    WholeText(a);
    WholeText(b);
    CanonicalStep(FixedString(false, a, 0), Decimal(a, 0), "0", s);
    CanonicalStep(FixedString(false, b, 0), Decimal(b, 0), "0", s);
  }

  /** The text of a whole number is its own `toFixed(0)` and `String` form, and reads back as it. */
  lemma WholeText(a: nat)
    ensures Parse(FixedString(false, a, 0)) == Some(Decimal(a, 0))
    ensures ToFixed(Decimal(a, 0), 0) == FixedString(false, a, 0)
    ensures ToString(Decimal(a, 0)) == FixedString(false, a, 0)
    ensures Decimal(a, 0).Value() == a as real
  {
    assert Pow10(0) == 1;
    ParseFixed(false, a, 0);
    CanonicalAtScale(a, 0);
    WholeNormal(a);
  }

  /**
   * A max with more fraction digits than `decimals` that toFixed rounds up is
   * never reached: the rounded max is above max, and max rounds back to it.
   */
  lemma InexactBoundCycle(m: nat, k: nat)
    requires k < MaxFractionDigits && m % 10 != 0
    requires Decimal(SignedRound(Decimal(m, k + 1).Value(), k), k).Value() > Decimal(m, k + 1).Value()
    ensures var M := Decimal(m, k + 1);
      var s := Settings(None, Some(M), k);
      var r := SignedRound(M.Value(), k);
      && r >= 0
      && Validate(FixedString(false, r, k), "0", s) == Rewrite(ToString(M))
      && Validate(ToString(M), "0", s) == Rewrite(FixedString(false, r, k))
  {
    var M := Decimal(m, k + 1);
    var r := SignedRound(M.Value(), k);
    var s := Settings(None, Some(M), k);
    InexactRounds(m, k, s);
    ParseFixed(false, r, k);
    CanonicalAtScale(r, k);
    ParseToString(M);
    CanonicalStep(FixedString(false, r, k), Decimal(r, k), "0", s);
  }

  /** Max 0.556 at 2 decimals: "0.56" is above max and "0.556" rounds back to "0.56". */
  lemma InexactBoundExample()
    ensures var M := Decimal(556, 3);
      var s := Settings(None, Some(M), 2);
      && Validate(FixedString(false, 56, 2), "0", s) == Rewrite(FixedString(false, 556, 3))
      && Validate(FixedString(false, 556, 3), "0", s) == Rewrite(FixedString(false, 56, 2))
  {
    InexactBoundFacts();
    InexactBoundCycle(556, 2);
  }

  lemma InexactBoundFacts()
    ensures Normalize(Decimal(556, 3)) == Decimal(556, 3)
    ensures SignedRound(Decimal(556, 3).Value(), 2) == 56
    ensures Decimal(56, 2).Value() > Decimal(556, 3).Value()
  {
    assert Pow10(3) == 1000 && Pow10(2) == 100;
    assert Decimal(556, 3).Value() == 0.556;
    assert RoundMag(0.556, 2) == 56;
  }

  /**
   * A min with more fraction digits than `decimals` that toFixed rounds up
   * breaks Consistent, yet the chain from min ends: min is rewritten to its
   * rounding, which is above min and passes.
   */
  lemma InexactMinEnds(m: nat, k: nat)
    requires k < MaxFractionDigits && m % 10 != 0
    requires Decimal(SignedRound(Decimal(m, k + 1).Value(), k), k).Value() > Decimal(m, k + 1).Value()
    ensures var M := Decimal(m, k + 1);
      var s := Settings(Some(M), None, k);
      var r := SignedRound(M.Value(), k);
      && r >= 0
      && !Consistent(s)
      && Validate(ToString(M), "0", s) == Rewrite(FixedString(false, r, k))
      && Validate(FixedString(false, r, k), "0", s) == Pass
  {
    var M := Decimal(m, k + 1);
    SignedRoundSign(M.Value(), k);
    InexactNotExact(m, k);
    InexactRounds(m, k, Settings(Some(M), None, k));
    InexactMinPasses(m, k);
  }

  /** A bound with more than k fraction digits is rewritten by `_validate_dec` to its rounding. */
  lemma InexactRounds(m: nat, k: nat, s: Settings)
    requires s.places == k < MaxFractionDigits && m % 10 != 0
    ensures var M := Decimal(m, k + 1);
      var r := SignedRound(M.Value(), k);
      r >= 0 && Validate(ToString(M), "0", s) == Rewrite(FixedString(false, r, k))
  {
    var M := Decimal(m, k + 1);
    var r := SignedRound(M.Value(), k);
    SignedRoundSign(M.Value(), k);
    assert ToFixed(M, k) == FixedString(false, r, k);
    assert Normalize(M) == M;
    ParseToString(M);
    assert ToFixed(M, k) != ToString(M) by {
      ParseFixed(false, r, k);
      assert Parse(ToFixed(M, k)) == Some(Decimal(r, k)) != Some(M);
    }
    DecStep(ToString(M), M, "0", s);
  }

  /** The rounding of a min that rounds up passes. */
  lemma InexactMinPasses(m: nat, k: nat)
    requires k < MaxFractionDigits
    requires Decimal(SignedRound(Decimal(m, k + 1).Value(), k), k).Value() > Decimal(m, k + 1).Value()
    ensures var M := Decimal(m, k + 1);
      Validate(FixedString(false, SignedRound(M.Value(), k), k), "0", Settings(Some(M), None, k)) == Pass
  {
    var M := Decimal(m, k + 1);
    var r := SignedRound(M.Value(), k);
    SignedRoundSign(M.Value(), k);
    ParseFixed(false, r, k);
    CanonicalAtScale(r, k);
    CanonicalStep(FixedString(false, r, k), Decimal(r, k), "0", Settings(Some(M), None, k));
  }

  /** m / 10^(k+1) with a last digit other than 0 has more than k fraction digits. */
  lemma InexactNotExact(m: nat, k: nat)
    requires m % 10 != 0
    ensures !ExactAt(Decimal(m, k + 1).Value(), k)
  {
    var p := Pow10(k) as real;
    var v := Decimal(m, k + 1).Value();
    var n := SignedRound(v, k);
    assert Pow10(k + 1) as real == 10.0 * p;
    assert v * p == m as real / 10.0;
    assert 10 * n != m;
    assert 10.0 * (n as real) != m as real;
  }

  /** Min 0.556 at 2 decimals: "0.556" is rewritten to "0.56", which passes. */
  lemma InexactMinExample()
    ensures var s := Settings(Some(Decimal(556, 3)), None, 2);
      && !Consistent(s)
      && Validate(FixedString(false, 556, 3), "0", s) == Rewrite(FixedString(false, 56, 2))
      && Validate(FixedString(false, 56, 2), "0", s) == Pass
  {
    InexactBoundFacts();
    InexactMinEnds(556, 2);
  }
}
