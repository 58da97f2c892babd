/**
 * The NumIn widget: its resolved options, the text of its input field, and
 * the operations that write the field and re-run the change chain
 * (`increase`, `decrease`, `valmin`, `valmax`, the click and key handlers and
 * the `value` accessor).
 */
module NumIn {
  import opened Numbers
  import opened Values
  import opened Options
  import opened Validation
  import Keys

  /* ------------------------------------------------------- derived settings */

  function Bound(v: Val): Option<Decimal>
  {
    if v.Num? then Some(v.n) else None
  }

  /** The digit count `toFixed(decimals)` uses: decimals truncated to an integer. */
  function Places(decimals: Decimal): nat
    requires decimals.Value() >= 0.0
  {
    decimals.Value().Floor
  }

  /** What the validators read from resolved options. */
  function SettingsOf(o: map<string, Val>): Settings
    requires WellFormed(o)
  {
    Settings(Bound(o["min"]), Bound(o["max"]), Places(o["decimals"].n))
  }

  lemma FallbackNumeric(o: map<string, Val>)
    requires WellFormed(o)
    ensures Truthy(o["value"]) ==> Numeric(FieldText(o["value"]))
    ensures Numeric(FieldText(Num(Decimal(0, 0))))
  {
    if o["value"].Num? {
      ParseToString(o["value"].n);
    }
    ParseToString(Decimal(0, 0));
  }

  /** The text `_validate_num` writes for a non-numeric field: `options.value || 0`. */
  function Fallback(o: map<string, Val>): (t: string)
    requires WellFormed(o)
    ensures Numeric(t)
  {
    FallbackNumeric(o);
    FieldText(if Truthy(o["value"]) then o["value"] else Num(Decimal(0, 0)))
  }

  /** The chain that writing `start` into the field sets off. */
  function Run(o: map<string, Val>, start: string): Outcome
    requires WellFormed(o) && Consistent(SettingsOf(o))
  {
    Settle(start, Fallback(o), SettingsOf(o))
  }

  /** The options once a chain has ended: only a stored field reaches `options.value`. */
  function Commit(o: map<string, Val>, r: Outcome): (c: map<string, Val>)
    ensures r.Stored? ==> "value" in c && c["value"] == Str(r.text)
    ensures !r.Stored? ==> c == o
    ensures forall k | k != "value" :: (k in c <==> k in o) && (k in o ==> c[k] == o[k])
  {
    if r.Stored? then o["value" := Str(r.text)] else o
  }

  /** The text `increase` (up) or `decrease` writes: `val()*1 ± step`, "NaN" for a non-numeric field. */
  function StepText(field: string, step: Decimal, up: bool): (t: string)
    ensures !Numeric(field) ==> !Numeric(t)
  {
    NaNIsNotNumeric();
    match Parse(field)
    case None => "NaN"
    case Some(x) => ToString(Add(x, if up then step else Neg(step)))
  }

  /** The text an action writes into the field before the chain runs. */
  function StartText(a: Keys.Action, o: map<string, Val>, field: string): string
    requires WellFormed(o) && a != Keys.NoAction
  {
    match a
    case Increase => StepText(field, o["step"].n, true)
    case Decrease => StepText(field, o["step"].n, false)
    case ToMin => FieldText(o["min"])
    case ToMax => FieldText(o["max"])
  }

  /* ---------------------------------------------------------------- lemmas */

  /**
   * Storing a value keeps the options well formed and leaves the bounds and
   * `decimals` alone, so the chain can run again under the same settings.
   */
  lemma CommitKeepsSettings(o: map<string, Val>, start: string)
    requires WellFormed(o) && Consistent(SettingsOf(o))
    ensures var c := Commit(o, Run(o, start));
      WellFormed(c) && SettingsOf(c) == SettingsOf(o) && c["step"] == o["step"] && c["keybind"] == o["keybind"]
  {
    var r := Run(o, start);
    if r.Stored? {
      assert Numeric(r.text);
      KeysDistinct();
    }
  }

  lemma NaNIsNotNumeric()
    ensures !Numeric("NaN")
  {
    assert Trim("NaN") == "NaN";
    assert DotIndex("NaN") == 3;
    assert !AllDigits("NaN");
  }

  /** From a numeric field, `increase` and `decrease` write a text whose number is the field's plus or minus step. */
  lemma StepTextValue(field: string, step: Decimal, up: bool)
    requires Numeric(field)
    ensures Numeric(StepText(field, step, up))
    ensures Parse(StepText(field, step, up)).value.Value()
         == Parse(field).value.Value() + (if up then step.Value() else -step.Value())
  {
    ParseToString(Add(Parse(field).value, if up then step else Neg(step)));
  }

  /** A non-numeric field makes `increase`/`decrease` write "NaN", which the chain replaces by the fallback. */
  lemma StepFromNonNumeric(o: map<string, Val>, field: string, up: bool)
    requires WellFormed(o) && Consistent(SettingsOf(o))
    requires !Numeric(field)
    ensures Run(o, StepText(field, o["step"].n, up)) == Run(o, Fallback(o))
  {
    NaNIsNotNumeric();
  }

  /** Resolution raises `decimals` to the fraction digits of `step`, so a step is always exact at `decimals`. */
  lemma ResolvedStepExact(opts: map<string, Val>, attrs: map<string, string>)
    ensures var o := Resolve(opts, attrs);
      ExactAt(o["step"].n.Value(), SettingsOf(o).places)
  {
    var o := Resolve(opts, attrs);
    ResolveDecimals(opts, attrs);
    var y := Normalize(o["step"].n);
    var k := SettingsOf(o).places;
    assert y.scale <= k;
    ExactAtWider(y, k);
  }

  /** From a field whose value plus step reaches a set max, `increase` stores max. */
  lemma IncreaseSaturates(o: map<string, Val>, field: string)
    requires WellFormed(o) && Consistent(SettingsOf(o))
    requires SettingsOf(o).places <= MaxFractionDigits && o["max"].Num?
    requires Parse(field).Some?
    requires Parse(field).value.Value() + o["step"].n.Value() >= o["max"].n.Value()
    ensures Run(o, StepText(field, o["step"].n, true)) == Stored(ToFixed(o["max"].n, SettingsOf(o).places))
  {
    var sum := Add(Parse(field).value, o["step"].n);
    ParseToString(sum);
    SaturateMax(ToString(sum), Fallback(o), SettingsOf(o));
  }

  /** From a field whose value minus step reaches a set min, `decrease` stores min. */
  lemma DecreaseSaturates(o: map<string, Val>, field: string)
    requires WellFormed(o) && Consistent(SettingsOf(o))
    requires SettingsOf(o).places <= MaxFractionDigits && o["min"].Num?
    requires Parse(field).Some?
    requires Parse(field).value.Value() - o["step"].n.Value() <= o["min"].n.Value()
    ensures Run(o, StepText(field, o["step"].n, false)) == Stored(ToFixed(o["min"].n, SettingsOf(o).places))
  {
    var diff := Add(Parse(field).value, Neg(o["step"].n));
    ParseToString(diff);
    SaturateMin(ToString(diff), Fallback(o), SettingsOf(o));
  }

  /** From an exact field, `increase` stores exactly value + step when that is within the bounds. */
  lemma IncreaseExact(o: map<string, Val>, field: string)
    requires WellFormed(o) && Consistent(SettingsOf(o))
    requires SettingsOf(o).places <= MaxFractionDigits
    requires Parse(field).Some? && ExactAt(Parse(field).value.Value(), SettingsOf(o).places)
    requires ExactAt(o["step"].n.Value(), SettingsOf(o).places)
    requires InRange(Parse(field).value.Value() + o["step"].n.Value(), SettingsOf(o))
    ensures Run(o, StepText(field, o["step"].n, true))
         == Stored(ToFixed(Add(Parse(field).value, o["step"].n), SettingsOf(o).places))
  {
    var x, step := Parse(field).value, o["step"].n;
    RunExactSum(o, x, step);
    assert StepText(field, step, true) == ToString(Add(x, step));
  }

  /** From an exact field, `decrease` stores exactly value - step when that is within the bounds. */
  lemma DecreaseExact(o: map<string, Val>, field: string)
    requires WellFormed(o) && Consistent(SettingsOf(o))
    requires SettingsOf(o).places <= MaxFractionDigits
    requires Parse(field).Some? && ExactAt(Parse(field).value.Value(), SettingsOf(o).places)
    requires ExactAt(o["step"].n.Value(), SettingsOf(o).places)
    requires InRange(Parse(field).value.Value() - o["step"].n.Value(), SettingsOf(o))
    ensures Run(o, StepText(field, o["step"].n, false))
         == Stored(ToFixed(Add(Parse(field).value, Neg(o["step"].n)), SettingsOf(o).places))
  {
    var x, step := Parse(field).value, o["step"].n;
    ExactNeg(step.Value(), SettingsOf(o).places);
    RunExactSum(o, x, Neg(step));
    assert StepText(field, step, false) == ToString(Add(x, Neg(step)));
  }

  /** Writing an exact, in-range sum as `String` ends with that sum stored in toFixed form. */
  lemma RunExactSum(o: map<string, Val>, x: Decimal, y: Decimal)
    requires WellFormed(o) && Consistent(SettingsOf(o))
    requires SettingsOf(o).places <= MaxFractionDigits
    requires ExactAt(x.Value(), SettingsOf(o).places) && ExactAt(y.Value(), SettingsOf(o).places)
    requires InRange(x.Value() + y.Value(), SettingsOf(o))
    ensures Run(o, ToString(Add(x, y))) == Stored(ToFixed(Add(x, y), SettingsOf(o).places))
  {
    ExactSum(x.Value(), y.Value(), SettingsOf(o).places);
    SettleString(Add(x, y), Fallback(o), SettingsOf(o));
  }

  lemma ExactNeg(v: real, k: nat)
    requires ExactAt(v, k)
    ensures ExactAt(-v, k)
  {
    var p := Pow10(k) as real;
    var n := SignedRound(v, k);
    assert -v * p == (-n) as real;
    RoundOfInteger(-v, k, -n);
  }

  /** With min set, `valmin` stores min in toFixed form. */
  lemma ValMinSet(o: map<string, Val>)
    requires WellFormed(o) && Consistent(SettingsOf(o))
    requires SettingsOf(o).places <= MaxFractionDigits && o["min"].Num?
    ensures Run(o, FieldText(o["min"])) == Stored(ToFixed(o["min"].n, SettingsOf(o).places))
  {
    var b := o["min"].n;
    ParseToString(b);
    SettleExact(ToString(b), Fallback(o), SettingsOf(o));
    ToFixedValue(Normalize(b), b, SettingsOf(o).places);
  }

  /** With max set, `valmax` stores max in toFixed form. */
  lemma ValMaxSet(o: map<string, Val>)
    requires WellFormed(o) && Consistent(SettingsOf(o))
    requires SettingsOf(o).places <= MaxFractionDigits && o["max"].Num?
    ensures Run(o, FieldText(o["max"])) == Stored(ToFixed(o["max"].n, SettingsOf(o).places))
  {
    var b := o["max"].n;
    ParseToString(b);
    SettleExact(ToString(b), Fallback(o), SettingsOf(o));
    ToFixedValue(Normalize(b), b, SettingsOf(o).places);
  }

  /** A field that reads as 0 ends at 0 when 0 is within the bounds. */
  lemma ZeroSettles(o: map<string, Val>, e: string)
    requires WellFormed(o) && Consistent(SettingsOf(o))
    requires SettingsOf(o).places <= MaxFractionDigits
    requires Parse(e) == Some(Decimal(0, 0)) && InRange(0.0, SettingsOf(o))
    ensures Run(o, e) == Stored(ToFixed(Decimal(0, 0), SettingsOf(o).places))
  {
    var s := SettingsOf(o);
    assert Decimal(0, 0).Value() == 0.0;
    ExactAtWider(Decimal(0, 0), s.places);
    SettleExact(e, Fallback(o), s);
  }

  /**
   * With min unset, `valmin` writes "" (jQuery's text for null), which reads
   * as 0: the field ends at 0, or at max when max is below 0.
   */
  lemma ValMinUnset(o: map<string, Val>)
    requires WellFormed(o) && Consistent(SettingsOf(o))
    requires SettingsOf(o).places <= MaxFractionDigits && o["min"].Null?
    ensures var k := SettingsOf(o).places;
      Run(o, FieldText(o["min"]))
        == if o["max"].Num? && o["max"].n.Value() < 0.0 then Stored(ToFixed(o["max"].n, k))
           else Stored(ToFixed(Decimal(0, 0), k))
  {
    var e := FieldText(o["min"]);
    assert Decimal(0, 0).Value() == 0.0;
    if o["max"].Num? && o["max"].n.Value() < 0.0 {
      SaturateMax(e, Fallback(o), SettingsOf(o));
    } else {
      ZeroSettles(o, e);
    }
  }

  /** With max unset, `valmax` likewise ends at 0, or at min when min is above 0. */
  lemma ValMaxUnset(o: map<string, Val>)
    requires WellFormed(o) && Consistent(SettingsOf(o))
    requires SettingsOf(o).places <= MaxFractionDigits && o["max"].Null?
    ensures var k := SettingsOf(o).places;
      Run(o, FieldText(o["max"]))
        == if o["min"].Num? && o["min"].n.Value() > 0.0 then Stored(ToFixed(o["min"].n, k))
           else Stored(ToFixed(Decimal(0, 0), k))
  {
    var e := FieldText(o["max"]);
    assert Decimal(0, 0).Value() == 0.0;
    if o["min"].Num? && o["min"].n.Value() > 0.0 {
      SaturateMin(e, Fallback(o), SettingsOf(o));
    } else {
      ZeroSettles(o, e);
    }
  }

  /** Clearing `options.parent` leaves what the chain reads untouched. */
  lemma ParentCleared(o: map<string, Val>)
    requires WellFormed(o)
    ensures WellFormed(o["parent" := Null]) && SettingsOf(o["parent" := Null]) == SettingsOf(o)
    ensures o["parent" := Null]["value"] == o["value"]
  {
    KeysDistinct();
  }

  /* ---------------------------------------------------- resolving in place */

  /** A key's value in an options object, None for undefined. */
  function Lookup(m: map<string, Val>, k: string): Option<Val>
  {
    if k in m then Some(m[k]) else None
  }

  /** `v*1`, where a NaN is written back as undefined. */
  function NumberOrUndefined(v: Option<Val>): Option<Val>
  {
    if v.Some? && ToNumber(v.value).Some? then Some(Num(ToNumber(v.value).value)) else None
  }

  /** What the options hold once attributes are inherited and the keys failing `key in defaults` deleted. */
  function Filtered(given: map<string, Val>, attrs: map<string, string>, k: string): Option<Val>
  {
    if k in DefaultKeys then Layered(k, given, attrs)
    else if k in ObjectPrototypeKeys then Lookup(given, k)
    else None
  }

  /** What the options hold once the numeric keys are coerced, before the defaults fill the gaps. */
  function Coerced(given: map<string, Val>, attrs: map<string, string>, k: string): Option<Val>
  {
    if k in NumericKeys then NumberOrUndefined(Layered(k, given, attrs)) else Filtered(given, attrs, k)
  }

  /** The options once the keys in `done` have been coerced. */
  function PartlyCoerced(given: map<string, Val>, attrs: map<string, string>, done: set<string>, k: string): Option<Val>
  {
    if k in done then NumberOrUndefined(Layered(k, given, attrs)) else Filtered(given, attrs, k)
  }

  lemma ExtendAt(m: map<string, Val>, given: map<string, Val>, attrs: map<string, string>, k: string)
    requires k in DefaultKeys && Lookup(m, k) == Coerced(given, attrs, k)
    ensures (if k in m then m[k] else Default(k)) == Coerce(k, Layered(k, given, attrs))
  {
  }

  /**
   * `$.extend({}, defaults, options)` over the coerced options is the layered,
   * coerced map plus the explicit options under Object.prototype names.
   */
  lemma ExtendIsLayer(m: map<string, Val>, given: map<string, Val>, attrs: map<string, string>)
    requires forall k :: Lookup(m, k) == Coerced(given, attrs, k)
    ensures (map k | k in DefaultKeys + m.Keys :: if k in m then m[k] else Default(k))
         == Layer(given, attrs) + PrototypeNamed(given)
  {
    var e := map k | k in DefaultKeys + m.Keys :: if k in m then m[k] else Default(k);
    var p := PrototypeNamed(given);
    var l := Layer(given, attrs) + p;
    PrototypeKeysApart();
    CoercedKeys(m, given, attrs);
    assert e.Keys == l.Keys;
    forall k | k in DefaultKeys
      ensures e[k] == l[k]
    {
      assert k !in p;
      LayerAt(given, attrs, k);
      ExtendAt(m, given, attrs, k);
    }
    forall k | k in p
      ensures e[k] == l[k]
    {
    }
  }

  /** The coerced options hold keys of `defaults` and the explicit options under Object.prototype names. */
  lemma CoercedKeys(m: map<string, Val>, given: map<string, Val>, attrs: map<string, string>)
    requires forall k :: Lookup(m, k) == Coerced(given, attrs, k)
    ensures forall k | k in m :: k in DefaultKeys || k in PrototypeNamed(given)
    ensures forall k | k in PrototypeNamed(given) :: k in m && m[k] == given[k]
  {
    forall k | k in m
      ensures k in DefaultKeys || k in PrototypeNamed(given)
    {
      assert Lookup(m, k) == Coerced(given, attrs, k);
    }
    forall k | k in PrototypeNamed(given)
      ensures k in m && m[k] == given[k]
    {
      PrototypeKeysApart();
      assert Lookup(m, k) == Coerced(given, attrs, k);
    }
  }

  /** Repairing `step` and `decimals` does not touch the keys outside `defaults`. */
  lemma RepairApart(l: map<string, Val>, p: map<string, Val>, step: Val, decimals: Val)
    requires forall k | k in p :: k !in DefaultKeys
    ensures (l + p)["step" := step]["decimals" := decimals] == l["step" := step]["decimals" := decimals] + p
    ensures "step" in l ==> (l + p)["step"] == l["step"]
  {
    assert "step" in DefaultKeys && "decimals" in DefaultKeys;
  }

  /* ------------------------------------------------------------ the widget */

  /** One NumIn widget: its options, the element's attributes and the text of its field. */
  class Plugin {
    var options: map<string, Val>
    var attrs: map<string, string>
    var field: string

    /** Resolved options whose bounds let the change chain stop. */
    predicate Ready()
      reads this
    {
      WellFormed(options) && Consistent(SettingsOf(options))
    }

    /** The state once `start` has been written from options `o` and the chain has ended. */
    predicate Ran(o: map<string, Val>, a: map<string, string>, start: string, thrown: bool)
      reads this
      requires WellFormed(o) && Consistent(SettingsOf(o))
    {
      var r := Run(o, start);
      field == r.text && options == Commit(o, r) && attrs == a && thrown == r.Thrown?
    }

    /**
     * `new Plugin(element, options)` up to the `change` that `init` triggers:
     * `_options` resolves the options, `_create` writes `options.value` into
     * the field of the template and clears `options.parent`.
     */
    constructor (opts: map<string, Val>, elementAttrs: map<string, string>)
      requires Consistent(SettingsOf(ResolveAsWritten(opts, elementAttrs)))
      ensures Ready() && attrs == elementAttrs
      ensures options == ResolveAsWritten(opts, elementAttrs)["parent" := Null]
      ensures field == FieldText(options["value"])
    {
      options := opts;
      attrs := elementAttrs;
      field := "";
      new;
      ResolveOptions();
      field := FieldText(options["value"]);
      ClearParent();
    }

    /**
     * `new Plugin(element, options)` as `$.fn.numin` calls it: the widget is
     * built and `init` triggers `change`. `thrown` is a RangeError of the
     * chain, which escapes `init`, `new Plugin` and `$.fn.numin`.
     */
    static method Create(opts: map<string, Val>, elementAttrs: map<string, string>) returns (p: Plugin, thrown: bool)
      requires Consistent(SettingsOf(ResolveAsWritten(opts, elementAttrs)))
      ensures fresh(p) && p.Ready()
      ensures var o := ResolveAsWritten(opts, elementAttrs)["parent" := Null];
        WellFormed(o) && Consistent(SettingsOf(o)) && p.Ran(o, elementAttrs, FieldText(o["value"]), thrown)
    {
      p := new Plugin(opts, elementAttrs);
      thrown := p.HandleChange();
    }

    /** `options.parent = null` once the template has been built around the element. */
    method ClearParent()
      requires WellFormed(options)
      modifies this
      ensures options == old(options)["parent" := Null]
      ensures WellFormed(options) && SettingsOf(options) == SettingsOf(old(options))
      ensures options["value"] == old(options)["value"]
      ensures field == old(field) && attrs == old(attrs)
    {
      ParentCleared(options);
      options := options["parent" := Null];
    }

    /**
     * `_options`: inherit the attributes, drop the keys `defaults` lacks,
     * coerce the numeric keys, extend the defaults, then repair `step` and
     * `decimals`.
     */
    method ResolveOptions()
      modifies this
      ensures options == ResolveAsWritten(old(options), attrs)
      ensures attrs == old(attrs) && field == old(field)
    {
      ghost var given := options;
      InheritAttributes();
      DropUnknownKeys();
      CoerceNumericKeys(given);
      ExtendDefaults(given);
      ghost var l := Layer(given, attrs);
      ghost var step := FixStep(l["step"].n);
      ghost var decimals := FixDecimals(l["decimals"].n, FractionLength(ToString(step)));
      PrototypeKeysApart();
      RepairApart(l, PrototypeNamed(given), Num(step), Num(decimals));
      KeysDistinct();
      RepairStep();
      RepairDecimals();
    }

    /** The first loop of `_options`: a key `defaults` has takes the attribute, then the data attribute, when undefined. */
    method InheritAttributes()
      modifies this
      ensures attrs == old(attrs) && field == old(field)
      ensures forall k :: (Lookup(options, k)
        == if k in DefaultKeys then Layered(k, old(options), attrs) else Lookup(old(options), k))
    {
      var todo := DefaultKeys;
      while todo != {}
        invariant todo <= DefaultKeys
        invariant attrs == old(attrs) && field == old(field)
        invariant forall k :: (Lookup(options, k)
          == if k in DefaultKeys && k !in todo then Layered(k, old(options), attrs) else Lookup(old(options), k))
        decreases |todo|
      {
        var key :| key in todo;
        if key !in options && key in attrs {
          options := options[key := Str(attrs[key])];
        }
        if key !in options && AttrName(key) in attrs {
          options := options[key := Str(attrs[AttrName(key)])];
        }
        todo := todo - {key};
      }
    }

    /**
     * The second loop of `_options`: every key for which `key in defaults`
     * fails is deleted; the names `defaults` inherits from Object.prototype pass.
     */
    method DropUnknownKeys()
      modifies this
      ensures attrs == old(attrs) && field == old(field)
      ensures forall k :: (Lookup(options, k) == if InDefaults(k) then Lookup(old(options), k) else None)
    {
      var present := options.Keys;
      while present != {}
        invariant attrs == old(attrs) && field == old(field)
        invariant forall k :: (Lookup(options, k)
          == if k in present || InDefaults(k) then Lookup(old(options), k) else None)
        decreases |present|
      {
        var key :| key in present;
        if !InDefaults(key) {
          options := options - {key};
        }
        present := present - {key};
      }
    }

    /** The five `*1` coercions of `_options`. */
    method CoerceNumericKeys(ghost given: map<string, Val>)
      requires forall k :: Lookup(options, k) == Filtered(given, attrs, k)
      modifies this
      ensures attrs == old(attrs) && field == old(field)
      ensures forall k :: Lookup(options, k) == Coerced(given, attrs, k)
    {
      assert forall k :: Lookup(options, k) == PartlyCoerced(given, attrs, {}, k);
      KeysDistinct();
      CoerceNumber("value", given, {});
      CoerceNumber("min", given, {"value"});
      CoerceNumber("max", given, {"value", "min"});
      CoerceNumber("step", given, {"value", "min", "max"});
      CoerceNumber("decimals", given, {"value", "min", "max", "step"});
      assert {"value", "min", "max", "step"} + {"decimals"} == NumericKeys;
      forall k
        ensures Lookup(options, k) == Coerced(given, attrs, k)
      {
        assert Lookup(options, k) == PartlyCoerced(given, attrs, NumericKeys, k);
      }
    }

    /** `this.options = $.extend({}, this.defaults, this.options)`. */
    method ExtendDefaults(ghost given: map<string, Val>)
      requires forall k :: Lookup(options, k) == Coerced(given, attrs, k)
      modifies this
      ensures options == Layer(given, attrs) + PrototypeNamed(given)
      ensures attrs == old(attrs) && field == old(field)
    {
      ExtendIsLayer(options, given, attrs);
      options := map k | k in DefaultKeys + options.Keys :: if k in options then options[k] else Default(k);
    }

    /** A `step` of 0 becomes the default step. */
    method RepairStep()
      requires "step" in options && options["step"].Num?
      modifies this
      ensures options == old(options)["step" := Num(FixStep(old(options)["step"].n))]
      ensures attrs == old(attrs) && field == old(field)
    {
      if options["step"].n.Value() == 0.0 {
        options := options["step" := Default("step")];
      } else {
        assert options == options["step" := options["step"]];
      }
    }

    /** A negative `decimals` becomes the default; then it is raised to the fraction length of `step`. */
    method RepairDecimals()
      requires "step" in options && options["step"].Num?
      requires "decimals" in options && options["decimals"].Num?
      modifies this
      ensures options == old(options)["decimals"
        := Num(FixDecimals(old(options)["decimals"].n, FractionLength(ToString(old(options)["step"].n))))]
      ensures attrs == old(attrs) && field == old(field)
    {
      var dec := FractionLength(ToString(options["step"].n));
      ghost var d := FixDecimals(options["decimals"].n, dec);
      if options["decimals"].n.Value() < 0.0 {
        options := options["decimals" := Default("decimals")];
      }
      if options["decimals"].n.Value() < dec as real {
        options := options["decimals" := Num(Decimal(dec, 0))];
      }
      if options == old(options) {
        assert options == options["decimals" := Num(d)];
      }
    }

    /** `options[key] = options[key]*1`, with a NaN cleared to undefined. */
    method CoerceNumber(key: string, ghost given: map<string, Val>, ghost done: set<string>)
      requires key in NumericKeys && key !in done
      requires forall k :: Lookup(options, k) == PartlyCoerced(given, attrs, done, k)
      modifies this
      ensures attrs == old(attrs) && field == old(field)
      ensures forall k :: Lookup(options, k) == PartlyCoerced(given, attrs, done + {key}, k)
    {
      ghost var before := options;
      assert key in DefaultKeys && Lookup(before, key) == Layered(key, given, attrs);
      var n := NumberOrUndefined(Lookup(options, key));
      if n.Some? {
        options := options[key := n.value];
      } else {
        options := options - {key};
      }
      forall k
        ensures Lookup(options, k) == PartlyCoerced(given, attrs, done + {key}, k)
      {
        if k != key {
          assert Lookup(options, k) == Lookup(before, k) == PartlyCoerced(given, attrs, done, k);
        }
      }
    }

    /**
     * `_handleChange`: each failing validator rewrites the field and triggers
     * `change` again; a field that passes them all is stored as `options.value`.
     * `thrown` is the RangeError of `toFixed` beyond 100 digits.
     */
    method HandleChange() returns (thrown: bool)
      requires Ready()
      modifies this
      ensures Ready()
      ensures Ran(old(options), old(attrs), old(field), thrown)
    {
      var s := SettingsOf(options);
      var fallback := Fallback(options);
      while true
        invariant options == old(options) && attrs == old(attrs)
        invariant Settle(field, fallback, s) == Settle(old(field), fallback, s)
        decreases Rank(field, fallback, s)
      {
        ghost var before := field;
        var rewritten;
        rewritten, thrown := RunValidators(fallback, s);
        if thrown {
          return;
        }
        if rewritten {
          // the rewrite triggers change again
          SettleRewrite(before, fallback, s, field);
          continue;
        }
        CommitKeepsSettings(options, old(field));
        options := options["value" := Str(field)];
        return;
      }
    }

    /**
     * One pass of `_validate_num`, `_validate_dec`, `_validate_min`,
     * `_validate_max` and `_validate_step`: the first that fails rewrites the field.
     */
    method RunValidators(fallback: string, s: Settings) returns (rewritten: bool, thrown: bool)
      modifies this
      ensures options == old(options) && attrs == old(attrs)
      ensures var h := Validate(old(field), fallback, s);
        && (h == Pass ==> !rewritten && !thrown && field == old(field))
        && (h == Throw ==> !rewritten && thrown && field == old(field))
        && (h.Rewrite? ==> rewritten && !thrown && field == h.text)
    {
      rewritten, thrown := true, false;
      var x := Parse(field);
      if x.None? {
        // _validate_num
        field := fallback;
        return;
      }
      if s.places > MaxFractionDigits {
        // toFixed throws a RangeError
        rewritten, thrown := false, true;
        return;
      }
      var fixed := ToFixed(x.value, s.places);
      if field != fixed {
        // _validate_dec
        field := fixed;
        return;
      }
      if s.min.Some? && x.value.Value() < s.min.value.Value() {
        // _validate_min
        field := ToString(s.min.value);
        return;
      }
      if s.max.Some? && x.value.Value() > s.max.value.Value() {
        // _validate_max
        field := ToString(s.max.value);
        return;
      }
      // _validate_step always passes
      rewritten := false;
    }

    /** `$element.val(start).trigger("change.numin")`. */
    method WriteAndChange(start: string) returns (thrown: bool)
      requires Ready()
      modifies this
      ensures Ready()
      ensures Ran(old(options), old(attrs), start, thrown)
    {
      field := start;
      thrown := HandleChange();
    }

    /** `increase`: writes the field's number plus step. */
    method Increase() returns (thrown: bool)
      requires Ready()
      modifies this
      ensures Ready()
      ensures Ran(old(options), old(attrs), StepText(old(field), old(options)["step"].n, true), thrown)
    {
      thrown := WriteAndChange(StepText(field, options["step"].n, true));
    }

    /** `decrease`: writes the field's number minus step. */
    method Decrease() returns (thrown: bool)
      requires Ready()
      modifies this
      ensures Ready()
      ensures Ran(old(options), old(attrs), StepText(old(field), old(options)["step"].n, false), thrown)
    {
      thrown := WriteAndChange(StepText(field, options["step"].n, false));
    }

    /** `valmin`: writes min, which jQuery writes as "" when min is null. */
    method ValMin() returns (thrown: bool)
      requires Ready()
      modifies this
      ensures Ready()
      ensures Ran(old(options), old(attrs), FieldText(old(options)["min"]), thrown)
    {
      thrown := WriteAndChange(FieldText(options["min"]));
    }

    /** `valmax`: writes max, which jQuery writes as "" when max is null. */
    method ValMax() returns (thrown: bool)
      requires Ready()
      modifies this
      ensures Ready()
      ensures Ran(old(options), old(attrs), FieldText(old(options)["max"]), thrown)
    {
      thrown := WriteAndChange(FieldText(options["max"]));
    }

    /** The four click handlers: a button carrying the `disabled` class does nothing. */
    method HandleClick(a: Keys.Action, disabled: bool) returns (thrown: bool)
      requires Ready() && a != Keys.NoAction
      modifies this
      ensures Ready()
      ensures disabled ==> !thrown && field == old(field) && options == old(options) && attrs == old(attrs)
      ensures !disabled ==> Ran(old(options), old(attrs), StartText(a, old(options), old(field)), thrown)
    {
      if disabled {
        return false;
      }
      match a {
        case Increase => thrown := Increase();
        case Decrease => thrown := Decrease();
        case ToMin => thrown := ValMin();
        case ToMax => thrown := ValMax();
      }
    }

    /** `_handleKeydown`: the handlers are called with no element, so no `disabled` class blocks them. */
    method HandleKeydown(which: int, alt: bool, ctrl: bool) returns (thrown: bool)
      requires Ready()
      modifies this
      ensures Ready()
      ensures var a := Keys.KeyAction(Truthy(old(options)["keybind"]), which, alt, ctrl);
        && (a == Keys.NoAction ==> !thrown && field == old(field) && options == old(options) && attrs == old(attrs))
        && (a != Keys.NoAction ==> Ran(old(options), old(attrs), StartText(a, old(options), old(field)), thrown))
    {
      var a := Keys.KeyAction(Truthy(options["keybind"]), which, alt, ctrl);
      if a == Keys.NoAction {
        return false;
      }
      thrown := HandleClick(a, false);
    }

    /**
     * `value`, with its branches as written: called with no argument it
     * clears the field and triggers `change`; with an argument it returns
     * `options.value` and sets nothing.
     */
    method Value(arg: Option<Val>) returns (r: Option<Val>, thrown: bool)
      requires Ready()
      modifies this
      ensures Ready()
      ensures arg.None? ==> r.None? && Ran(old(options), old(attrs), FieldText(Null), thrown)
      ensures arg.Some? ==> r == Some(old(options)["value"]) && !thrown
      ensures arg.Some? ==> field == old(field) && options == old(options) && attrs == old(attrs)
    {
      if arg.None? {
        r := None;
        thrown := WriteAndChange(FieldText(Null));
      } else {
        r := Some(options["value"]);
        thrown := false;
      }
    }
  }
}
