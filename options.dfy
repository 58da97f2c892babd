/**
 * Option resolution (`Plugin.prototype._options`): explicit options are layered
 * over the element's attributes, then over its `data-numin-*` attributes, then
 * over the defaults; unknown keys are dropped and the numeric keys coerced.
 */
module Options {
  import opened Numbers
  import opened Values

  const Template: string := "<div class=\"input-group numin-wrapper\"><span class=\"input-group-btn numin-btn-wrapper\"><button class=\"btn btn-default numin-trigger-decrease\" type=\"button\">-</button></span><element /><span class=\"input-group-btn numin-btn-wrapper\"><button class=\"btn btn-default numin-trigger-increase\" type=\"button\">+</button></span></div>"

  /** The keys of `defaults`. */
  const DefaultKeys: set<string> := {"value", "min", "max", "step", "decimals", "keybind", "touch", "parent", "template"}

  /** The keys whose value is coerced with `*1`. */
  const NumericKeys: set<string> := {"value", "min", "max", "step", "decimals"}

  /** `Plugin.prototype.defaults`. */
  function Default(key: string): Val
  {
    match key
    case "value" => Num(Decimal(1, 0))
    case "step" => Num(Decimal(1, 0))
    case "decimals" => Num(Decimal(0, 0))
    case "keybind" => Bool(true)
    case "touch" => Bool(true)
    case "template" => Str(Template)
    case _ => Null   // min, max, parent
  }

  /** Names every plain object inherits from Object.prototype, so `key in defaults` holds for them. */
  const ObjectPrototypeKeys: set<string> := {
    "constructor", "hasOwnProperty", "isPrototypeOf", "propertyIsEnumerable",
    "toLocaleString", "toString", "valueOf",
    "__defineGetter__", "__defineSetter__", "__lookupGetter__", "__lookupSetter__"}

  function AttrName(key: string): string { "data-numin-" + key }

  /** The first defined source of a key: explicit option, attribute, data attribute. */
  function Layered(key: string, opts: map<string, Val>, attrs: map<string, string>): (r: Option<Val>)
    ensures r.None? <==> key !in opts && key !in attrs && AttrName(key) !in attrs
    ensures key in opts ==> r == Some(opts[key])
    ensures key !in opts && r.Some? ==> r.value.Str?
  {
    if key in opts then Some(opts[key])
    else if key in attrs then Some(Str(attrs[key]))
    else if AttrName(key) in attrs then Some(Str(attrs[AttrName(key)]))
    else None
  }

  /**
   * A key's value once `*1` has been applied to the numeric keys (a NaN
   * becomes undefined) and the defaults have filled what is undefined.
   */
  function Coerce(key: string, v: Option<Val>): (r: Val)
    requires key in DefaultKeys
    ensures key in NumericKeys ==> r.Num? || r == Default(key)
  {
    if key in NumericKeys then
      var n := if v.Some? then ToNumber(v.value) else None;
      if n.Some? then Num(n.value) else Default(key)
    else if v.Some? then v.value else Default(key)
  }

  /**
   * The length of `(s.split(".")[1] || 0)`, taken as 0 when s has no ".".
   * There `(0).length` is undefined and `decimals < undefined` is false, so
   * `decimals` is left alone; taking 0 instead changes nothing, because the
   * line before has already made `decimals` at least 0.
   */
  function FractionLength(s: string): (n: nat)
    ensures n < |s| || n == 0
  {
    var i := DotIndex(s);
    if i == |s| then 0 else DotIndex(s[i + 1..])
  }

  /** `step == 0` is repaired to the default step. */
  function FixStep(step: Decimal): (r: Decimal)
    ensures r.Value() != 0.0
    ensures step.Value() != 0.0 ==> r == step
  {
    assert Decimal(1, 0).Value() == 1.0;
    if step.Value() == 0.0 then Decimal(1, 0) else step
  }

  /** A negative `decimals` becomes the default 0; then it is raised to the fraction length of `step`. */
  function FixDecimals(decimals: Decimal, dec: nat): (r: Decimal)
    ensures r.Value() >= 0.0 && r.Value() >= dec as real
  {
    assert Decimal(dec, 0).Value() == dec as real;
    assert Decimal(0, 0).Value() == 0.0;
    var d := if decimals.Value() < 0.0 then Decimal(0, 0) else decimals;
    if d.Value() < dec as real then Decimal(dec, 0) else d
  }

  function Layer(opts: map<string, Val>, attrs: map<string, string>): (m: map<string, Val>)
    ensures forall k :: k in m <==> k in DefaultKeys
    ensures m["step"].Num? && m["decimals"].Num? && m["value"].Num?
    ensures (m["min"].Null? || m["min"].Num?) && (m["max"].Null? || m["max"].Num?)
  {
    map k | k in DefaultKeys :: Coerce(k, Layered(k, opts, attrs))
  }

  lemma LayerAt(opts: map<string, Val>, attrs: map<string, string>, k: string)
    requires k in DefaultKeys
    ensures Layer(opts, attrs)[k] == Coerce(k, Layered(k, opts, attrs))
  {
  }

  /** The options `_options` leaves behind (with unknown keys dropped as intended). */
  function Resolve(opts: map<string, Val>, attrs: map<string, string>): (r: map<string, Val>)
    ensures WellFormed(r)
  {
    var m := Layer(opts, attrs);
    var step := FixStep(m["step"].n);
    var decimals := FixDecimals(m["decimals"].n, FractionLength(ToString(step)));
    ResolveShape(m, m["step" := Num(step)]["decimals" := Num(decimals)], step, decimals);
    m["step" := Num(step)]["decimals" := Num(decimals)]
  }

  /** `key in this.defaults`: an own key of `defaults` or a name it inherits. */
  predicate InDefaults(key: string)
  {
    key in DefaultKeys || key in ObjectPrototypeKeys
  }

  /** The explicit options under Object.prototype names, which `_options` keeps as written. */
  function PrototypeNamed(opts: map<string, Val>): map<string, Val>
  {
    map k | k in opts && k in ObjectPrototypeKeys :: opts[k]
  }

  /**
   * The options `_options` leaves behind as written: `key in this.defaults`
   * also holds for the names inherited from Object.prototype, so explicit
   * options under those names survive and `$.extend` copies them.
   */
  function ResolveAsWritten(opts: map<string, Val>, attrs: map<string, string>): (r: map<string, Val>)
    ensures WellFormed(r)
  {
    var m := Resolve(opts, attrs);
    var p := PrototypeNamed(opts);
    ResolveKeys(opts, attrs);
    PrototypeKeysApart();
    MergeApart(m, p);
    m + p
  }

  /**
   * The as-written options hold the keys of `defaults`, with the values the
   * intended filter gives them, and the explicit options under
   * Object.prototype names; nothing else.
   */
  lemma ResolveAsWrittenKeys(opts: map<string, Val>, attrs: map<string, string>)
    ensures var r := ResolveAsWritten(opts, attrs);
      && (forall k :: k in r <==> k in DefaultKeys || (k in opts && k in ObjectPrototypeKeys))
      && (forall k | k in DefaultKeys :: r[k] == Resolve(opts, attrs)[k])
      && (forall k | k in r && k !in DefaultKeys :: r[k] == opts[k])
  {
    ResolveKeys(opts, attrs);
    PrototypeKeysApart();
    MergeApart(Resolve(opts, attrs), PrototypeNamed(opts));
  }

  /** Adding keys outside `defaults` leaves a well-formed options object well formed. */
  lemma MergeApart(m: map<string, Val>, p: map<string, Val>)
    requires WellFormed(m) && forall k | k in p :: k !in DefaultKeys
    ensures WellFormed(m + p)
    ensures forall k | k in DefaultKeys && k in m :: (m + p)[k] == m[k]
  {
    assert "value" in DefaultKeys && "min" in DefaultKeys && "max" in DefaultKeys;
    assert "step" in DefaultKeys && "decimals" in DefaultKeys && "keybind" in DefaultKeys;
  }

  /** No Object.prototype name is a key of `defaults`. */
  lemma PrototypeKeysApart()
    ensures forall k | k in ObjectPrototypeKeys :: k !in DefaultKeys
  {
    PrototypeKeyShape();
    DefaultKeyShape();
  }

  lemma PrototypeKeyShape()
    ensures forall k | k in ObjectPrototypeKeys :: |k| >= 7 && (|k| == 7 ==> k[0] == 'v') && (|k| == 8 ==> k[1] == 'o')
  {
  }

  lemma DefaultKeyShape()
    ensures forall k | k in DefaultKeys :: |k| <= 8 && (|k| == 7 ==> k[0] != 'v') && (|k| == 8 ==> k[1] != 'o')
  {
  }

  /** What the rest of the widget relies on in a resolved options object. */
  predicate WellFormed(m: map<string, Val>)
  {
    && "value" in m && (m["value"].Num? || (m["value"].Str? && Numeric(m["value"].s)))
    && "min" in m && (m["min"].Null? || m["min"].Num?)
    && "max" in m && (m["max"].Null? || m["max"].Num?)
    && "step" in m && m["step"].Num? && m["step"].n.Value() != 0.0
    && "decimals" in m && m["decimals"].Num? && m["decimals"].n.Value() >= 0.0
    && "keybind" in m
  }

  /* ---------------------------------------------------------------- lemmas */

  /** The resolved key set is exactly the key set of `defaults`. */
  lemma ResolveKeys(opts: map<string, Val>, attrs: map<string, string>)
    ensures forall k :: k in Resolve(opts, attrs) <==> k in DefaultKeys
  {
  }

  /** Non-numeric keys take the first defined source, in precedence order. */
  lemma ResolvePrecedence(opts: map<string, Val>, attrs: map<string, string>, k: string)
    requires k in DefaultKeys && k !in NumericKeys
    ensures var r := Resolve(opts, attrs);
      && (k in opts ==> r[k] == opts[k])
      && (k !in opts && k in attrs ==> r[k] == Str(attrs[k]))
      && (k !in opts && k !in attrs && "data-numin-" + k in attrs ==> r[k] == Str(attrs["data-numin-" + k]))
      && (k !in opts && k !in attrs && "data-numin-" + k !in attrs ==> r[k] == Default(k))
  {
  }

  /**
   * `value`, `min` and `max` are the number the first defined source coerces
   * to, or the default when that source is NaN or there is none. A NaN source
   * does not fall through to a later one.
   */
  lemma ResolveBounds(opts: map<string, Val>, attrs: map<string, string>, k: string)
    requires k == "value" || k == "min" || k == "max"
    ensures var r := Resolve(opts, attrs);
            var src := Layered(k, opts, attrs);
      && (src.Some? && ToNumber(src.value).Some? ==> r[k] == Num(ToNumber(src.value).value))
      && (src.None? || ToNumber(src.value).None? ==> r[k] == Default(k))
  {
    KeysDistinct();
    ResolveAt(opts, attrs, k);
    LayerAt(opts, attrs, k);
    CoerceNumeric(k, Layered(k, opts, attrs));
  }

  /** Every key but `step` and `decimals` keeps its layered, coerced value. */
  lemma ResolveAt(opts: map<string, Val>, attrs: map<string, string>, k: string)
    requires k in DefaultKeys && k != "step" && k != "decimals"
    ensures Resolve(opts, attrs)[k] == Layer(opts, attrs)[k]
  {
  }

  lemma CoerceNumeric(k: string, src: Option<Val>)
    requires k in NumericKeys
    ensures src.Some? && ToNumber(src.value).Some? ==> Coerce(k, src) == Num(ToNumber(src.value).value)
    ensures src.None? || ToNumber(src.value).None? ==> Coerce(k, src) == Default(k)
  {
  }

  /** `step` is the coerced source, the default 1 when NaN or zero; never zero. */
  lemma ResolveStep(opts: map<string, Val>, attrs: map<string, string>)
    ensures var r := Resolve(opts, attrs);
            var src := Layered("step", opts, attrs);
            var n := if src.Some? then ToNumber(src.value) else None;
      && r["step"].Num? && r["step"].n.Value() != 0.0
      && (n.Some? && n.value.Value() != 0.0 ==> r["step"] == Num(n.value))
      && (n.None? || n.value.Value() == 0.0 ==> r["step"] == Num(Decimal(1, 0)))
  {
  }

  /**
   * `decimals` is never negative and never shorter than the fraction of
   * `step`; it is the larger of the two (a negative source counting as 0).
   */
  lemma ResolveDecimals(opts: map<string, Val>, attrs: map<string, string>)
    ensures var r := Resolve(opts, attrs);
            var d := Layer(opts, attrs)["decimals"].n.Value();
            var dec := Normalize(r["step"].n).scale as real;
      && r["decimals"].Num?
      && r["decimals"].n.Value() >= 0.0
      && r["decimals"].n.Value() >= dec
      && r["decimals"].n.Value() == (if d < 0.0 then dec else if d < dec then dec else d)
  {
    var m := Layer(opts, attrs);
    var step := FixStep(m["step"].n);
    var r := Resolve(opts, attrs);
    assert r["step"].n == step;
    var dec := FractionLength(ToString(step));
    assert r["decimals"] == Num(FixDecimals(m["decimals"].n, dec));
    FractionLengthToString(step);
    FixDecimalsValue(m["decimals"].n, dec);
  }

  lemma FixDecimalsValue(decimals: Decimal, dec: nat)
    ensures var d := decimals.Value();
            FixDecimals(decimals, dec).Value()
              == (if d < 0.0 then dec as real else if d < dec as real then dec as real else d)
  {
    assert Decimal(dec, 0).Value() == dec as real;
    assert Decimal(0, 0).Value() == 0.0;
  }

  lemma ResolveShape(m: map<string, Val>, r: map<string, Val>, step: Decimal, decimals: Decimal)
    requires "value" in m && "min" in m && "max" in m && "keybind" in m
    requires m["value"].Num? && (m["min"].Null? || m["min"].Num?) && (m["max"].Null? || m["max"].Num?)
    requires step.Value() != 0.0 && decimals.Value() >= 0.0
    requires r == m["step" := Num(step)]["decimals" := Num(decimals)]
    ensures WellFormed(r)
  {
    KeysDistinct();
  }

  /** The keys the widget reads and writes are pairwise different strings. */
  lemma KeysDistinct()
    ensures "value" != "min" && "value" != "max" && "value" != "step" && "value" != "decimals"
    ensures "value" != "keybind" && "value" != "parent"
    ensures "min" != "max" && "min" != "step" && "min" != "decimals" && "min" != "keybind" && "min" != "parent"
    ensures "max" != "step" && "max" != "decimals" && "max" != "keybind" && "max" != "parent"
    ensures "step" != "decimals" && "step" != "keybind" && "step" != "parent"
    ensures "decimals" != "keybind" && "decimals" != "parent" && "keybind" != "parent"
  {
    assert "value"[0] == 'v' && "min"[0] == 'm' && "max"[0] == 'm' && "step"[0] == 's';
    assert "decimals"[0] == 'd' && "keybind"[0] == 'k' && "parent"[0] == 'p';
    assert "min"[1] != "max"[1];
  }

  /** The number of characters after the "." of `String(x)` is the number of significant fraction digits of x. */
  lemma FractionLengthToString(x: Decimal)
    ensures FractionLength(ToString(x)) == Normalize(x).scale
  {
    var y := Normalize(x);
    FractionLengthFixed(y.mant < 0, Abs(y.mant), y.scale);
  }

  lemma FractionLengthFixed(neg: bool, n: nat, d: nat)
    ensures FractionLength(FixedString(neg, n, d)) == d
  {
    var sign: string := if neg then "-" else "";
    var a, b := FixedBodySplit(n, d);
    assert FixedString(neg, n, d) == sign + FixedBody(n, d);
    if d == 0 {
      FractionLengthWhole(sign, a);
    } else {
      FractionLengthPoint(sign, a, b);
    }
  }

  lemma FractionLengthWhole(sign: string, a: string)
    requires sign == "-" || sign == ""
    requires AllDigits(a)
    ensures FractionLength(sign + a) == 0
  {
    var c := sign + a;
    assert forall j :: 0 <= j < |c| ==> c[j] != '.';
    DotIndexNone(c);
  }

  lemma FractionLengthPoint(sign: string, a: string, b: string)
    requires sign == "-" || sign == ""
    requires AllDigits(a) && AllDigits(b)
    ensures FractionLength(sign + (a + "." + b)) == |b|
  {
    var c := sign + a;
    assert forall j :: 0 <= j < |c| ==> c[j] != '.';
    assert sign + (a + "." + b) == c + "." + b;
    FractionLengthSplit(c, b);
    DotIndexNone(b);
  }

  lemma FractionLengthSplit(c: string, b: string)
    requires forall j :: 0 <= j < |c| ==> c[j] != '.'
    ensures FractionLength(c + "." + b) == DotIndex(b)
  {
    var s := c + "." + b;
    assert forall j :: 0 <= j < |c| ==> s[j] == c[j];
    assert s[|c|] == '.';
    assert DotIndex(s) == |c|;
    assert s[|c| + 1..] == b;
  }

  /** The as-written resolution keeps an explicit `toString` option. */
  lemma PrototypeKeySurvives()
    ensures var opts := map["toString" := Num(Decimal(5, 0))];
            var r := ResolveAsWritten(opts, map[]);
            "toString" in r && "toString" !in DefaultKeys && r["toString"] == Num(Decimal(5, 0))
  {
    var opts := map["toString" := Num(Decimal(5, 0))];
    assert "toString" in ObjectPrototypeKeys;
    PrototypeKeysApart();
    ResolveAsWrittenKeys(opts, map[]);
  }
}
