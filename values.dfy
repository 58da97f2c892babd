/**
 * The JavaScript values that reach the widget through its options and
 * attributes, with the three coercions the plugin applies to them.
 */
module Values {
  import opened Numbers

  /** A JavaScript value; `undefined` is modelled by absence from a map. */
  datatype Val = Null | Bool(b: bool) | Num(n: Decimal) | Str(s: string) | Obj

  /** JavaScript truthiness, as used by `options.value || 0` and `if (options.keybind)`. */
  predicate Truthy(v: Val)
    ensures !v.Str? && !v.Obj? ==> (Truthy(v) <==> ToNumber(v).Some? && ToNumber(v).value.Value() != 0.0)
  {
    match v
    case Null => false
    case Bool(b) => b
    case Num(n) => n.Value() != 0.0
    case Str(s) => s != []
    case Obj => true
  }

  /** The text jQuery's `.val(v)` writes into the field (null becomes ""). */
  function FieldText(v: Val): (t: string)
    ensures v.Num? || v.Null? ==> Parse(t).Some? && Parse(t).value.Value() == ToNumber(v).value.Value()
    ensures v.Str? ==> t == v.s
  {
    match v
    case Null => ""
    case Bool(b) => if b then "true" else "false"
    case Num(n) => ParseToString(n); ToString(n)
    case Str(s) => s
    case Obj => "[object Object]"
  }

  /** The coercion `v*1`; None stands for NaN. */
  function ToNumber(v: Val): (r: Option<Decimal>)
    ensures r.None? ==> v.Str? || v.Obj?
  {
    match v
    case Null => Some(Decimal(0, 0))
    case Bool(b) => Some(Decimal(if b then 1 else 0, 0))
    case Num(n) => Some(n)
    case Str(s) => Parse(s)
    case Obj => None
  }
}
