# NumIn in Dafny

A model of the value-normalising core of NumIn, a jQuery plugin that turns a text
input into a numeric spinner (`src/jquery.numin.js`). It covers three parts:

- **Option resolution** (`_options`). Explicit options come first, then the element's
  `key` attribute, then its `data-numin-key` attribute, then `defaults`. Keys for which
  `key in defaults` fails are deleted; the names `defaults` inherits from Object.prototype
  pass that test, so explicit options under those names survive. `value`, `min`, `max`, `step` and `decimals` are coerced with `*1`, and a NaN
  falls back to the default. A zero `step` becomes 1. `decimals` is raised to at least 0
  and to at least the number of fraction digits of `step`.
- **The change chain** (`_handleChange` and the five `_validate_*` methods). Each failed
  validator rewrites the field and triggers `change` again. Only a field that passes all
  of them is stored in `options.value`.
- **The operations that feed the chain**: `increase`, `decrease`, `valmin`, `valmax`, the
  four click handlers, the keyboard dispatch of `_handleKeydown`, and the `value` accessor.

## Layout

- `numbers.dfy` (module `Numbers`): numbers are exact decimals `Decimal(mant, scale)`.
  - `Parse` models the string-to-number coercion `s*1` as a trimmed decimal literal, where `""` is 0.
  - `ToFixed` models `Number.prototype.toFixed` as round-half-away-from-zero of the exact value.
  - `ToString` models the shortest decimal form that `String(x)` and `.val(x)` write.
- `values.dfy` (module `Values`): the JavaScript values that options and attributes carry, with truthiness, `.val(v)` and `*1`.
- `options.dfy` (module `Options`): `defaults` and the resolved options as functions: `ResolveAsWritten` follows the code, and `Resolve` reads `key in defaults` as the own keys of `defaults` only. The two agree on every key of `defaults` (`ResolveAsWrittenKeys`).
- `validation.dfy` (module `Validation`): one run of the validators (`Validate`), the whole re-triggered chain (`Settle`) and the measure `Rank` that shows it stops.
- `keys.dfy` (module `Keys`): the key-to-operation mapping of `_handleKeydown`.
- `plugin.dfy` (module `NumIn`): the widget as a class `Plugin`.
  - The fields are `options`, `attrs` and `field`, which is the input's text.
  - The methods update the fields in place as the source does. `_options` runs as loops over the keys, with the filter as written, and `_handleChange` runs as a loop that re-runs the validators until one run passes or throws.

## The chain and when it stops

The plugin never checks that `min <= max`, nor that a bound can be written with `decimals`
fraction digits. Without those two conditions the chain may not stop. Crossed bounds
loop, and so does a `min` that `toFixed` rounds down or a `max` that it rounds up, once
the field reaches that bound:

- `Validation.CrossedBoundsCycle`: with whole bounds `min = a > max = b >= 0` at 0 decimals, the field alternates between `a` and `b`.
- `Validation.InexactBoundCycle` and `Validation.InexactBoundExample`: a non-negative `max` with exactly `decimals + 1` fraction digits that `toFixed` rounds up. With `max = 0.556` and `decimals = 2`, `"0.56"` exceeds `max` and is rewritten to `"0.556"`, which `_validate_dec` rounds back to `"0.56"`.

Some settings that break these conditions still end. `Validation.InexactMinEnds` and
`Validation.InexactMinExample` show one: with `min = 0.556` and `decimals = 2`, `"0.556"`
becomes `"0.56"`, which is above `min` and passes.

Each re-trigger (lines 303, 319, 335 and 351 of `src/jquery.numin.js`) is a nested call through
jQuery's synchronous `trigger`, so in a browser a chain that keeps bouncing ends in a stack-overflow
RangeError that escapes like the `toFixed` one. The two cycle lemmas show that the chain itself
never reaches a passing field; the stack depth is not modelled.

`Settle`, `HandleChange` and every operation that triggers `change` require `Consistent`,
which holds exactly these two conditions. It is sufficient, not necessary. Under
`Consistent`, `Rank` (from 0 to 6) decreases on every rewrite.

A fractional `decimals` is kept as resolved, and `toFixed` uses its integer part. When that integer part exceeds 100 (`decimals` >= 101; 100.5 does not throw), `toFixed` throws a RangeError. That ends the chain without storing
anything, and it is modelled as the outcome `Thrown`.

`value(val)` is modelled as written, and its two branches are the reverse of what its name suggests:

- with no argument it writes `undefined`, so the field becomes `""` and the chain runs;
- with an argument it returns `options.value` and changes nothing.

Construction is split in two:

- The constructor models `new Plugin(element, options)` for an element wrapped in the template, up to the `change` that `init` triggers. The options are resolved, the field receives `options.value`, and `options.parent` is cleared.
- `Plugin.Create` is the constructor followed by that `change`. Its `thrown` result is the RangeError of the chain, which escapes `init`, `new Plugin` and `$.fn.numin`.

## Model

| member | source | states |
|---|---|---|
| Options.Resolve | src/jquery.numin.js:88-126 | with `key in defaults` read as intended, the options are well formed: `value` is a number or numeric text, `min`/`max` are null or numbers, `step` is a nonzero number, `decimals` is a number >= 0 (the key set is stated by `Options.ResolveKeys`) |
| Options.Default | src/jquery.numin.js:50-61 | the `defaults` literal: `value` 1, `min`/`max`/`parent` null, `step` 1, `decimals` 0, `keybind` and `touch` true, and the wrapper template |
| Options.InDefaults | src/jquery.numin.js:97 | `key in this.defaults`: an own key of `defaults` or a name `Object.prototype` provides |
| Options.ResolveKeys | src/jquery.numin.js:95-100 | the resolved key set is exactly the key set of `defaults` |
| Options.ResolvePrecedence | src/jquery.numin.js:90-93 | a non-numeric key takes the explicit option, else the attribute, else the `data-numin-` attribute, else the default |
| Options.ResolveBounds | src/jquery.numin.js:103-117 | `value`, `min` and `max` take the first defined source when `*1` gives a number, and the default when it gives NaN or nothing is defined |
| Options.CoerceNumeric | src/jquery.numin.js:103-114 | a numeric key's value is the coerced number of its source, or the default for NaN or undefined |
| Options.ResolveStep | src/jquery.numin.js:106-120 | `step` is the coerced source when that is a nonzero number, and 1 when it is NaN, 0 or undefined |
| Options.ResolveDecimals | src/jquery.numin.js:107-125 | `decimals` is >= 0 and >= the fraction digits of `step`; it is the coerced value, or that digit count when the value is negative or smaller |
| Options.FixStep | src/jquery.numin.js:120 | the repaired step is nonzero and equals the given one when that is nonzero |
| Options.FixDecimals | src/jquery.numin.js:124-125 | the repaired `decimals` is >= 0 and >= the digit count |
| Options.FixDecimalsValue | src/jquery.numin.js:124-125 | a negative `decimals` is replaced by the default 0 and then raised to the digit count, and a smaller one is raised to it |
| Options.FractionLengthToString | src/jquery.numin.js:123-125 | the length of the fraction part of `String(step)` is the scale of step's shortest decimal form; with no "." the code's `(0).length` is undefined and leaves `decimals` alone, which is the same as taking 0 because line 124 has already made `decimals` >= 0 |
| Options.PrototypeKeySurvives | src/jquery.numin.js:96-100 | as written, an option named `toString` is not a key of `defaults` yet survives resolution |
| Options.ResolveAsWritten | src/jquery.numin.js:88-126 | the options `_options` leaves as written are well formed, as for `Resolve` |
| Options.ResolveAsWrittenKeys | src/jquery.numin.js:95-117 | as written, the options hold exactly the keys of `defaults` and the explicit options under Object.prototype names; on the keys of `defaults` they equal `Resolve` |
| Options.PrototypeKeysApart | src/jquery.numin.js:96 | no Object.prototype name is a key of `defaults` |
| Options.Layered | src/jquery.numin.js:90-93 | a key is undefined exactly when no source defines it; an explicit option wins; a value from an attribute is text |
| Options.Coerce | src/jquery.numin.js:102-117 | a numeric key ends up a number or its default |
| Options.Layer | src/jquery.numin.js:90-117 | the layered options hold exactly the keys of `defaults`; `value`, `step` and `decimals` are numbers and `min`/`max` null or numbers |
| Options.FractionLength | src/jquery.numin.js:123 | the fraction length is shorter than the text, or 0 |
| Validation.ValidatePass | src/jquery.numin.js:279-285 | a run of the validators passes if and only if the field is numeric, in `toFixed(decimals)` form and within the set bounds |
| Validation.Validate | src/jquery.numin.js:279-285 | a run ends in a throw only for a numeric field with `decimals` > 100, where `toFixed` raises a RangeError |
| Validation.Accepted | src/jquery.numin.js:279-288 | a field every validator lets through: numeric, equal to its own `toFixed(decimals)` text, and within the set bounds |
| Validation.AcceptedScale | src/jquery.numin.js:315-318 | an accepted field reads back as a number with exactly `decimals` fraction digits |
| Validation.RewriteNumeric | src/jquery.numin.js:299-357 | when the fallback is numeric, every text a validator writes back is numeric |
| Validation.DecRewriteStable | src/jquery.numin.js:315-325 | the text `_validate_dec` writes passes `_validate_dec` on the next run, except when a negative value rounds to zero ("-0.00") |
| Validation.DecRewriteTwice | src/jquery.numin.js:315-325 | rewriting the rewritten text again gives the same number, so a second rewrite is the last |
| Validation.RankDecreases | src/jquery.numin.js:279-357 | under consistent bounds every rewrite lowers the measure, so the re-triggered chain stops |
| Validation.Settle | src/jquery.numin.js:279-288 | a chain that stores a field stores an accepted one, and a chain ends in a throw only when the integer part of `decimals` exceeds 100 |
| Validation.SettleRewrite | src/jquery.numin.js:299-357 | a rewrite leads to the same end as the text it writes, which has a smaller measure |
| Validation.SettleExact | src/jquery.numin.js:315-357 | a numeric field whose value has at most `decimals` digits and is within the bounds ends stored as its `toFixed` form |
| Validation.SettleString | src/jquery.numin.js:315-357 | an exact, in-range number written into the field as `String(x)` ends stored as `x.toFixed(decimals)` |
| Validation.SettleRounds | src/jquery.numin.js:315-357 | an in-range numeric field with more digits than `decimals` ends stored as its rounding to `decimals` digits: its own `toFixed` text, or "0.00…" when a negative value rounds to zero |
| Validation.RoundedInRange | src/jquery.numin.js:316-357 | under consistent bounds, rounding an in-range value to `decimals` digits keeps it within the bounds, so `_validate_min` and `_validate_max` let the rounded text through |
| Validation.SettleCanonical | src/jquery.numin.js:315-357 | a text that is its own `toFixed` form and lies within the bounds passes every validator and is stored unchanged |
| Validation.SaturateMin | src/jquery.numin.js:331-341 | a numeric field at or below `min` ends stored as `min` in `toFixed` form |
| Validation.SaturateMax | src/jquery.numin.js:347-357 | a numeric field at or above `max` ends stored as `max` in `toFixed` form |
| Validation.CrossedBoundsCycle | src/jquery.numin.js:331-357 | with whole bounds `min` = a > `max` = b >= 0 at 0 decimals, the min and max validators rewrite each field to the other, so the chain never reaches a passing field (in a browser the nested triggers overflow the stack) |
| Validation.InexactBoundCycle | src/jquery.numin.js:315-357 | a non-negative `max` with exactly `decimals` + 1 fraction digits, the last nonzero, that `toFixed` rounds up makes `_validate_dec` and `_validate_max` rewrite each other's text, so the chain never reaches a passing field (in a browser the nested triggers overflow the stack) |
| Validation.InexactBoundExample | src/jquery.numin.js:315-357 | `max` = 0.556 with `decimals` = 2 alternates between "0.56" and "0.556" |
| Validation.InexactRounds | src/jquery.numin.js:315-325 | a non-negative bound with `decimals` + 1 fraction digits, the last nonzero, is rewritten by `_validate_dec` to its rounding |
| Validation.InexactMinEnds | src/jquery.numin.js:315-341 | a `min` with `decimals` + 1 fraction digits that `toFixed` rounds up breaks `Consistent`, yet the chain from `min` ends: min becomes its rounding, which passes |
| Validation.InexactMinExample | src/jquery.numin.js:315-341 | `min` = 0.556 with `decimals` = 2 is not consistent, yet "0.556" becomes "0.56", which passes |
| Keys.KeyActionExactly | src/jquery.numin.js:264-270 | with keybind on and Alt up, Up is increase, Ctrl+Up valmax, Down decrease, Ctrl+Down valmin; every other key does nothing |
| Keys.KeyAction | src/jquery.numin.js:264-270 | a key does something only with keybind on, Alt up and Up or Down; with Ctrl it jumps to a bound, without it steps |
| Keys.CtrlJumpsToBound | src/jquery.numin.js:266-269 | Ctrl turns a step in one direction into a jump to the bound in that direction |
| Values.FieldText | src/jquery.numin.js:154 | a number or null written into the field reads back as the same number (null as 0); a text is written as it is |
| Numbers.ParseToFixed | src/jquery.numin.js:316 | the coerced `toFixed(d)` text is the value rounded half away from zero at `d` digits |
| Numbers.ParseBlank | src/jquery.numin.js:300 | a text of white space only, the empty text included, coerces to 0 |
| Numbers.TrimStartShape | src/jquery.numin.js:300 | `*1` ignores leading white space: what remains is a suffix that does not start with it |
| Numbers.TrimEndShape | src/jquery.numin.js:300 | `*1` ignores trailing white space: what remains is a prefix that does not end with it |
| Numbers.TrimShape | src/jquery.numin.js:300 | the trimmed text neither starts nor ends with white space |
| Values.Truthy | src/jquery.numin.js:300-302 | a value that is not text or an object is truthy exactly when its number is nonzero |
| Values.ToNumber | src/jquery.numin.js:103-107 | `*1` gives NaN only for text and objects |
| Numbers.ParseToString | src/jquery.numin.js:334 | the coerced text of a written number is that number |
| Numbers.CanonicalAtScale | src/jquery.numin.js:316 | a value with exactly `d` digits is its own `toFixed(d)` form |
| NumIn.Fallback | src/jquery.numin.js:302 | `options.value \|\| 0` written into the field is numeric |
| NumIn.Places | src/jquery.numin.js:316 | the digit count `toFixed` takes from `decimals`: its integer part |
| NumIn.StartText | src/jquery.numin.js:465-503 | the text each operation writes before it triggers `change`: field*1 plus or minus `step`, or `min`/`max` as `.val` writes them |
| NumIn.CommitKeepsSettings | src/jquery.numin.js:288 | storing the chain's result keeps the options well formed and leaves the bounds, `decimals`, `step` and `keybind` unchanged |
| NumIn.Commit | src/jquery.numin.js:288 | a stored field becomes `options.value`; every other key is unchanged, and nothing changes when the chain did not store |
| NumIn.StepFromNonNumeric | src/jquery.numin.js:489-503 | stepping a non-numeric field writes "NaN", and the chain then ends as if the fallback had been written |
| NumIn.StepText | src/jquery.numin.js:489-503 | from a non-numeric field, `increase` and `decrease` write a non-numeric text |
| NumIn.StepTextValue | src/jquery.numin.js:489-503 | from a numeric field they write a text whose number is the field's plus or minus `step` |
| NumIn.ResolvedStepExact | src/jquery.numin.js:123-125 | the resolved step has at most `decimals` fraction digits |
| NumIn.IncreaseSaturates | src/jquery.numin.js:499-503 | `increase` past a set `max` stores `max` |
| NumIn.DecreaseSaturates | src/jquery.numin.js:489-493 | `decrease` past a set `min` stores `min` |
| NumIn.IncreaseExact | src/jquery.numin.js:499-503 | `increase` of an exact in-range value stores field + step in `toFixed` form |
| NumIn.DecreaseExact | src/jquery.numin.js:489-493 | `decrease` of an exact in-range value stores field - step in `toFixed` form |
| NumIn.ValMinSet | src/jquery.numin.js:465-471 | `valmin` with a set `min` stores `min` |
| NumIn.ValMaxSet | src/jquery.numin.js:477-483 | `valmax` with a set `max` stores `max` |
| NumIn.ValMinUnset | src/jquery.numin.js:465-471 | `valmin` with a null `min` writes "" and stores 0, or `max` when that is negative |
| NumIn.ValMaxUnset | src/jquery.numin.js:477-483 | `valmax` with a null `max` writes "" and stores 0, or `min` when that is positive |
| NumIn.ParentCleared | src/jquery.numin.js:160 | clearing `options.parent` leaves the options well formed, with the same bounds, `decimals` and `value` |
| NumIn.ExtendIsLayer | src/jquery.numin.js:117 | `$.extend({}, defaults, options)` over the coerced options gives the layered options plus the explicit options under Object.prototype names |
| NumIn.Plugin.constructor | src/jquery.numin.js:11-37 | the options become the as-written resolution with `parent` cleared, the field holds `options.value`, and the widget is ready for the chain |
| NumIn.Plugin.Create | src/jquery.numin.js:392-401 | `init` triggers `change`: the widget ends as the chain from `options.value` leaves it, and `thrown` reports a RangeError escaping `new Plugin` |
| NumIn.Plugin.ClearParent | src/jquery.numin.js:160 | only `options.parent` changes, to null |
| NumIn.Plugin.ResolveOptions | src/jquery.numin.js:88-126 | the options become `ResolveAsWritten` of the given options and attributes; field and attributes are unchanged |
| NumIn.Plugin.InheritAttributes | src/jquery.numin.js:90-93 | each default key that is undefined takes the attribute, then the data attribute; other keys are untouched |
| NumIn.Plugin.DropUnknownKeys | src/jquery.numin.js:95-100 | the keys for which `key in defaults` fails are deleted; the own keys of `defaults` and the Object.prototype names are kept |
| NumIn.Plugin.CoerceNumericKeys | src/jquery.numin.js:102-114 | each numeric key holds its `*1` value, or undefined for NaN |
| NumIn.Plugin.CoerceNumber | src/jquery.numin.js:103-114 | one numeric key is coerced and every other key is unchanged |
| NumIn.Plugin.ExtendDefaults | src/jquery.numin.js:117 | the undefined keys of `defaults` take their defaults, and the kept Object.prototype names stay |
| NumIn.Plugin.RepairStep | src/jquery.numin.js:120 | only `step` changes, to 1 when it was 0 |
| NumIn.Plugin.RepairDecimals | src/jquery.numin.js:122-125 | only `decimals` changes, raised to at least 0 and the fraction digits of `step` |
| NumIn.Plugin.HandleChange | src/jquery.numin.js:279-293 | the re-triggered chain ends with the field `Settle` gives and, when stored, `options.value` set to it; the options stay well formed and consistent |
| NumIn.Plugin.RunValidators | src/jquery.numin.js:281-285 | one run of the validators leaves the field on a pass, rewrites it to the named text, or throws |
| NumIn.Plugin.WriteAndChange | src/jquery.numin.js:466-469 | writing a text and triggering `change` ends as the chain from that text |
| NumIn.Plugin.Increase | src/jquery.numin.js:499-503 | the field becomes `field*1 + step` ("NaN" when non-numeric) and the chain runs |
| NumIn.Plugin.Decrease | src/jquery.numin.js:489-493 | the field becomes `field*1 - step` ("NaN" when non-numeric) and the chain runs |
| NumIn.Plugin.ValMin | src/jquery.numin.js:465-471 | the field becomes `min` ("" when null) and the chain runs |
| NumIn.Plugin.ValMax | src/jquery.numin.js:477-483 | the field becomes `max` ("" when null) and the chain runs |
| NumIn.Plugin.HandleClick | src/jquery.numin.js:201-246 | a click on a disabled button changes nothing; otherwise the chosen operation runs |
| NumIn.Plugin.HandleKeydown | src/jquery.numin.js:264-270 | the key picks an operation as `KeyAction` says, and it always runs because no button is checked; other keys change nothing |
| NumIn.Plugin.Value | src/jquery.numin.js:450-459 | with no argument the field is cleared and the chain runs; with an argument `options.value` is returned and nothing changes |

## Left out

- The DOM is not modelled: the template wrapping, attribute scraping (`_attrs`) and restoration, `destroy`, focus and select handling, and CSS classes. The element's attributes are a parameter of the constructor, and the field's text is the field `field`.
- Event binding, the `$.fn.numin` dispatcher and auto-initialisation are jQuery plumbing. A `trigger("change.numin")` is modelled as a call of `HandleChange`.
- Touch-device detection queries the browser, so it is not modelled.
- The path of `_create` for an element that already sits in a `parent` is not modelled; the constructor follows the template path.
- The button-disable flags (`_disable`, lines 168-169, 291-292, 375-386) only toggle CSS and attributes, so they are not modelled.
- IEEE-754 doubles are not modelled. Numbers are exact decimals, and `toFixed` rounds the exact value, so effects such as `1.005.toFixed(2)` are not captured.
- The coercion `*1` does not accept hexadecimal, exponent or `Infinity` literals. `String(x)` never uses exponent form, and `toFixed` of values of 1e21 and above is not modelled.
- The `__proto__` option key and the numeric coercion of object values (`valueOf`, `toString`) are not modelled. An object coerces to NaN.
- Validation.Settle: it requires `Consistent` bounds. That rules out every setting under which the chain loops, but also some under which it ends, such as a `min` that `toFixed` rounds up (`Validation.InexactMinEnds`); for those the end of the chain is not stated. `NumIn.Plugin.HandleChange`, `NumIn.Plugin.Create` and the operations inherit this requirement.

## Findings

| source | as written | input that shows it | evidently intended | confidence | as-written member | corrected member |
|---|---|---|---|---|---|---|
| src/jquery.numin.js:96-100 | `key in this.defaults` also holds for names inherited from Object.prototype | the option `{toString: 5}` is kept in the resolved options | only the keys of `defaults` survive | high, not executed | Options.PrototypeKeySurvives | Options.ResolveKeys |

The widget class resolves its options as written (`NumIn.Plugin.ResolveOptions`). `Options.ResolveAsWrittenKeys` shows that the difference from `Resolve` is confined to the extra keys, which nothing in the widget reads.
