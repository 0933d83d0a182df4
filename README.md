# Rule-based string validation, modelled in Dafny

This project models the validation core of `vue-validate-example`. A caller
builds an ordered list of rules and asks `validate` whether a string value
passes them. `validate` runs the rules in order and returns the status of the
first rule that rejects the value. If no rule rejects it, the result is
`{valid: true}`. The repository has two independent copies of this pipeline:

- `validate.ts` has the rule kinds `isRequired` (the value must be non-empty)
  and `hasMinMax` (the value's `length` must be at most `max`; `min` is
  accepted but never checked).
- `src/validation/index.ts` has one rule kind, `hasLength`. It rejects a value
  that is too long, then one that is too short.

Modules:

- `Wrappers`: the `Option` type used for a status's message.
- `Statuses`: `Status(valid, message)`, shared by both files.
  `Passed` is `{valid: true}`: the message key is absent.
  `WellFormed` says a message is present exactly when the status is invalid,
  and that message is non-empty.
- `Utf16`: JavaScript's `value.length`, which counts UTF-16 code units. A
  character outside the Basic Multilingual Plane, such as an emoji, counts 2.
  Every length comparison in the model uses it.
- `Decimal`: how `${options.max}` renders an integer, plus a parser that
  inverts it. This makes the message `Max length is <max>` precise.
- `Validate` (validate.ts): the `Rule` datatype `IsRequired | HasMinMax(MinMax(min, max))`.
  `Eval` replaces the stored validator closures. `ValidateSpec` is the
  recursive meaning of `validate`. `FirstFailure` is the index of the first
  failing rule. `Validate` is the early-return loop, proved equal to
  `ValidateSpec`.
- `Validation` (src/validation/index.ts): the same structure for
  `LengthRule(LengthConstraints(min, max))`.

In both `Validate` methods, a ghost counter `evaluated` records how many
validators ran. It equals the first failing index plus one, or the list
length if nothing fails. So no rule after the first failure is evaluated.
A rule's `type` tag is the member function `Type()` on each rule datatype.

## Model

| member | source | states |
|---|---|---|
| `Statuses.WellFormed` | validate.ts:36-44 | a status's message is present iff it is invalid, and is non-empty; `Passed` (`{valid: true}`) is the only well-formed valid status |
| `Utf16.Length` | validate.ts:52 | `value.length` in UTF-16 code units: between the number of characters and twice it, and 0 only for the empty string |
| `Utf16.LengthAppend` | validate.ts:52 | the length of a concatenation is the sum of the lengths |
| `Utf16.BmpLength` | src/validation/index.ts:35 | for text of Basic Multilingual Plane characters the length is the number of characters |
| `Utf16.AstralLength` | src/validation/index.ts:42 | a single character outside the Basic Multilingual Plane has length 2 |
| `Validate.Rule.Type` | validate.ts:20-33 | the tag is 'is-required' exactly for isRequired rules and 'has-min-max' exactly for hasMinMax rules (validate.ts:49 sets the latter) |
| `Validate.Eval` | validate.ts:32-63 | isRequired is valid iff the value is non-empty (whitespace counts as content), and otherwise says "Required"; hasMinMax is valid iff the UTF-16 length is at most max, and otherwise says "Max length is " followed by max in decimal; every status is well formed |
| `Validate.MinIsIgnored` | validate.ts:48-63 | two hasMinMax rules that differ only in min give the same status on every value |
| `Validate.ShorterThanMinPasses` | validate.ts:51-61 | a value shorter than min but no longer than max passes hasMinMax with `{valid: true}` |
| `Validate.MaxLengthMessageInjective` | validate.ts:55 | different max values produce different messages |
| `Validate.ValidateSpec` | validate.ts:67-78 | the result is well formed, and it is valid iff every rule accepts the value |
| `Validate.FirstFailure` | validate.ts:68-72 | a returned index is in range, names a rule that fails, and all rules before it pass; None means all rules pass |
| `Validate.EmptyRulesPass` | validate.ts:67-77 | an empty rule list gives `{valid: true}` with no message |
| `Validate.FirstFailingRuleWins` | validate.ts:68-72 | if rule i fails and all rules before it pass, the result is exactly rule i's status |
| `Validate.AllPassingRulesPass` | validate.ts:68-77 | if every rule accepts the value, the result is `{valid: true}` |
| `Validate.MatchesFirstFailure` | validate.ts:67-78 | the result is the first failing rule's status, or `{valid: true}` if none fails |
| `Validate.Compose` | validate.ts:68-77 | validating against a + b gives the result for a when that is invalid, and otherwise the result for b |
| `Validate.Validate` | validate.ts:67-78 | the loop returns the functional result; it runs exactly first-failing-index + 1 validators, or all of them when none fails |
| `Validate.RequiredExample` | validate.spec.ts:81-88 | the empty string against `[isRequired()]` gives `{valid: false, message: "Required"}` |
| `Validate.MaxLengthExample` | validate.spec.ts:91-99 | "asasdfasdf" against `[hasMinMax({min: 0, max: 5})]` gives "Max length is 5" |
| `Validate.AstralCharacterCountsTwice` | validate.ts:52-57 | an emoji against `[hasMinMax({min: 0, max: 1})]` gives "Max length is 1", since its length is 2 |
| `Validate.WhitespaceIsPresent` | validate.ts:35-44 | a whitespace-only value passes `isRequired` |
| `Decimal.NatToDecimal` | validate.ts:55 | the numeral is non-empty, all digits, and has no leading zero |
| `Decimal.IntToDecimal` | validate.ts:55 | the rendering is non-empty and starts with '-' iff the integer is negative |
| `Decimal.RoundTrip` | validate.ts:55 | parsing the rendering of any integer gives that integer back |
| `Decimal.Injective` | validate.ts:55 | distinct integers render to distinct strings |
| `Validation.LengthRule.Type` | src/validation/index.ts:23-25 | the tag of a length rule is always 'length' (set at src/validation/index.ts:32) |
| `Validation.HasLength` | src/validation/index.ts:31-54 | the rule has tag 'length' and stores its constraints unchanged; it accepts a value iff min <= UTF-16 length <= max |
| `Validation.Eval` | src/validation/index.ts:34-53 | with length meaning UTF-16 code units: valid iff min <= length <= max; "Value is too long" when length > max; "Value is too short" when length <= max and length < min; the status is well formed |
| `Validation.TooLongTakesPriority` | src/validation/index.ts:35-47 | a value that breaks both bounds is reported as too long |
| `Validation.Satisfiable` | src/validation/index.ts:35-52 | some string passes iff 0 <= max and min <= max; when min > max no string passes |
| `Validation.ValidateSpec` | src/validation/index.ts:61-72 | the result is well formed, and it is valid iff every rule accepts the value |
| `Validation.FirstFailure` | src/validation/index.ts:62-67 | a returned index is in range, names a rule that fails, and all rules before it pass; None means all rules pass |
| `Validation.EmptyRulesPass` | src/validation/index.ts:61-71 | an empty rule list gives `{valid: true}` |
| `Validation.FirstFailingRuleWins` | src/validation/index.ts:62-67 | if rule i fails and all rules before it pass, the result is rule i's status unchanged |
| `Validation.AllPassingRulesPass` | src/validation/index.ts:62-71 | if every rule accepts the value, the result is `{valid: true}` |
| `Validation.MatchesFirstFailure` | src/validation/index.ts:61-72 | the result is the first failing rule's status, or `{valid: true}` if none fails |
| `Validation.PassesAllBounds` | src/validation/index.ts:61-72 | a list of length rules passes a value iff the value is within every rule's bounds |
| `Validation.Validate` | src/validation/index.ts:61-72 | the loop returns the functional result; it runs exactly first-failing-index + 1 validators, or all of them when none fails |
| `Validation.TooLongExample` | src/validation/index.spec.ts:4-12 | "aaaaa" against `[hasLength({min: 0, max: 4})]` gives "Value is too long" |
| `Validation.TooShortExample` | src/validation/index.spec.ts:14-22 | "a" against `[hasLength({min: 2, max: 4})]` gives "Value is too short" |
| `Validation.AstralCharacterCountsTwice` | src/validation/index.ts:42-52 | an emoji against `[hasLength({min: 2, max: 4})]` gives `{valid: true}`, since its length is 2 |

## Left out

- `useForm` in src/vue-validate.ts is glue over Vue's `ref`, `reactive` and `watch`, which this model cannot see. It has two quirks. Every field is validated against the first field's rules, `fields[0].rules` (src/vue-validate.ts:31). The form-level flag is the AND of the per-field flags (src/vue-validate.ts:44).
- The validator closures stored in rule records are replaced by `Eval`, a dispatch on the rule datatype. Arbitrary user-supplied validator functions are not modelled.
- `min` and `max` are JavaScript numbers. They are modelled as unbounded integers, so NaN, infinite and fractional bounds are not modelled.
- Decimal.IntToDecimal: renders the exact digits of the integer. JavaScript renders the same digits only up to magnitude 2^53. Above that it prints the shortest digit string that converts back to the same number, padded with zeros: -(2**60) becomes "-1152921504606847000", where the model gives "-1152921504606846976". From 1e21 up JavaScript uses exponent form. The message includes `max` only when `value.length > max`, so the difference shows only for a very large negative `max`.
- Rule bounds are immutable values in `MinMax` and `LengthConstraints`. In the source, `hasMinMax` keeps a reference to the caller's `options` object (validate.ts:50), and its validator reads `options.max` on every call (validate.ts:52,55). `hasLength` does the same with `constraints` (src/validation/index.ts:33,35,42). So in the source, changing the bounds object after the rule is built changes later verdicts. The model does not capture that aliasing.
- Utf16.Length: a Dafny `char` is a Unicode scalar value, so a string with a lone surrogate cannot be represented. JavaScript counts a lone surrogate as one code unit. Such strings are outside the domain of `Utf16.Length`, `Validate.Eval` and `Validation.Eval`.
- That `validate` is pure and returns the same status for the same input holds because it is a Dafny function. It needs no lemma.
- validate.spec.ts lines 10-78 are a copy of validate.ts. They are not modelled again; only its test cases appear as example lemmas.
- The commented design sketches at the top of validate.ts and src/validation/index.ts are not code.
