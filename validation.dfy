/**
 * The rule set of src/validation/index.ts: the `hasLength` rule and that
 * file's own copy of the short-circuiting `validate` loop.
 */
module Validation {
  import opened Wrappers
  import opened Statuses
  import Utf16

  datatype LengthConstraints = LengthConstraints(min: int, max: int)

  /** The `length` rule record; its validator closure becomes `Eval`. */
  datatype LengthRule = LengthRule(constraints: LengthConstraints) {
    /** The `type` discriminant, always `'length'`. */
    function Type(): (t: string)
      ensures t == "length"
    {
      "length"
    }
  }

  const TooLong: string := "Value is too long"
  const TooShort: string := "Value is too short"

  /** Within bounds: `min <= value.length <= max`, counting UTF-16 code units. */
  predicate InBounds(c: LengthConstraints, value: string) {
    c.min <= Utf16.Length(value) <= c.max
  }

  /**
   * `hasLength`: stores the constraints unchanged under the tag `'length'`,
   * and the rule accepts exactly the values within them.
   */
  function HasLength(constraints: LengthConstraints): (r: LengthRule)
    ensures r.Type() == "length" && r.constraints == constraints
    ensures forall value :: Eval(r, value).valid <==> InBounds(constraints, value)
  {
    LengthRule(constraints)
  }

  /** The validator: "too long" is checked before "too short". */
  function Eval(rule: LengthRule, value: string): (s: Status)
    ensures WellFormed(s)
    ensures s.valid <==> InBounds(rule.constraints, value)
    ensures Utf16.Length(value) > rule.constraints.max ==> s == Failed(TooLong)
    ensures Utf16.Length(value) <= rule.constraints.max && Utf16.Length(value) < rule.constraints.min ==>
      s == Failed(TooShort)
  {
    if Utf16.Length(value) > rule.constraints.max then Failed(TooLong)
    else if Utf16.Length(value) < rule.constraints.min then Failed(TooShort)
    else Passed
  }

  /** A value that violates both bounds is reported as too long. */
  lemma TooLongTakesPriority(c: LengthConstraints, value: string)
    requires Utf16.Length(value) > c.max && Utf16.Length(value) < c.min
    ensures Eval(LengthRule(c), value) == Failed(TooLong)
  {
  }

  /**
   * Some value satisfies the rule exactly when `max` is non-negative and
   * `min <= max`; with `min > max` (not rejected on construction) nothing passes.
   */
  lemma Satisfiable(c: LengthConstraints)
    ensures (exists value :: Eval(LengthRule(c), value).valid) <==> 0 <= c.max && c.min <= c.max
  {
    if 0 <= c.max && c.min <= c.max {
      var n: nat := if c.min < 0 then 0 else c.min;
      var v := seq(n, _ => 'a');
      Utf16.BmpLength(v);
      assert Eval(LengthRule(c), v).valid;
    }
  }

  /** The functional meaning of `validate`: the first invalid status, else `{valid: true}`. */
  function ValidateSpec(value: string, rules: seq<LengthRule>): (s: Status)
    ensures WellFormed(s)
    ensures s.valid <==> forall i :: 0 <= i < |rules| ==> Eval(rules[i], value).valid
    decreases |rules|
  {
    if rules == [] then Passed
    else
      var first := Eval(rules[0], value);
      if !first.valid then first else ValidateSpec(value, rules[1..])
  }

  /** The index of the lowest-indexed rule that fails on `value`, if any. */
  function FirstFailure(value: string, rules: seq<LengthRule>): (r: Option<nat>)
    ensures r.Some? ==>
      r.value < |rules| && !Eval(rules[r.value], value).valid &&
      forall j :: 0 <= j < r.value ==> Eval(rules[j], value).valid
    ensures r.None? ==> forall j :: 0 <= j < |rules| ==> Eval(rules[j], value).valid
    decreases |rules|
  {
    if rules == [] then None
    else if !Eval(rules[0], value).valid then Some(0)
    else
      match FirstFailure(value, rules[1..])
      case None => None
      case Some(i) => Some(i + 1)
  }

  /** An empty rule list yields `{valid: true}`. */
  lemma EmptyRulesPass(value: string)
    ensures ValidateSpec(value, []) == Passed
  {
  }

  /** The lowest-indexed failing rule's status is the result, unchanged. */
  lemma {:induction false} FirstFailingRuleWins(value: string, rules: seq<LengthRule>, i: nat)
    requires i < |rules| && !Eval(rules[i], value).valid
    requires forall j :: 0 <= j < i ==> Eval(rules[j], value).valid
    ensures ValidateSpec(value, rules) == Eval(rules[i], value)
    decreases i
  {
    if i > 0 {
      assert Eval(rules[0], value).valid;
      FirstFailingRuleWins(value, rules[1..], i - 1);
    }
  }

  /** If every rule passes, `validate` returns `{valid: true}`. */
  lemma AllPassingRulesPass(value: string, rules: seq<LengthRule>)
    requires forall i :: 0 <= i < |rules| ==> Eval(rules[i], value).valid
    ensures ValidateSpec(value, rules) == Passed
  {
    assert WellFormed(ValidateSpec(value, rules));
  }

  /** `validate` agrees with the first-failure reference. */
  lemma MatchesFirstFailure(value: string, rules: seq<LengthRule>)
    ensures ValidateSpec(value, rules) ==
      match FirstFailure(value, rules)
      case Some(i) => Eval(rules[i], value)
      case None => Passed
  {
    match FirstFailure(value, rules)
    case Some(i) => FirstFailingRuleWins(value, rules, i);
    case None => AllPassingRulesPass(value, rules);
  }

  /** A list of length rules passes exactly the values within every rule's bounds. */
  lemma PassesAllBounds(value: string, rules: seq<LengthRule>)
    ensures ValidateSpec(value, rules).valid <==>
      forall i :: 0 <= i < |rules| ==> InBounds(rules[i].constraints, value)
  {
  }

  /**
   * The `for...of` loop with early return. `evaluated` counts the calls to
   * a rule's validator: the loop stops right after the first failure.
   */
  method Validate(value: string, rules: seq<LengthRule>) returns (status: Status, ghost evaluated: nat)
    ensures status == ValidateSpec(value, rules)
    ensures evaluated == match FirstFailure(value, rules)
      case Some(i) => i + 1
      case None => |rules|
  {
    evaluated := 0;
    for i := 0 to |rules|
      invariant evaluated == i
      invariant forall j :: 0 <= j < i ==> Eval(rules[j], value).valid
    {
      var result := Eval(rules[i], value);
      evaluated := evaluated + 1;
      if !result.valid {
        FirstFailingRuleWins(value, rules, i);
        return result, evaluated;
      }
    }
    AllPassingRulesPass(value, rules);
    return Passed, evaluated;
  }

  /** validate('aaaaa', [hasLength({min: 0, max: 4})]) reports the value as too long. */
  lemma TooLongExample()
    ensures ValidateSpec("aaaaa", [HasLength(LengthConstraints(0, 4))]) == Failed("Value is too long")
  {
    Utf16.BmpLength("aaaaa");
  }

  /** validate('a', [hasLength({min: 2, max: 4})]) reports the value as too short. */
  lemma TooShortExample()
    ensures ValidateSpec("a", [HasLength(LengthConstraints(2, 4))]) == Failed("Value is too short")
  {
    Utf16.BmpLength("a");
  }

  /** An emoji is two UTF-16 code units, so it meets a minimum of 2. */
  lemma AstralCharacterCountsTwice()
    ensures ValidateSpec("\U{1F600}", [HasLength(LengthConstraints(2, 4))]) == Passed
  {
    Utf16.AstralLength('\U{1F600}');
  }
}
