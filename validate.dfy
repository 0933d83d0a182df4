/**
 * The rule set of validate.ts: `isRequired` and `hasMinMax`, and the
 * short-circuiting `validate` loop that runs them in order.
 */
module Validate {
  import opened Wrappers
  import opened Statuses
  import Decimal
  import Utf16

  datatype MinMax = MinMax(min: int, max: int)

  /**
   * One constructor per rule kind; the stored validator closure becomes
   * the dispatch function `Eval`.
   */
  datatype Rule = IsRequired | HasMinMax(options: MinMax) {
    /** The `type` discriminant of the rule record; it identifies the kind. */
    function Type(): (t: string)
      ensures IsRequired? <==> t == "is-required"
      ensures HasMinMax? <==> t == "has-min-max"
    {
      match this
      case IsRequired => "is-required"
      case HasMinMax(_) => "has-min-max"
    }
  }

  /** JavaScript truthiness restricted to strings: only the empty string is falsy. */
  predicate Falsy(value: string) {
    value == ""
  }

  const RequiredMessage: string := "Required"

  function MaxLengthMessage(max: int): string {
    "Max length is " + Decimal.IntToDecimal(max)
  }

  /**
   * The validator a rule carries, applied to `value`. Lengths are
   * JavaScript's `value.length`, in UTF-16 code units.
   */
  function Eval(rule: Rule, value: string): (s: Status)
    ensures WellFormed(s)
    ensures rule.IsRequired? ==>
      (s.valid <==> |value| > 0) && (!s.valid ==> s.message == Some(RequiredMessage))
    ensures rule.HasMinMax? ==>
      (s.valid <==> Utf16.Length(value) <= rule.options.max) &&
      (!s.valid ==> s.message == Some(MaxLengthMessage(rule.options.max)))
  {
    match rule
    case IsRequired =>
      if Falsy(value) then Failed(RequiredMessage) else Passed
    case HasMinMax(options) =>
      if Utf16.Length(value) > options.max then Failed(MaxLengthMessage(options.max)) else Passed
  }

  /** `hasMinMax` never looks at `min`: two rules that differ only in `min` agree on every value. */
  lemma MinIsIgnored(min1: int, min2: int, max: int, value: string)
    ensures Eval(HasMinMax(MinMax(min1, max)), value) == Eval(HasMinMax(MinMax(min2, max)), value)
  {
  }

  /** In particular a value shorter than `min` but within `max` passes. */
  lemma ShorterThanMinPasses(options: MinMax, value: string)
    requires Utf16.Length(value) < options.min && Utf16.Length(value) <= options.max
    ensures Eval(HasMinMax(options), value) == Passed
  {
  }

  /** Different bounds give different messages, so the message identifies `max`. */
  lemma MaxLengthMessageInjective(m1: int, m2: int)
    ensures MaxLengthMessage(m1) == MaxLengthMessage(m2) ==> m1 == m2
  {
    var prefix := "Max length is ";
    if MaxLengthMessage(m1) == MaxLengthMessage(m2) {
      assert MaxLengthMessage(m1)[|prefix|..] == Decimal.IntToDecimal(m1);
      assert MaxLengthMessage(m2)[|prefix|..] == Decimal.IntToDecimal(m2);
      Decimal.Injective(m1, m2);
    }
  }

  /** The functional meaning of `validate`: the first invalid status, else `{valid: true}`. */
  function ValidateSpec(value: string, rules: seq<Rule>): (s: Status)
    ensures WellFormed(s)
    ensures s.valid <==> forall i :: 0 <= i < |rules| ==> Eval(rules[i], value).valid
    decreases |rules|
  {
    if rules == [] then Passed
    else
      var first := Eval(rules[0], value);
      if !first.valid then first else ValidateSpec(value, rules[1..])
  }

  /** The index of the lowest-indexed rule that fails on `value`, if any. */
  function FirstFailure(value: string, rules: seq<Rule>): (r: Option<nat>)
    ensures r.Some? ==>
      r.value < |rules| && !Eval(rules[r.value], value).valid &&
      forall j :: 0 <= j < r.value ==> Eval(rules[j], value).valid
    ensures r.None? ==> forall j :: 0 <= j < |rules| ==> Eval(rules[j], value).valid
    decreases |rules|
  {
    if rules == [] then None
    else if !Eval(rules[0], value).valid then Some(0)
    else
      match FirstFailure(value, rules[1..])
      case None => None
      case Some(i) => Some(i + 1)
  }

  /** An empty rule list yields `{valid: true}`. */
  lemma EmptyRulesPass(value: string)
    ensures ValidateSpec(value, []) == Passed
  {
  }

  /** The lowest-indexed failing rule's status is the result, exactly. */
  lemma {:induction false} FirstFailingRuleWins(value: string, rules: seq<Rule>, i: nat)
    requires i < |rules| && !Eval(rules[i], value).valid
    requires forall j :: 0 <= j < i ==> Eval(rules[j], value).valid
    ensures ValidateSpec(value, rules) == Eval(rules[i], value)
    decreases i
  {
    if i > 0 {
      assert Eval(rules[0], value).valid;
      FirstFailingRuleWins(value, rules[1..], i - 1);
    }
  }

  /** If every rule passes, `validate` returns `{valid: true}`. */
  lemma AllPassingRulesPass(value: string, rules: seq<Rule>)
    requires forall i :: 0 <= i < |rules| ==> Eval(rules[i], value).valid
    ensures ValidateSpec(value, rules) == Passed
  {
    assert WellFormed(ValidateSpec(value, rules));
  }

  /** `validate` agrees with the first-failure reference. */
  lemma MatchesFirstFailure(value: string, rules: seq<Rule>)
    ensures ValidateSpec(value, rules) ==
      match FirstFailure(value, rules)
      case Some(i) => Eval(rules[i], value)
      case None => Passed
  {
    match FirstFailure(value, rules)
    case Some(i) => FirstFailingRuleWins(value, rules, i);
    case None => AllPassingRulesPass(value, rules);
  }

  /** Running `a + b` is running `a`, and then `b` only when `a` passed. */
  lemma {:induction false} Compose(value: string, a: seq<Rule>, b: seq<Rule>)
    ensures ValidateSpec(value, a + b) ==
      if !ValidateSpec(value, a).valid then ValidateSpec(value, a) else ValidateSpec(value, b)
    decreases |a|
  {
    if a != [] {
      assert (a + b)[0] == a[0];
      assert (a + b)[1..] == a[1..] + b;
      Compose(value, a[1..], b);
    } else {
      assert a + b == b;
    }
  }

  /**
   * The `for...of` loop with early return. `evaluated` counts the calls to
   * a rule's validator: the loop stops right after the first failure.
   */
  method Validate(value: string, rules: seq<Rule>) returns (status: Status, ghost evaluated: nat)
    ensures status == ValidateSpec(value, rules)
    ensures evaluated == match FirstFailure(value, rules)
      case Some(i) => i + 1
      case None => |rules|
  {
    evaluated := 0;
    for i := 0 to |rules|
      invariant evaluated == i
      invariant forall j :: 0 <= j < i ==> Eval(rules[j], value).valid
    {
      var s := Eval(rules[i], value);
      evaluated := evaluated + 1;
      if !s.valid {
        FirstFailingRuleWins(value, rules, i);
        return s, evaluated;
      }
    }
    AllPassingRulesPass(value, rules);
    return Passed, evaluated;
  }

  /** validate('', [isRequired()]) is {valid: false, message: 'Required'}. */
  lemma RequiredExample()
    ensures ValidateSpec("", [IsRequired]) == Failed("Required")
  {
  }

  /** validate('asasdfasdf', [hasMinMax({min: 0, max: 5})]) is {valid: false, message: 'Max length is 5'}. */
  lemma MaxLengthExample()
    ensures ValidateSpec("asasdfasdf", [HasMinMax(MinMax(0, 5))]) == Failed("Max length is 5")
  {
    assert Decimal.IntToDecimal(5) == "5";
    assert MaxLengthMessage(5) == "Max length is 5";
    Utf16.BmpLength("asasdfasdf");
    assert Eval(HasMinMax(MinMax(0, 5)), "asasdfasdf") == Failed("Max length is 5");
  }

  /** An emoji is two UTF-16 code units, so it is longer than a max of 1. */
  lemma AstralCharacterCountsTwice()
    ensures ValidateSpec("\U{1F600}", [HasMinMax(MinMax(0, 1))]) == Failed("Max length is 1")
  {
    Utf16.AstralLength('\U{1F600}');
    assert Decimal.IntToDecimal(1) == "1";
    assert MaxLengthMessage(1) == "Max length is 1";
    assert Eval(HasMinMax(MinMax(0, 1)), "\U{1F600}") == Failed("Max length is 1");
  }

  /** A whitespace-only value is present, so it satisfies `isRequired`. */
  lemma WhitespaceIsPresent()
    ensures ValidateSpec("  ", [IsRequired]) == Passed
  {
  }
}
