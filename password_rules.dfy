/**
 * PasswordRules: the rule names with their fixed descriptions, and the order in which the
 * validators check them.
 */
module PasswordRules {
  import opened Wrappers
  import opened PasswordModel
  import opened PasswordPattern

  const AtLeastRulesText :=
    "Password must contain at least one uppercase letter, at least one lowercase letter, at least one number, at least one special character"
  const AtLeast8CharactersText := "Password must be at least 8 characters long"
  const AtMost128CharactersText := "Password must be less than 128 characters long"
  const PasswordIsRequiredText := "Password is required"
  const PasswordIsValidText := "Password is valid"

  datatype PasswordRule = AtLeastRules | AtLeast8Characters | AtMost128Characters | PasswordIsRequired | PasswordIsValid
  {
    function Description(): string {
      match this
      case AtLeastRules => AtLeastRulesText
      case AtLeast8Characters => AtLeast8CharactersText
      case AtMost128Characters => AtMost128CharactersText
      case PasswordIsRequired => PasswordIsRequiredText
      case PasswordIsValid => PasswordIsValidText
    }
  }

  const MinLength := 8
  const MaxLength := 128

  /** What each rule asks of a (possibly null) password. A null password is reported by the
      required rule, so the others do not look at it. */
  predicate Satisfies(rule: PasswordRule, password: Option<string>) {
    match rule
    case PasswordIsRequired => password.Some?
    case AtLeast8Characters => password.None? || |password.value| >= MinLength
    case AtMost128Characters => password.None? || |password.value| <= MaxLength
    case AtLeastRules => password.None? || MeetsCharacterRules(password.value)
    case PasswordIsValid => true
  }

  /** The checking order of both validators. */
  const CheckOrder := [PasswordIsRequired, AtLeast8Characters, AtMost128Characters, AtLeastRules]

  /** The first rule in `rules` that the password breaks, if any. */
  function FirstViolated(rules: seq<PasswordRule>, password: Option<string>): (r: Option<PasswordRule>)
    ensures r.None? <==> forall k :: 0 <= k < |rules| ==> Satisfies(rules[k], password)
    ensures r.Some? ==> exists k :: 0 <= k < |rules| && rules[k] == r.value && !Satisfies(rules[k], password)
                          && forall j :: 0 <= j < k ==> Satisfies(rules[j], password)
  {
    if rules == [] then None
    else if !Satisfies(rules[0], password) then Some(rules[0])
    else
      var r := FirstViolated(rules[1..], password);
      assert forall k :: 1 <= k < |rules| ==> rules[k] == rules[1..][k - 1];
      if r.Some? then
        var k :| 0 <= k < |rules[1..]| && rules[1..][k] == r.value && !Satisfies(rules[1..][k], password)
                 && forall j :: 0 <= j < k ==> Satisfies(rules[1..][j], password);
        assert rules[k + 1] == r.value && forall j :: 0 <= j < k + 1 ==> Satisfies(rules[j], password);
        r
      else r
  }

  /** The response that reports the first broken rule, or success. */
  function Verdict(violated: Option<PasswordRule>, password: Option<string>): PasswordResponse {
    if violated.Some? then PasswordResponse(Invalid, violated.value.Description(), password)
    else PasswordResponse(Valid, PasswordIsValid.Description(), password)
  }
}
