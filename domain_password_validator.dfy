/**
 * domain/PasswordValidator: the same guard chain as the expression validator, applied to the
 * password of a request object, inside a catch-all that turns any exception into an answer.
 */
module DomainPasswordValidator {
  import opened Wrappers
  import opened PasswordModel
  import opened PasswordPattern
  import opened PasswordRules
  import ExpressionPasswordValidator

  /** ValidateRequest: the request body, whose password may be null. */
  datatype ValidateRequest = ValidateRequest(password: Option<string>)

  /** The class's own private createPasswordResponse: fields copied as given. */
  function CreatePasswordResponse(status: Status, message: string, password: Option<string>): (r: PasswordResponse)
    ensures r.status == status && r.message == message && r.password == password
  {
    PasswordResponse(status, message, password)
  }

  /** isValidPassword: the same pattern as the expression validator. */
  function IsValidPassword(password: string): (b: bool)
    ensures b <==> MinLength <= |password| && MeetsCharacterRules(password)
  {
    PatternIffRules(password);
    MatchesPattern(password)
  }

  /** The guard chain on a present request. */
  function CheckPassword(password: Option<string>): (r: PasswordResponse)
    ensures r.password == password
    ensures r.status == Valid || r.status == Invalid
  {
    if password.None? then
      CreatePasswordResponse(Invalid, PasswordIsRequired.Description(), password)
    else if |password.value| < MinLength then
      CreatePasswordResponse(Invalid, AtLeast8Characters.Description(), password)
    else if |password.value| > MaxLength then
      CreatePasswordResponse(Invalid, AtMost128Characters.Description(), password)
    else if !IsValidPassword(password.value) then
      CreatePasswordResponse(Invalid, AtLeastRules.Description(), password)
    else
      CreatePasswordResponse(Valid, PasswordIsValid.Description(), password)
  }

  /** validate(ValidateRequest), as written. A null request makes `getPassword` throw; the catch
      answers VALID with a null password and the exception's message (`exceptionMessage`, whose
      text the JVM decides). */
  function Validate(request: Option<ValidateRequest>, exceptionMessage: string): (r: PasswordResponse)
    ensures request.None? ==> r == PasswordResponse(Valid, exceptionMessage, None)
    ensures request.Some? ==> r.password == request.value.password && r.status != Error
  {
    if request.None? then CreatePasswordResponse(Valid, exceptionMessage, None)
    else CheckPassword(request.value.password)
  }

  /** On every request that carries a password field, the two validators give the same answer:
      same status, same message, same password. */
  lemma AgreesWithExpressionValidator(password: Option<string>, exceptionMessage: string)
    ensures Validate(Some(ValidateRequest(password)), exceptionMessage) == ExpressionPasswordValidator.Validate(password)
  {
  }

  /** Both length limits are inclusive: 8 and 128 chars pass the length guards, and the answer is
      decided by the character rules alone. */
  lemma LengthBoundsInclusive(password: string, exceptionMessage: string)
    requires |password| == MinLength || |password| == MaxLength
    ensures Validate(Some(ValidateRequest(Some(password))), exceptionMessage).status == Valid
        <==> MeetsCharacterRules(password)
  {
  }

  /** As written, the answer to a null request is VALID although no password was checked. */
  lemma NullRequestReportedValid(exceptionMessage: string)
    ensures Validate(None, exceptionMessage).status == Valid
    ensures Validate(None, exceptionMessage).password == None
  {
  }

  /** validate(ValidateRequest) with the catch-all reporting ERROR, as the other error paths of
      the system do. */
  function ValidateCorrected(request: Option<ValidateRequest>, exceptionMessage: string): (r: PasswordResponse)
    ensures request.None? ==> r == PasswordResponse(Error, exceptionMessage, None)
    ensures request.Some? ==> r == Validate(request, exceptionMessage)
  {
    if request.None? then CreatePasswordResponse(Error, exceptionMessage, None)
    else CheckPassword(request.value.password)
  }

  /** With the correction, VALID means a password was present and passed every rule. */
  lemma CorrectedValidMeansChecked(request: Option<ValidateRequest>, exceptionMessage: string)
    ensures ValidateCorrected(request, exceptionMessage).status == Valid
        <==> && request.Some? && request.value.password.Some?
             && MinLength <= |request.value.password.value| <= MaxLength
             && MeetsCharacterRules(request.value.password.value)
  {
    if request.Some? {
      AgreesWithExpressionValidator(request.value.password, exceptionMessage);
      ExpressionPasswordValidator.ValidIff(request.value.password);
    }
  }
}
