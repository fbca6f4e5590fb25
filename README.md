# ai-safe-password: password validation and AI password generation, modelled in Dafny

The service answers two questions about passwords, and every answer is a `PasswordResponse`. A response holds:

- a status: VALID, INVALID or ERROR;
- a message;
- the password it is about, which may be null.

This project models the logic behind those answers:

- **The rule-based validators.** There are two near-identical copies: `domain/expression/PasswordValidator` and `domain/PasswordValidator`. Each runs an ordered chain of guards:
  1. null password;
  2. fewer than 8 chars;
  3. more than 128 chars;
  4. the complexity regular expression.

  The first guard that fails decides the message. The regular expression is modelled twice:
  - shaped like the pattern: four lookaheads and an anchored repetition;
  - as plain character rules: only letters, digits and `@$!%*?&`, with at least one of each class.

  A lemma proves the two agree. The copy that takes a `ValidateRequest` wraps its chain in a catch-all. In the model, a null request is answered by that catch-all.
- **`HttpResponseUtils`.** It builds responses and decodes the `"<status>;<message>"` text that the AI validator answers with. The decoder's steps:
  1. a blank check;
  2. Java `String.split(";")`, which drops trailing empty fields;
  3. `trim` and `toLowerCase` of the status token;
  4. prefix matching in `parseStatus`.
- **`AIPasswordCreatorDecorator`.** It generates a password with an AI creator and has the AI validator judge it. It decodes the judgement and tries again until the judgement is VALID.
  - The two AI services are oracles: functions from the attempt number and the call's argument to the service's reply (a possibly null string, or an exception).
  - The source's unbounded tail recursion is a `while` loop over the attempt number with `fuel` attempts.
  - The loop is proved equal to a recursive specification, `Retries`. Call counts, what is returned and when the operation fails are proved about that specification.

Modules, one per file:

- `Wrappers`: Option, for Java's nullable references.
- `PasswordModel`: the status and response types.
- `JavaText`: the `java.lang.String` operations used.
- `PasswordPattern`, `PasswordRules`, `ExpressionPasswordValidator` and `DomainPasswordValidator`: the validators.
- `HttpResponseUtils`: the response builder and decoder.
- `AIPasswordCreatorDecorator`: the retry loop.

The javadoc of `parseStatus` (`HttpResponseUtils.java:89`) says it returns null for an invalid token. Lines 36-38 would then answer `"Invalid status format: <token>"`. In fact `parseStatus` never returns null, so that branch cannot be reached: an unknown token yields ERROR carrying the decoded message. The model follows the code (`HttpResponseUtils.UnknownStatusCarriesMessage`).

## Model

| member | source | states |
|---|---|---|
| JavaText.TrimStartSpec | src/main/java/com/password/core/HttpResponseUtils.java:33 | the leading part `trim` removes is made of chars at most U+0020, and what is left is a suffix that does not start with one |
| JavaText.TrimEndSpec | src/main/java/com/password/core/HttpResponseUtils.java:33 | the trailing part `trim` removes is made of chars at most U+0020, and what is left is a prefix that does not end with one |
| JavaText.TrimSpec | src/main/java/com/password/core/HttpResponseUtils.java:23 | `s.trim().isEmpty()` holds exactly when every char of `s` is at most U+0020; a non-empty trim has non-blank first and last chars |
| JavaText.TrimUntrimmed | src/main/java/com/password/core/HttpResponseUtils.java:32 | a string whose ends are not trimmable is its own trim |
| JavaText.TrimIdempotent | src/main/java/com/password/core/HttpResponseUtils.java:33 | trimming twice gives the same as trimming once |
| JavaText.LowerChar | src/main/java/com/password/core/HttpResponseUtils.java:32 | an ASCII capital maps to the letter 32 code points above it, in 'a'..'z'; every other char is unchanged |
| JavaText.ToLowerAsciiAt | src/main/java/com/password/core/HttpResponseUtils.java:32 | lower-casing keeps the length and lower-cases each char in place |
| JavaText.FieldsExcludeDelimiter | src/main/java/com/password/core/HttpResponseUtils.java:27 | no field of the split contains the delimiter |
| JavaText.JoinFields | src/main/java/com/password/core/HttpResponseUtils.java:27 | the fields joined back with the delimiter give the original string |
| JavaText.FieldsWithoutDelimiter | src/main/java/com/password/core/HttpResponseUtils.java:27 | a string without the delimiter is one field |
| JavaText.FieldsAtDelimiter | src/main/java/com/password/core/HttpResponseUtils.java:27 | the text before the first delimiter is the first field, and the rest splits on its own |
| JavaText.DropTrailingEmptySpec | src/main/java/com/password/core/HttpResponseUtils.java:27 | split's limit-zero rule keeps a prefix of the fields that ends in a non-empty field (or is empty), and removes only empty fields |
| JavaText.SplitWithoutDelimiter | src/main/java/com/password/core/HttpResponseUtils.java:27-28 | without a `;` the split is the whole string, the empty string included |
| JavaText.SplitFirstTwo | src/main/java/com/password/core/HttpResponseUtils.java:27-33 | `t;m` with a non-empty `m`, possibly followed by more `;`-fields, splits into at least two fields, and the first two are `t` and `m` |
| JavaText.SplitTrailingDelimiter | src/main/java/com/password/core/HttpResponseUtils.java:27-29 | `t;` splits into fewer than two fields |
| HttpResponseUtils.CreatePasswordResponse | src/main/java/com/password/core/HttpResponseUtils.java:56-68 | status and password are copied; a null message becomes "" and any other message is kept |
| HttpResponseUtils.CreateErrorResponse | src/main/java/com/password/core/HttpResponseUtils.java:77-83 | the status is ERROR; message and password are as given |
| HttpResponseUtils.ParseStatus | src/main/java/com/password/core/HttpResponseUtils.java:91-103 | never null; VALID exactly when the token starts with "valid", INVALID exactly when it starts with "invalid", otherwise ERROR |
| HttpResponseUtils.ParseResponse | src/main/java/com/password/core/HttpResponseUtils.java:22-46 | the result always carries the caller's password; a null or blank input gives ERROR "Invalid response format" |
| HttpResponseUtils.ParseOutcomes | src/main/java/com/password/core/HttpResponseUtils.java:22-46 | there are exactly three outcomes: the blank-input error, the fewer-than-two-fields error, or the status named by the prefix of field 0 (trimmed and lower-cased) with the trimmed field 1 as the message; "Invalid status format" never occurs |
| HttpResponseUtils.DecodeStatusAndMessage | src/main/java/com/password/core/HttpResponseUtils.java:27-45 | `t;m...` decodes to the status of `t`'s lower-cased trimmed prefix and to `trim(m)`; fields after the second are ignored |
| HttpResponseUtils.StatusWordToken | src/main/java/com/password/core/HttpResponseUtils.java:32-35 | the instructed words VALID and INVALID lower-case to "valid" and "invalid", and parse to their own status |
| HttpResponseUtils.ParseFormattedReplyFields | src/main/java/com/password/core/HttpResponseUtils.java:27-33 | a reply `WORD;reason` splits into the status word and the trimmed reason |
| HttpResponseUtils.ParseFormattedReply | src/main/java/com/password/core/HttpResponseUtils.java:27-45 | round trip: a reply in the validator's instructed format decodes to its own status and trimmed reason, with the caller's password |
| HttpResponseUtils.NoSeparatorIsRejected | src/main/java/com/password/core/HttpResponseUtils.java:27-30 | a non-blank reply without `;` (e.g. "weird") is ERROR "Response must contain at least status and message" |
| HttpResponseUtils.EmptyMessageIsRejected | src/main/java/com/password/core/HttpResponseUtils.java:27-30 | `t;` (e.g. "valid;") loses its empty last field and gets the same error, whatever `t` says |
| HttpResponseUtils.UnknownStatusCarriesMessage | src/main/java/com/password/core/HttpResponseUtils.java:35-38 | an unrecognised token (e.g. "banana", or the empty token of ";msg") yields ERROR with the trimmed message, not "Invalid status format" |
| PasswordPattern.LookaheadFindsIffFirstLineContains | src/main/java/com/password/domain/expression/PasswordValidator.java:52 | the lookahead `(?=.*[k])` succeeds exactly when a char of class k occurs before the first line terminator, since `.` does not match line terminators |
| PasswordPattern.LookaheadFindsIffContains | src/main/java/com/password/domain/expression/PasswordValidator.java:52 | on a string without line terminators, the lookahead succeeds exactly when some char is of class k |
| PasswordPattern.LineTerminatorHidesClass | src/main/java/com/password/domain/expression/PasswordValidator.java:52 | "\na" contains a lower-case letter, yet `(?=.*[a-z])` fails on it |
| PasswordPattern.AllowedIsOnOneLine | src/main/java/com/password/domain/expression/PasswordValidator.java:52 | a string made only of chars from `[A-Za-z\d@$!%*?&]` has no line terminator |
| PasswordPattern.RepeatsToEndIffConsistsOf | src/main/java/com/password/domain/expression/PasswordValidator.java:52 | the repetition `[k]{n,}$` matches exactly when there are at least n chars and all are of class k |
| PasswordPattern.PatternIffRules | src/main/java/com/password/domain/expression/PasswordValidator.java:52 | the whole pattern matches exactly the strings of at least 8 chars that meet the character rules; the repetition rules out line terminators, so the lookaheads see the whole string |
| PasswordRules.FirstViolated | src/main/java/com/password/domain/expression/PasswordValidator.java:18-38 | no rule is reported exactly when all rules hold; a reported rule is broken and every rule before it in the order holds |
| ExpressionPasswordValidator.IsValidPassword | src/main/java/com/password/domain/expression/PasswordValidator.java:51-53 | true exactly when the password has at least 8 chars and meets the character rules |
| ExpressionPasswordValidator.Validate | src/main/java/com/password/domain/expression/PasswordValidator.java:14-49 | the answer carries the input password unchanged and is never ERROR |
| ExpressionPasswordValidator.FirstViolatedStep | src/main/java/com/password/domain/expression/PasswordValidator.java:18-38 | the first-failure search checks the head rule, then the rest |
| ExpressionPasswordValidator.ValidateReportsFirstViolatedRule | src/main/java/com/password/domain/expression/PasswordValidator.java:18-43 | the guard chain answers with the description of the first rule broken in the order required, at least 8, at most 128, character rules; "Password is valid" when none is broken |
| ExpressionPasswordValidator.ValidIff | src/main/java/com/password/domain/expression/PasswordValidator.java:18-43 | VALID exactly when the password is present, 8 to 128 chars long and meets the character rules; VALID comes with "Password is valid" |
| ExpressionPasswordValidator.NullPasswordIsRequired | src/main/java/com/password/domain/expression/PasswordValidator.java:18-22 | a null password is INVALID, "Password is required", with a null password |
| ExpressionPasswordValidator.ShortPasswordGetsLengthMessage | src/main/java/com/password/domain/expression/PasswordValidator.java:23-27 | under 8 chars gives the at-least-8 message whatever the content |
| ExpressionPasswordValidator.LongPasswordGetsLengthMessage | src/main/java/com/password/domain/expression/PasswordValidator.java:28-33 | over 128 chars gives the at-most-128 message |
| ExpressionPasswordValidator.ForbiddenCharIsRejected | src/main/java/com/password/domain/expression/PasswordValidator.java:34-38 | an acceptable length with a char outside letters, digits and @$!%*?& gives the character-rules message |
| ExpressionPasswordValidator.MissingClassIsRejected | src/main/java/com/password/domain/expression/PasswordValidator.java:34-38 | an acceptable length missing one of the four classes gives the character-rules message |
| ExpressionPasswordValidator.ExactlyEightCharsAccepted | src/main/java/com/password/domain/expression/PasswordValidator.java:40-43 | "Abc123!@" is VALID with "Password is valid" |
| DomainPasswordValidator.CreatePasswordResponse | src/main/java/com/password/domain/PasswordValidator.java:35-42 | the status, message and password are copied as given |
| DomainPasswordValidator.IsValidPassword | src/main/java/com/password/domain/PasswordValidator.java:44-46 | the same pattern: at least 8 chars meeting the character rules |
| DomainPasswordValidator.CheckPassword | src/main/java/com/password/domain/PasswordValidator.java:15-29 | the guard chain keeps the request's password and answers only VALID or INVALID |
| DomainPasswordValidator.Validate | src/main/java/com/password/domain/PasswordValidator.java:13-33 | as written, a null request is VALID with a null password and the exception's message; a present request keeps its password and is never ERROR |
| DomainPasswordValidator.AgreesWithExpressionValidator | src/main/java/com/password/domain/PasswordValidator.java:15-29 | for every password, the two validators give the same status, message and password |
| DomainPasswordValidator.LengthBoundsInclusive | src/main/java/com/password/domain/PasswordValidator.java:19-24 | at exactly 8 or 128 chars, the answer is VALID exactly when the character rules hold |
| DomainPasswordValidator.NullRequestReportedValid | src/main/java/com/password/domain/PasswordValidator.java:30-32 | as written, a null request is reported VALID with no password checked |
| DomainPasswordValidator.ValidateCorrected | src/main/java/com/password/domain/PasswordValidator.java:13-33 | the catch-all answers ERROR; every other answer is as written |
| DomainPasswordValidator.CorrectedValidMeansChecked | src/main/java/com/password/domain/PasswordValidator.java:13-33 | with the correction, VALID exactly when a request with a password of 8 to 128 chars meeting the character rules was given |
| AIPasswordCreatorDecorator.AttemptStep | src/main/java/com/password/domain/ai/creator/AIPasswordCreatorDecorator.java:42-66 | an accepted attempt's response is VALID and an attempt retried because of its response is not VALID, both carrying the candidate; neither happens with a blank candidate |
| AIPasswordCreatorDecorator.Attempt | src/main/java/com/password/domain/ai/creator/AIPasswordCreatorDecorator.java:42-66 | one attempt's calls decide exactly what AttemptStep says |
| AIPasswordCreatorDecorator.GenerateAndValidatePassword | src/main/java/com/password/domain/ai/creator/AIPasswordCreatorDecorator.java:26-28 | the outcome and the arguments of all service calls are those of the recursion from attempt 1 |
| AIPasswordCreatorDecorator.GenerateAndValidatePasswordRecursive | src/main/java/com/password/domain/ai/creator/AIPasswordCreatorDecorator.java:37-71 | the loop over attempt numbers makes the calls and reaches the outcome of the recursive specification Retries |
| AIPasswordCreatorDecorator.RetriesPrefix | src/main/java/com/password/domain/ai/creator/AIPasswordCreatorDecorator.java:37-66 | calls already made stay in front of the calls the rest of the recursion makes |
| AIPasswordCreatorDecorator.RetriesAgain | src/main/java/com/password/domain/ai/creator/AIPasswordCreatorDecorator.java:59-66 | a rejected attempt adds one call to each service ahead of the next attempt's run |
| AIPasswordCreatorDecorator.PromptsAndCallCounts | src/main/java/com/password/domain/ai/creator/AIPasswordCreatorDecorator.java:42-66 | every creator call uses "Generate a password"; validator calls never outnumber creator calls, and the two are equal when a response is returned; at most one attempt per unit of fuel |
| AIPasswordCreatorDecorator.ReturnedByLastAttempt | src/main/java/com/password/domain/ai/creator/AIPasswordCreatorDecorator.java:59-61 | a returned response is the one the last attempt accepted, for the last candidate sent to the validator |
| AIPasswordCreatorDecorator.AcceptedAfterRetries | src/main/java/com/password/domain/ai/creator/AIPasswordCreatorDecorator.java:37-66 | if the first VALID is on attempt k, there were exactly k creator and k validator calls, with the candidates in order, and that attempt's response is returned |
| AIPasswordCreatorDecorator.AbortedAfterRetries | src/main/java/com/password/domain/ai/creator/AIPasswordCreatorDecorator.java:46-70 | a failing attempt ends the run with its failure and no retry; the validator was called for that attempt only if its candidate reached it |
| AIPasswordCreatorDecorator.NeverAcceptedRunsOutOfFuel | src/main/java/com/password/domain/ai/creator/AIPasswordCreatorDecorator.java:62-66 | if no attempt is accepted, the recursion keeps going, one creator and one validator call per attempt |
| AIPasswordCreatorDecorator.JudgedAttempt | src/main/java/com/password/domain/ai/creator/AIPasswordCreatorDecorator.java:46-66 | an accepted or rejected attempt had a non-blank candidate, an answer from the validator, and that answer's decoding as response; it is accepted exactly when the decoding is VALID |
| AIPasswordCreatorDecorator.ReturnedResponseIsLastJudgement | src/main/java/com/password/domain/ai/creator/AIPasswordCreatorDecorator.java:52-61 | a returned response is VALID, has the last candidate as its password, and is the decoding of the validator's answer on the last attempt |
| AIPasswordCreatorDecorator.AttemptOutcomes | src/main/java/com/password/domain/ai/creator/AIPasswordCreatorDecorator.java:42-70 | a throwing creator, or a null or blank candidate, fails the attempt before the validator is called; a throwing validator fails it with its message after the candidate reached it; a decoded ERROR leads to a retry like INVALID |
| AIPasswordCreatorDecorator.ValidatorThrowsEndsRun | src/main/java/com/password/domain/ai/creator/AIPasswordCreatorDecorator.java:52-70 | a validator exception on the first candidate ends the run with that message after one call to each service, with no retry |
| AIPasswordCreatorDecorator.CreatorThrowsEndsRun | src/main/java/com/password/domain/ai/creator/AIPasswordCreatorDecorator.java:42-70 | a creator exception on the first attempt ends the run with that message after one creator call and no validator call |
| AIPasswordCreatorDecorator.InstructedAnswerDecides | src/main/java/com/password/domain/ai/creator/AIPasswordCreatorDecorator.java:52-66 | an answer in the instructed format accepts the candidate when it says VALID and retries when it says INVALID, with the trimmed reason as message |
| AIPasswordCreatorDecorator.SecondCandidateAccepted | src/main/java/com/password/domain/ai/creator/AIPasswordCreatorDecorator.java:37-66 | a rejected first candidate and an accepted second one give two calls to each service and return the second candidate with its reason |

## Left out

- The AI creator and validator services (`AIPasswordCreator`, `AIPasswordValidator`) call a language model. They are oracles indexed by the attempt number and the argument; their prompts and model are not modelled.
- `AIPasswordValidatorDecorator` composes the validator service with `HttpResponseUtils.createPasswordResponse` and wraps exceptions. It adds no logic beyond `HttpResponseUtils.ParseResponse`, so it is not modelled separately.
- The HTTP controllers, logging, dependency injection and Lombok are framework glue and not modelled.
- AIPasswordCreatorDecorator.GenerateAndValidatePassword: the source's recursion has no bound. The model makes at most `fuel` attempts and reports `OutOfFuel` after that; non-termination is not modelled.
- AIPasswordCreatorDecorator.GenerateAndValidatePasswordRecursive: each recursion level wraps the exception in a new `RuntimeException`. The model ends with one `Failed(reason)` that carries the innermost message.
- JavaText.LowerChar: `String.toLowerCase` is locale-sensitive and covers all of Unicode; the model lower-cases ASCII 'A'..'Z' only.
- Strings are assumed to hold only Basic Multilingual Plane characters (no surrogate pairs). For those, `length()` is the sequence length. A Dafny char is a Unicode scalar value, so a supplementary character (one Java counts as two code units) is outside the model.
- The Java regular expression engine is not modelled. The pattern is written as recursive predicates for its lookaheads and repetition, and proved equal to the character rules.
- DomainPasswordValidator.Validate: the exception's message is a parameter, because the JVM decides its text. It is a string, although `Throwable.getMessage()` may return null (for example, a NullPointerException without helpful messages); a null message is not modelled. A null request is the only exception the guards can raise.
- `com.password.core.PasswordRules`, imported by `domain/PasswordValidator.java`, is not part of this model. Its messages are taken to be the five texts of `domain/expression/PasswordRules.java`.

## Findings

| source | as written | input that shows it | evidently intended | confidence | as-written member | corrected member |
|---|---|---|---|---|---|---|
| src/main/java/com/password/domain/PasswordValidator.java:30-32 | the catch-all answers any exception with status VALID and a null password | a null `ValidateRequest`: `getPassword` throws and the answer is VALID although no password was checked | an exception is reported as ERROR, as the other error paths of the system do | not executed | DomainPasswordValidator.NullRequestReportedValid | DomainPasswordValidator.CorrectedValidMeansChecked |
