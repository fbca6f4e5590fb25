/**
 * AIPasswordCreatorDecorator: asks the AI creator for a password, has the AI validator judge it,
 * decodes the judgement, and tries again until the judgement is VALID.
 *
 * The two AI services are oracles: total functions from the attempt number and the call's
 * argument to what the service does on that call (answers, possibly null, or throws). The
 * source's recursion has no bound; `fuel` is the number of attempts the model lets it make.
 */
module AIPasswordCreatorDecorator {
  import opened Wrappers
  import opened JavaText
  import opened PasswordModel
  import opened HttpResponseUtils

  /** One call to the creator: a (possibly null) password, or an exception with its message. */
  datatype CreatorReply = Generated(candidate: Option<string>) | CreatorThrows(reason: string)

  /** One call to the validator: a (possibly null) text, or an exception with its message. */
  datatype ValidatorReply = Answered(text: Option<string>) | ValidatorThrows(reason: string)

  /** The creator on attempt n, given the prompt. */
  type Creator = (nat, string) -> CreatorReply

  /** The validator on attempt n, given the candidate password. */
  type Validator = (nat, string) -> ValidatorReply

  const GeneratePrompt := "Generate a password"
  const BlankCandidate := "AI password creator returned null or empty password"

  /** How the operation ends: with a VALID response, with an exception, or still retrying when
      the fuel ran out. */
  datatype Outcome = Returned(response: PasswordResponse) | Failed(reason: string) | OutOfFuel

  /** An outcome with the arguments of every creator call (`prompts`) and every validator call
      (`candidates`), in order. */
  datatype Run = Run(outcome: Outcome, prompts: seq<string>, candidates: seq<string>)

  /** What one attempt decides: return, fail, or retry with the candidate that was rejected. */
  datatype Step =
    | Accept(candidate: string, response: PasswordResponse)
    | Abort(reason: string, validated: Option<string>)
    | Again(candidate: string, response: PasswordResponse)

  /** The body of one attempt. A null or blank candidate fails before the validator is asked;
      every decoded judgement other than VALID, ERROR included, leads to another attempt. */
  function AttemptStep(creator: Creator, validator: Validator, attempt: nat): (s: Step)
    ensures s.Accept? ==> s.response.status == Valid && s.response.password == Some(s.candidate)
    ensures s.Again? ==> s.response.status != Valid && s.response.password == Some(s.candidate)
    ensures s.Accept? || s.Again? ==> Trim(s.candidate) != []
  {
    match creator(attempt, GeneratePrompt)
    case CreatorThrows(e) => Abort(e, None)
    case Generated(c) =>
      if c.None? || Trim(c.value) == [] then Abort(BlankCandidate, None)
      else
        match validator(attempt, c.value)
        case ValidatorThrows(e) => Abort(e, Some(c.value))
        case Answered(text) =>
          var response := ParseResponse(text, Some(c.value));
          if response.status == Valid then Accept(c.value, response) else Again(c.value, response)
  }

  /** generateAndValidatePasswordRecursive(attempt) over per-attempt decisions `step`, with
      `fuel` attempts left and the calls already made (`prompts`, `candidates`) carried along:
      it goes on while the decision is Again. */
  function Retries(step: nat -> Step, attempt: nat, fuel: nat, prompts: seq<string>, candidates: seq<string>): Run
    decreases fuel
  {
    if fuel == 0 then Run(OutOfFuel, prompts, candidates)
    else
      match step(attempt)
      case Accept(c, response) => Run(Returned(response), prompts + [GeneratePrompt], candidates + [c])
      case Abort(e, validated) =>
        Run(Failed(e), prompts + [GeneratePrompt], if validated.Some? then candidates + [validated.value] else candidates)
      case Again(c, _) => Retries(step, attempt + 1, fuel - 1, prompts + [GeneratePrompt], candidates + [c])
  }

  /** The decisions the two services lead to, attempt by attempt. */
  function Steps(creator: Creator, validator: Validator): nat -> Step {
    (n: nat) => AttemptStep(creator, validator, n)
  }

  /** `step` is the decision of the two services at every attempt. */
  ghost predicate Decides(step: nat -> Step, creator: Creator, validator: Validator) {
    forall n {:trigger AttemptStep(creator, validator, n)} :: step(n) == AttemptStep(creator, validator, n)
  }

  /** generateAndValidatePassword with `fuel` attempts: the recursion from attempt 1, no calls made yet. */
  function RunFrom(creator: Creator, validator: Validator, fuel: nat): Run {
    Retries(Steps(creator, validator), 1, fuel, [], [])
  }

  /** One attempt of generateAndValidatePasswordRecursive: one creator call with the fixed
      prompt; for a usable candidate, one validator call and the decoding of its answer. */
  method Attempt(creator: Creator, validator: Validator, attemptNumber: nat) returns (step: Step)
    ensures step == AttemptStep(creator, validator, attemptNumber)
  {
    var generated := creator(attemptNumber, GeneratePrompt);
    if generated.CreatorThrows? {
      return Abort(generated.reason, None);
    }
    var generatedPassword := generated.candidate;
    if generatedPassword.None? || Trim(generatedPassword.value) == [] {
      return Abort(BlankCandidate, None);
    }
    var validationResult := validator(attemptNumber, generatedPassword.value);
    if validationResult.ValidatorThrows? {
      return Abort(validationResult.reason, generatedPassword);
    }
    var response := ParseResponse(validationResult.text, generatedPassword);
    if response.status == Valid {
      return Accept(generatedPassword.value, response);
    }
    return Again(generatedPassword.value, response);
  }

  /** generateAndValidatePassword: the recursion from attempt 1. */
  method GenerateAndValidatePassword(creator: Creator, validator: Validator, fuel: nat)
    returns (outcome: Outcome, prompts: seq<string>, candidates: seq<string>)
    ensures Run(outcome, prompts, candidates) == RunFrom(creator, validator, fuel)
  {
    outcome, prompts, candidates := GenerateAndValidatePasswordRecursive(creator, validator, 1, fuel, Steps(creator, validator));
  }

  /** generateAndValidatePasswordRecursive(attemptNumber): its tail call becomes a loop over the
      attempt number, at most `fuel` times; `step` names the decisions the services lead to. */
  method GenerateAndValidatePasswordRecursive(creator: Creator, validator: Validator, first: nat, fuel: nat,
                                              ghost step: nat -> Step)
    returns (outcome: Outcome, prompts: seq<string>, candidates: seq<string>)
    requires Decides(step, creator, validator)
    ensures Run(outcome, prompts, candidates) == Retries(step, first, fuel, [], [])
  {
    prompts, candidates := [], [];
    var attemptNumber := first;
    while attemptNumber < first + fuel
      invariant first <= attemptNumber <= first + fuel
      invariant Retries(step, first, fuel, [], [])
             == Retries(step, attemptNumber, first + fuel - attemptNumber, prompts, candidates)
      decreases first + fuel - attemptNumber
    {
      var now := Attempt(creator, validator, attemptNumber);
      prompts := prompts + [GeneratePrompt];
      match now
      case Accept(c, response) =>
        candidates := candidates + [c];
        outcome := Returned(response);
        return;
      case Abort(e, validated) =>
        if validated.Some? {
          candidates := candidates + [validated.value];
        }
        outcome := Failed(e);
        return;
      case Again(c, _) =>
        candidates := candidates + [c];
        attemptNumber := attemptNumber + 1;
    }
    outcome := OutOfFuel;
  }

  /** The calls already made stay in front of the ones the rest of the recursion makes. */
  lemma {:induction false} RetriesPrefix(step: nat -> Step, attempt: nat, fuel: nat, prompts: seq<string>, candidates: seq<string>)
    ensures var rest := Retries(step, attempt, fuel, [], []);
      Retries(step, attempt, fuel, prompts, candidates) == Run(rest.outcome, prompts + rest.prompts, candidates + rest.candidates)
    decreases fuel
  {
    if fuel > 0 && step(attempt).Again? {
      var c := step(attempt).candidate;
      var p1, c1 := prompts + [GeneratePrompt], candidates + [c];
      RetriesPrefix(step, attempt + 1, fuel - 1, p1, c1);
      RetriesPrefix(step, attempt + 1, fuel - 1, [GeneratePrompt], [c]);
      var tail := Retries(step, attempt + 1, fuel - 1, [], []);
      assert [] + [GeneratePrompt] == [GeneratePrompt] && [] + [c] == [c];
      assert p1 + tail.prompts == prompts + ([GeneratePrompt] + tail.prompts);
      assert c1 + tail.candidates == candidates + ([c] + tail.candidates);
    } else if fuel > 0 && step(attempt).Abort? && step(attempt).validated.Some? {
      assert [] + [step(attempt).validated.value] == [step(attempt).validated.value];
    } else if fuel > 0 {
      assert [] + [GeneratePrompt] == [GeneratePrompt];
    }
  }

  /** A rejected attempt adds one call to each service in front of the rest of the run. */
  lemma RetriesAgain(step: nat -> Step, attempt: nat, fuel: nat)
    requires fuel > 0 && step(attempt).Again?
    ensures var rest := Retries(step, attempt + 1, fuel - 1, [], []);
      Retries(step, attempt, fuel, [], [])
        == Run(rest.outcome, [GeneratePrompt] + rest.prompts, [step(attempt).candidate] + rest.candidates)
  {
    RetriesPrefix(step, attempt + 1, fuel - 1, [GeneratePrompt], [step(attempt).candidate]);
    assert [] + [GeneratePrompt] == [GeneratePrompt] && [] + [step(attempt).candidate] == [step(attempt).candidate];
  }

  /** Every creator call is made with the fixed prompt; there is at most one validator call per
      creator call, and one of each per attempt that did not fail; never more attempts than the
      fuel. */
  lemma {:induction false} PromptsAndCallCounts(step: nat -> Step, attempt: nat, fuel: nat)
    ensures var run := Retries(step, attempt, fuel, [], []);
      && (forall i :: 0 <= i < |run.prompts| ==> run.prompts[i] == GeneratePrompt)
      && |run.candidates| <= |run.prompts| <= fuel
      && (run.outcome.Returned? || run.outcome.OutOfFuel? ==> |run.candidates| == |run.prompts|)
      && (run.outcome.OutOfFuel? ==> |run.prompts| == fuel)
    decreases fuel
  {
    if fuel > 0 && step(attempt).Again? {
      PromptsAndCallCounts(step, attempt + 1, fuel - 1);
      RetriesAgain(step, attempt, fuel);
    }
  }

  /** A returned response is the one decided by the last attempt, which was accepted, and whose
      candidate is the last argument given to the validator. */
  lemma {:induction false} ReturnedByLastAttempt(step: nat -> Step, attempt: nat, fuel: nat)
    requires Retries(step, attempt, fuel, [], []).outcome.Returned?
    ensures var run := Retries(step, attempt, fuel, [], []);
      && run.candidates != []
      && step(attempt + |run.candidates| - 1) == Accept(run.candidates[|run.candidates| - 1], run.outcome.response)
    decreases fuel
  {
    if step(attempt).Again? {
      RetriesAgain(step, attempt, fuel);
      ReturnedByLastAttempt(step, attempt + 1, fuel - 1);
      var rest := Retries(step, attempt + 1, fuel - 1, [], []);
      var run := Retries(step, attempt, fuel, [], []);
      assert run.candidates == [step(attempt).candidate] + rest.candidates;
      assert run.candidates[|run.candidates| - 1] == rest.candidates[|rest.candidates| - 1];
    }
  }

  /** If the first `n` attempts from `attempt` are rejected and the next one is accepted, the run
      returns that attempt's response after exactly n + 1 creator and n + 1 validator calls,
      whose arguments are the candidates in order. */
  lemma {:induction false} AcceptedAfterRetries(step: nat -> Step, attempt: nat, n: nat, fuel: nat)
    requires forall j :: attempt <= j < attempt + n ==> step(j).Again?
    requires step(attempt + n).Accept?
    requires n < fuel
    ensures var run := Retries(step, attempt, fuel, [], []);
      && run.outcome == Returned(step(attempt + n).response)
      && |run.prompts| == n + 1
      && |run.candidates| == n + 1
      && forall j :: 0 <= j < n + 1 ==> run.candidates[j] == step(attempt + j).candidate
    decreases n
  {
    if n > 0 {
      AcceptedAfterRetries(step, attempt + 1, n - 1, fuel - 1);
      RetriesAgain(step, attempt, fuel);
      var run := Retries(step, attempt, fuel, [], []);
      var rest := Retries(step, attempt + 1, fuel - 1, [], []);
      assert run.candidates == [step(attempt).candidate] + rest.candidates;
      forall j | 1 <= j < n + 1
        ensures run.candidates[j] == step(attempt + j).candidate
      {
        assert run.candidates[j] == rest.candidates[j - 1];
        assert attempt + 1 + (j - 1) == attempt + j;
      }
    }
  }

  /** If the first `n` attempts from `attempt` are rejected and the next one fails, the run fails
      with that failure after n + 1 creator calls; the validator was called for every earlier
      attempt, and for the failing one only if its candidate had reached it. */
  lemma {:induction false} AbortedAfterRetries(step: nat -> Step, attempt: nat, n: nat, fuel: nat)
    requires forall j :: attempt <= j < attempt + n ==> step(j).Again?
    requires step(attempt + n).Abort?
    requires n < fuel
    ensures var run := Retries(step, attempt, fuel, [], []);
      && run.outcome == Failed(step(attempt + n).reason)
      && |run.prompts| == n + 1
      && |run.candidates| == (if step(attempt + n).validated.Some? then n + 1 else n)
    decreases n
  {
    if n > 0 {
      AbortedAfterRetries(step, attempt + 1, n - 1, fuel - 1);
      RetriesAgain(step, attempt, fuel);
    }
  }

  /** If every one of `fuel` attempts is rejected, the run is still retrying after `fuel` calls to
      each service. */
  lemma {:induction false} NeverAcceptedRunsOutOfFuel(step: nat -> Step, attempt: nat, fuel: nat)
    requires forall j :: attempt <= j < attempt + fuel ==> step(j).Again?
    ensures var run := Retries(step, attempt, fuel, [], []);
      run.outcome == OutOfFuel && |run.prompts| == fuel && |run.candidates| == fuel
    decreases fuel
  {
    if fuel > 0 {
      NeverAcceptedRunsOutOfFuel(step, attempt + 1, fuel - 1);
      RetriesAgain(step, attempt, fuel);
    }
  }

  /** An accepted attempt is one whose candidate was usable and whose validator answer decodes
      to VALID; a rejected one decodes to anything else. */
  lemma JudgedAttempt(creator: Creator, validator: Validator, attempt: nat)
    ensures var s := AttemptStep(creator, validator, attempt);
      s.Accept? || s.Again? ==>
        && creator(attempt, GeneratePrompt) == Generated(Some(s.candidate))
        && !IsBlank(s.candidate)
        && validator(attempt, s.candidate).Answered?
        && s.response == ParseResponse(validator(attempt, s.candidate).text, Some(s.candidate))
        && (s.Accept? <==> s.response.status == Valid)
  {
    var g := creator(attempt, GeneratePrompt);
    if g.Generated? && g.candidate.Some? {
      TrimSpec(g.candidate.value);
    }
  }

  /** generateAndValidatePassword's answer, when it returns, is VALID, carries the last generated
      candidate as its password, and is the decoding of the validator's answer to that candidate
      on the last attempt. */
  lemma ReturnedResponseIsLastJudgement(creator: Creator, validator: Validator, fuel: nat)
    requires RunFrom(creator, validator, fuel).outcome.Returned?
    ensures RunFrom(creator, validator, fuel).candidates != []
    ensures var run := RunFrom(creator, validator, fuel);
      var last := run.candidates[|run.candidates| - 1];
      var answer := validator(|run.candidates|, last);
      && run.outcome.response.status == Valid
      && run.outcome.response.password == Some(last)
      && answer.Answered?
      && run.outcome.response == ParseResponse(answer.text, Some(last))
  {
    var step := Steps(creator, validator);
    ReturnedByLastAttempt(step, 1, fuel);
    var run := Retries(step, 1, fuel, [], []);
    JudgedAttempt(creator, validator, |run.candidates|);
  }

  /** A failing creator (an exception, or a null or blank candidate) ends the attempt without a
      validator call; a decoded ERROR, like INVALID, leads to a retry rather than a return. */
  lemma AttemptOutcomes(creator: Creator, validator: Validator, attempt: nat)
    ensures creator(attempt, GeneratePrompt).CreatorThrows? ==>
      AttemptStep(creator, validator, attempt) == Abort(creator(attempt, GeneratePrompt).reason, None)
    ensures var g := creator(attempt, GeneratePrompt);
      g.Generated? && (g.candidate.None? || IsBlank(g.candidate.value)) ==>
      AttemptStep(creator, validator, attempt) == Abort(BlankCandidate, None)
    ensures var g := creator(attempt, GeneratePrompt);
      g.Generated? && g.candidate.Some? && !IsBlank(g.candidate.value)
      && validator(attempt, g.candidate.value).Answered?
      && ParseResponse(validator(attempt, g.candidate.value).text, g.candidate).status == Error ==>
      AttemptStep(creator, validator, attempt).Again?
    ensures var g := creator(attempt, GeneratePrompt);
      g.Generated? && g.candidate.Some? && !IsBlank(g.candidate.value)
      && validator(attempt, g.candidate.value).ValidatorThrows? ==>
      AttemptStep(creator, validator, attempt) == Abort(validator(attempt, g.candidate.value).reason, g.candidate)
  {
    var g := creator(attempt, GeneratePrompt);
    if g.Generated? && g.candidate.Some? {
      TrimSpec(g.candidate.value);
    }
  }

  /** A validator that throws on the first candidate ends the run: one call to each service, the
      exception's message as the failure, no retry. */
  lemma ValidatorThrowsEndsRun(creator: Creator, validator: Validator, step: nat -> Step, fuel: nat,
                               candidate: string, reason: string)
    requires Decides(step, creator, validator) && 1 <= fuel
    requires !IsBlank(candidate) && creator(1, GeneratePrompt) == Generated(Some(candidate))
    requires validator(1, candidate) == ValidatorThrows(reason)
    ensures Retries(step, 1, fuel, [], []) == Run(Failed(reason), [GeneratePrompt], [candidate])
  {
    TrimSpec(candidate);
    assert step(1) == AttemptStep(creator, validator, 1);
    assert [] + [GeneratePrompt] == [GeneratePrompt] && [] + [candidate] == [candidate];
  }

  /** A creator that throws on the first attempt ends the run: one creator call, no validator call,
      the exception's message as the failure. */
  lemma CreatorThrowsEndsRun(creator: Creator, validator: Validator, step: nat -> Step, fuel: nat, reason: string)
    requires Decides(step, creator, validator) && 1 <= fuel
    requires creator(1, GeneratePrompt) == CreatorThrows(reason)
    ensures Retries(step, 1, fuel, [], []) == Run(Failed(reason), [GeneratePrompt], [])
  {
    assert step(1) == AttemptStep(creator, validator, 1);
    assert [] + [GeneratePrompt] == [GeneratePrompt];
  }

  /** An answer in the instructed format decides the attempt: accepted with the trimmed reason
      when it says VALID, rejected when it says INVALID. */
  lemma InstructedAnswerDecides(creator: Creator, validator: Validator, step: nat -> Step, attempt: nat,
                                candidate: string, s: Status, reason: string)
    requires Decides(step, creator, validator)
    requires s != Error && !IsBlank(candidate)
    requires reason != [] && Separator !in reason
    requires creator(attempt, GeneratePrompt) == Generated(Some(candidate))
    requires validator(attempt, candidate) == Answered(Some(FormatReply(s, reason)))
    ensures var response := PasswordResponse(s, Trim(reason), Some(candidate));
      step(attempt) == if s == Valid then Accept(candidate, response) else Again(candidate, response)
  {
    TrimSpec(candidate);
    ParseFormattedReply(s, reason, Some(candidate));
    assert step(attempt) == AttemptStep(creator, validator, attempt);
  }

  /** A weak first candidate and an accepted second one: two calls to each service, the second
      candidate returned with the validator's trimmed reason, whatever fuel beyond two is left. */
  lemma SecondCandidateAccepted(creator: Creator, validator: Validator, step: nat -> Step, fuel: nat,
                                weak: string, strong: string, weakReason: string, strongReason: string)
    requires Decides(step, creator, validator) && 2 <= fuel
    requires !IsBlank(weak) && !IsBlank(strong)
    requires weakReason != [] && Separator !in weakReason && strongReason != [] && Separator !in strongReason
    requires creator(1, GeneratePrompt) == Generated(Some(weak)) && creator(2, GeneratePrompt) == Generated(Some(strong))
    requires validator(1, weak) == Answered(Some(FormatReply(Invalid, weakReason)))
    requires validator(2, strong) == Answered(Some(FormatReply(Valid, strongReason)))
    ensures Retries(step, 1, fuel, [], [])
         == Run(Returned(PasswordResponse(Valid, Trim(strongReason), Some(strong))), [GeneratePrompt, GeneratePrompt], [weak, strong])
  {
    InstructedAnswerDecides(creator, validator, step, 1, weak, Invalid, weakReason);
    InstructedAnswerDecides(creator, validator, step, 2, strong, Valid, strongReason);
    AcceptedAfterRetries(step, 1, 1, fuel);
    var run := Retries(step, 1, fuel, [], []);
    assert run.candidates == [weak, strong];
    assert run.prompts == [GeneratePrompt, GeneratePrompt];
  }
}
