/** The captioning workflow step: it asks a vision model to describe an
    uploaded image and returns the text; when the call fails it classifies
    the failure by its message and by the attempt number.

    The model call, the clock and the step metadata the workflow runtime
    supplies are parameters. The step ends in one of five ways: the
    description, a retryable error with a retry delay, a fatal error for
    bad input, a fatal error once attempts are exhausted, or a plain error
    that the runtime retries. */
module Captioning {
  import opened Wrappers
  import opened Strings

  /** What the workflow runtime reports about the running step: the attempt
      number, the step's identifier and its start time (as an ISO-8601
      string). */
  datatype StepMetadata = StepMetadata(attempt: int, stepId: string, stepStartedAt: string)

  /** The outcome of the model call: generated text, or a thrown value. */
  datatype ModelCall = Generated(text: string) | CallFailed(exception: Thrown)

  /** Why a fatal error was raised. The source tells the two apart only by
      the wording of the message. */
  datatype FatalCause = InvalidInput | Exhausted

  /** How the step ends: it returns the description, or throws one of the
      runtime's error kinds. */
  datatype StepOutcome =
    | Described(text: string)
    | Retryable(message: string, retryAfter: string)
    | Fatal(cause: FatalCause, message: string)
    | Failed(message: string)

  /** The delay requested when the model is rate limited. */
  const RateLimitRetryAfter: string := "5m"

  /** From this attempt on, an unclassified failure is fatal. */
  const AttemptLimit: int := 5

  /** The message mentions rate limiting or an exhausted quota. Every keyword
      has at least three characters, so a shorter message never matches. */
  predicate IsRateLimited(message: string): (r: bool)
    ensures r ==> |message| >= 3
  {
    Contains(message, "rate limit") || Contains(message, "429") || Contains(message, "quota")
  }

  /** The message mentions an invalid or unsupported image, or a bad
      request. Every keyword has at least three characters, so a shorter
      message never matches. */
  predicate IsInvalidInput(message: string): (r: bool)
    ensures r ==> |message| >= 3
  {
    Contains(message, "invalid image") || Contains(message, "unsupported") || Contains(message, "400")
  }

  /** `s` ends with `suffix`. */
  predicate EndsWith(s: string, suffix: string)
  {
    |suffix| <= |s| && s[|s| - |suffix|..] == suffix
  }

  /** `s` starts with the step's identifier in brackets. */
  predicate TaggedWith(s: string, step: StepMetadata)
  {
    |step.stepId| + 2 <= |s| && s[0] == '[' && s[1..|step.stepId| + 1] == step.stepId
      && s[|step.stepId| + 1] == ']'
  }

  /** The texts of the four errors: each quotes the failure's message at its
      end, and the two fatal ones start with the step's identifier. */
  function RateLimitedText(message: string): (r: string)
    ensures EndsWith(r, message)
  {
    "Rate limited: " + message
  }

  function InvalidInputText(step: StepMetadata, message: string): (r: string)
    ensures EndsWith(r, message)
    ensures TaggedWith(r, step)
  {
    "[" + step.stepId + "] Invalid image or unsupported format: " + message
  }

  function ExhaustedText(step: StepMetadata, message: string): (r: string)
    requires step.attempt >= 0
    ensures EndsWith(r, message)
    ensures TaggedWith(r, step)
  {
    var tag := "[" + step.stepId + "]";
    var text := tag + " Failed to generate description after " + DecimalString(step.attempt)
                + " attempts as of " + step.stepStartedAt + ": " + message;
    assert text[..|tag|] == tag;
    text
  }

  function RetryText(message: string): (r: string)
    ensures EndsWith(r, message)
  {
    "AI generation failed: " + message
  }

  /** The error the step throws for a failed model call with this message. */
  function ClassifyFailure(step: StepMetadata, message: string): (r: StepOutcome)
    ensures !r.Described?
  {
    if IsRateLimited(message) then Retryable(RateLimitedText(message), RateLimitRetryAfter)
    else if IsInvalidInput(message) then Fatal(InvalidInput, InvalidInputText(step, message))
    else if step.attempt >= AttemptLimit then Fatal(Exhausted, ExhaustedText(step, message))
    else Failed(RetryText(message))
  }

  /** The step: the generated text on success, the classified error on
      failure. */
  function GenerateDescription(step: StepMetadata, call: ModelCall): (r: StepOutcome)
    ensures call.Generated? ==> r == Described(call.text)
    ensures call.CallFailed? ==> r == ClassifyFailure(step, MessageOf(call.exception))
    ensures call.CallFailed? ==> !r.Described?
  {
    match call
    case Generated(text) => Described(text)
    case CallFailed(e) => ClassifyFailure(step, MessageOf(e))
  }

  // ---------------------------------------------------------------------
  // The classification, case by case

  /** Each outcome kind is reached exactly under its own condition; the tests
      are made in a fixed order, rate limiting first. */
  lemma OutcomeKinds(step: StepMetadata, message: string)
    ensures ClassifyFailure(step, message).Retryable? <==> IsRateLimited(message)
    ensures ClassifyFailure(step, message).Fatal? && ClassifyFailure(step, message).cause == InvalidInput <==>
            !IsRateLimited(message) && IsInvalidInput(message)
    ensures ClassifyFailure(step, message).Fatal? && ClassifyFailure(step, message).cause == Exhausted <==>
            !IsRateLimited(message) && !IsInvalidInput(message) && step.attempt >= AttemptLimit
    ensures ClassifyFailure(step, message).Failed? <==>
            !IsRateLimited(message) && !IsInvalidInput(message) && step.attempt < AttemptLimit
  {
  }

  /** A rate-limited failure is retried after five minutes, at every attempt. */
  lemma RateLimitedIsRetryable(step: StepMetadata, message: string)
    requires IsRateLimited(message)
    ensures ClassifyFailure(step, message) == Retryable("Rate limited: " + message, "5m")
  {
  }

  /** Rate limiting is tested before bad input: a message that mentions both
      429 and 400 is retryable, not fatal. */
  lemma RateLimitTakesPrecedence(step: StepMetadata, message: string)
    requires Contains(message, "429") && Contains(message, "400")
    ensures ClassifyFailure(step, message).Retryable?
  {
  }

  /** A failure caused by the input is fatal, at every attempt. */
  lemma InvalidInputIsFatal(step: StepMetadata, message: string)
    requires !IsRateLimited(message) && IsInvalidInput(message)
    ensures ClassifyFailure(step, message) ==
            Fatal(InvalidInput, "[" + step.stepId + "] Invalid image or unsupported format: " + message)
  {
  }

  /** An unclassified failure is retried before the fifth attempt and fatal
      from it on; which of the two it is depends on nothing but the attempt
      number. */
  lemma UnclassifiedDependsOnAttempt(step1: StepMetadata, step2: StepMetadata, message: string)
    requires !IsRateLimited(message) && !IsInvalidInput(message)
    ensures step1.attempt < AttemptLimit ==>
              ClassifyFailure(step1, message) == Failed("AI generation failed: " + message)
    ensures step1.attempt >= AttemptLimit ==>
              ClassifyFailure(step1, message) == Fatal(Exhausted, ExhaustedText(step1, message))
    ensures (step1.attempt >= AttemptLimit <==> step2.attempt >= AttemptLimit) ==>
              (ClassifyFailure(step1, message).Failed? <==> ClassifyFailure(step2, message).Failed?)
  {
  }

  /** Adding context around a message keeps its keywords: a message that
      quotes a rate-limited failure still mentions rate limiting, and one
      that quotes a bad-input failure still mentions bad input. */
  lemma KeywordsSurviveWrapping(pre: string, message: string, post: string)
    ensures IsRateLimited(message) ==> IsRateLimited(pre + message + post)
    ensures IsInvalidInput(message) ==> IsInvalidInput(pre + message + post)
  {
    forall sub | Contains(message, sub)
      ensures Contains(pre + message + post, sub)
    {
      ContainsInExtension(pre, message, post, sub);
    }
  }

  /** Whatever the outcome, the error text ends with the failure's own
      message, so no detail of the cause is lost. */
  lemma ErrorTextQuotesMessage(step: StepMetadata, message: string)
    ensures EndsWith(ClassifyFailure(step, message).message, message)
  {
  }

  /** The exhausted-attempts text names the attempt number in decimal, and
      that number can be read back from it. */
  lemma ExhaustedTextNamesAttempt(step: StepMetadata, message: string)
    requires step.attempt >= 0
    ensures Contains(ExhaustedText(step, message), DecimalString(step.attempt))
    ensures DecimalValue(DecimalString(step.attempt)) == step.attempt
  {
    var digits := DecimalString(step.attempt);
    var pre := "[" + step.stepId + "]" + " Failed to generate description after ";
    var post := " attempts as of " + step.stepStartedAt + ": " + message;
    ContainsSelf(digits);
    ContainsInExtension(pre, digits, post, digits);
    assert pre + digits + post == ExhaustedText(step, message);
    DecimalRoundTrip(step.attempt);
  }

  // ---------------------------------------------------------------------
  // Worked examples

  /** "Unknown error", the message of a thrown non-`Error`, mentions none of
      the keywords. */
  lemma UnknownErrorMatchesNoKeyword()
    ensures !IsRateLimited(UnknownError) && !IsInvalidInput(UnknownError)
  {
    MissingCharNotContained(UnknownError, "rate limit", 1);
    MissingCharNotContained(UnknownError, "429", 0);
    MissingCharNotContained(UnknownError, "quota", 0);
    MissingCharNotContained(UnknownError, "invalid image", 0);
    MissingCharNotContained(UnknownError, "unsupported", 0);
    MissingCharNotContained(UnknownError, "400", 0);
  }

  /** A thrown value that is not an `Error` is classified by the attempt
      number alone. */
  lemma NonErrorDependsOnlyOnAttempt(step: StepMetadata)
    ensures step.attempt < AttemptLimit ==>
              GenerateDescription(step, CallFailed(NonErrorValue)) == Failed("AI generation failed: Unknown error")
    ensures step.attempt >= AttemptLimit ==>
              GenerateDescription(step, CallFailed(NonErrorValue)).Fatal? &&
              GenerateDescription(step, CallFailed(NonErrorValue)).cause == Exhausted
  {
    UnknownErrorMatchesNoKeyword();
  }

  /** A message with both status codes is retryable. */
  lemma MixedStatusCodesExample(step: StepMetadata)
    ensures ClassifyFailure(step, "status 429 after status 400").Retryable?
  {
    assert OccursAt("status 429 after status 400", "429", 7);
  }

  /** The tests are case-sensitive: "Rate limit exceeded" is not recognised as
      rate limiting and falls through to the attempt check. */
  lemma CapitalisedRateLimitIsUnclassified(step: StepMetadata)
    requires step.attempt < AttemptLimit
    ensures ClassifyFailure(step, "Rate limit exceeded") == Failed("AI generation failed: Rate limit exceeded")
  {
    var m := "Rate limit exceeded";
    MissingCharNotContained(m, "rate limit", 0);
    MissingCharNotContained(m, "429", 0);
    MissingCharNotContained(m, "quota", 0);
    MissingCharNotContained(m, "invalid image", 2);
    MissingCharNotContained(m, "unsupported", 0);
    MissingCharNotContained(m, "400", 0);
  }

  /** The tests are unanchored: a timeout after 4000 ms mentions "400" and is
      treated as bad input, fatal at the first attempt. */
  lemma TimeoutMentioningFourHundredIsFatal(step: StepMetadata)
    ensures ClassifyFailure(step, "timed out after 4000ms").Fatal?
    ensures ClassifyFailure(step, "timed out after 4000ms").cause == InvalidInput
  {
    var m := "timed out after 4000ms";
    MissingCharNotContained(m, "rate limit", 5);
    MissingCharNotContained(m, "429", 1);
    MissingCharNotContained(m, "quota", 0);
    assert OccursAt(m, "400", 16);
  }
}
