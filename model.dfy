// The completion wrapper: the prompt is cut to fit the request limit, then
// sent up to `max_retries` times with exponential backoff between failed
// attempts. The HTTP exchange is not modelled: what each attempt yields is
// given by a function of the prompt sent and the attempt number, and the
// sleeps are returned as a list of durations instead of being slept.

module Model {
  import opened Wrappers
  import opened Text

  const MaxPromptLength: nat := 32000
  const TruncationMark: string := "... [truncated]"

  /** The rule that keeps a prompt under the request limit. */
  function TruncatePrompt(prompt: string): (sent: string)
    ensures |sent| <= MaxPromptLength
    ensures |prompt| <= MaxPromptLength ==> sent == prompt
    ensures |prompt| > MaxPromptLength ==>
      |sent| == 31915 && sent[..MaxPromptLength - 100] == prompt[..MaxPromptLength - 100]
  {
    if |prompt| > MaxPromptLength then prompt[..MaxPromptLength - 100] + TruncationMark else prompt
  }

  /** Truncating twice is truncating once. */
  lemma TruncateIdempotent(prompt: string)
    ensures TruncatePrompt(TruncatePrompt(prompt)) == TruncatePrompt(prompt)
  {
  }

  /** What one request yields. */
  datatype Attempt =
    | Reply(content: string)          // the first choice's message content
    | RequestError(message: string)   // a RequestException: connection failure, HTTP error status, undecodable body
    | Malformed(message: string)      // a body of the wrong shape: KeyError, IndexError or TypeError

  /** How `summarize_with_groq` ends: a value (`None` when no attempt is made) or an exception that escapes. */
  datatype Outcome = Returned(value: Option<string>) | Raised(error: string)

  /** A whole run of the retry loop: its outcome, the sleeps in order, and the number of requests made. */
  datatype Run = Run(result: Outcome, sleeps: seq<nat>, attempts: nat)

  function Pow2(k: nat): (p: nat)
    ensures p >= 1
  {
    if k == 0 then 1 else 2 * Pow2(k - 1)
  }

  function FailureMessage(e: string): string {
    "[Summary failed due to API error: " + e + "]"
  }

  /** The retry loop from attempt `k` on, for `maxRetries` attempts in all. */
  function RetryFrom(sent: string, k: nat, maxRetries: int, post: (string, nat) -> Attempt): (run: Run)
    ensures run.result == Returned(None) <==> k >= maxRetries
    ensures k >= maxRetries ==> run.attempts == 0 && run.sleeps == []
    ensures k < maxRetries ==> 1 <= run.attempts <= maxRetries - k && |run.sleeps| == run.attempts - 1
    decreases maxRetries - k
  {
    if k >= maxRetries then Run(Returned(None), [], 0)
    else match post(sent, k)
      case Reply(c) => Run(Returned(Some(c)), [], 1)
      case Malformed(m) => Run(Raised(m), [], 1)
      case RequestError(e) =>
        if k < maxRetries - 1 then
          var rest := RetryFrom(sent, k + 1, maxRetries, post);
          Run(rest.result, [Pow2(k)] + rest.sleeps, 1 + rest.attempts)
        else Run(Returned(Some(FailureMessage(e))), [], 1)
  }

  /** The run of `summarize_with_groq` on a prompt. */
  function Summarize(prompt: string, maxRetries: int, post: (string, nat) -> Attempt): (run: Run)
    ensures run.result == Returned(None) <==> maxRetries <= 0
    ensures maxRetries > 0 ==> 1 <= run.attempts <= maxRetries && |run.sleeps| == run.attempts - 1
  {
    RetryFrom(TruncatePrompt(prompt), 0, maxRetries, post)
  }

  /** The loop's progress: the sleeps so far followed by the rest of the run make up the whole run. */
  ghost predicate Progress(prompt: string, sent: string, maxRetries: int, post: (string, nat) -> Attempt,
                           attempt: nat, sleeps: seq<nat>)
  {
    var rest := RetryFrom(sent, attempt, maxRetries, post);
    Summarize(prompt, maxRetries, post) == Run(rest.result, sleeps + rest.sleeps, attempt + rest.attempts)
  }

  lemma ProgressStart(prompt: string, maxRetries: int, post: (string, nat) -> Attempt)
    ensures Progress(prompt, TruncatePrompt(prompt), maxRetries, post, 0, [])
  {
    var rest := RetryFrom(TruncatePrompt(prompt), 0, maxRetries, post);
    assert [] + rest.sleeps == rest.sleeps;
  }

  lemma ProgressStep(prompt: string, sent: string, maxRetries: int, post: (string, nat) -> Attempt,
                     attempt: nat, sleeps: seq<nat>)
    requires Progress(prompt, sent, maxRetries, post, attempt, sleeps)
    requires attempt < maxRetries - 1 && post(sent, attempt).RequestError?
    ensures Progress(prompt, sent, maxRetries, post, attempt + 1, sleeps + [Pow2(attempt)])
  {
    var rest := RetryFrom(sent, attempt + 1, maxRetries, post);
    assert RetryFrom(sent, attempt, maxRetries, post) == Run(rest.result, [Pow2(attempt)] + rest.sleeps, 1 + rest.attempts);
    assert sleeps + ([Pow2(attempt)] + rest.sleeps) == (sleeps + [Pow2(attempt)]) + rest.sleeps;
  }

  lemma ProgressStop(prompt: string, sent: string, maxRetries: int, post: (string, nat) -> Attempt,
                     attempt: nat, sleeps: seq<nat>, result: Outcome)
    requires Progress(prompt, sent, maxRetries, post, attempt, sleeps)
    requires RetryFrom(sent, attempt, maxRetries, post) == Run(result, [], 1)
    ensures Summarize(prompt, maxRetries, post) == Run(result, sleeps, attempt + 1)
  {
    assert sleeps + [] == sleeps;
  }

  /** `summarize_with_groq`, loop for loop. */
  method SummarizeWithGroq(prompt: string, maxRetries: int, post: (string, nat) -> Attempt)
    returns (result: Outcome, sleeps: seq<nat>, attempts: nat)
    ensures Run(result, sleeps, attempts) == Summarize(prompt, maxRetries, post)
  {
    var sent := prompt;
    if |sent| > MaxPromptLength {
      sent := sent[..MaxPromptLength - 100] + TruncationMark;
    }
    ProgressStart(prompt, maxRetries, post);
    sleeps := [];
    var attempt: nat := 0;
    while attempt < maxRetries
      invariant Progress(prompt, sent, maxRetries, post, attempt, sleeps)
      decreases maxRetries - attempt
    {
      var outcome := post(sent, attempt);
      match outcome {
        case Reply(c) =>
          ProgressStop(prompt, sent, maxRetries, post, attempt, sleeps, Returned(Some(c)));
          return Returned(Some(c)), sleeps, attempt + 1;
        case Malformed(m) =>
          ProgressStop(prompt, sent, maxRetries, post, attempt, sleeps, Raised(m));
          return Raised(m), sleeps, attempt + 1;
        case RequestError(e) =>
          if attempt < maxRetries - 1 {
            ProgressStep(prompt, sent, maxRetries, post, attempt, sleeps);
            sleeps := sleeps + [Pow2(attempt)];
          } else {
            ProgressStop(prompt, sent, maxRetries, post, attempt, sleeps, Returned(Some(FailureMessage(e))));
            return Returned(Some(FailureMessage(e))), sleeps, attempt + 1;
          }
      }
      attempt := attempt + 1;
    }
    assert sleeps + [] == sleeps;
    return Returned(None), sleeps, attempt;
  }

  /**
   * How a run unfolds, from attempt `k` on: every attempt but the last
   * failed with a request error, the attempts are bounded by what remains,
   * each failed attempt j but the last is followed by a sleep of 2^j
   * seconds, and the last attempt decides the outcome.
   */
  lemma {:induction false} RetryFromShape(sent: string, k: nat, maxRetries: int, post: (string, nat) -> Attempt)
    ensures var run := RetryFrom(sent, k, maxRetries, post);
      && (k >= maxRetries <==> run.attempts == 0)
      && (k >= maxRetries ==> run.result == Returned(None) && run.sleeps == [])
      && (k < maxRetries ==> 1 <= run.attempts <= maxRetries - k && |run.sleeps| == run.attempts - 1)
      && (forall j :: 0 <= j < |run.sleeps| ==> run.sleeps[j] == Pow2(k + j))
      && (forall j :: k <= j < k + run.attempts - 1 ==> post(sent, j).RequestError?)
    ensures var run := RetryFrom(sent, k, maxRetries, post);
      k < maxRetries ==>
        match post(sent, k + run.attempts - 1)
        case Reply(c) => run.result == Returned(Some(c))
        case Malformed(m) => run.result == Raised(m)
        case RequestError(e) => k + run.attempts == maxRetries && run.result == Returned(Some(FailureMessage(e)))
    decreases maxRetries - k
  {
    if k < maxRetries && post(sent, k).RequestError? && k < maxRetries - 1 {
      RetryFromShape(sent, k + 1, maxRetries, post);
      var rest := RetryFrom(sent, k + 1, maxRetries, post);
      var run := RetryFrom(sent, k, maxRetries, post);
      assert run.sleeps == [Pow2(k)] + rest.sleeps;
      forall j | 0 <= j < |run.sleeps| ensures run.sleeps[j] == Pow2(k + j) {
        if j > 0 { assert run.sleeps[j] == rest.sleeps[j - 1]; }
      }
    }
  }

  /**
   * The retry policy of `summarize_with_groq`: with `maxRetries <= 0` no
   * request is made and `None` comes back; otherwise at most `maxRetries`
   * requests are made, the first reply is returned at once, a malformed
   * body escapes as an exception, and after `maxRetries` request errors
   * the failure message with the last error is returned.
   */
  lemma RetryPolicy(prompt: string, maxRetries: int, post: (string, nat) -> Attempt)
    ensures var run := Summarize(prompt, maxRetries, post);
      maxRetries <= 0 ==> run == Run(Returned(None), [], 0)
    ensures var run := Summarize(prompt, maxRetries, post);
      var sent := TruncatePrompt(prompt);
      maxRetries > 0 ==>
        && 1 <= run.attempts <= maxRetries
        && (forall j :: 0 <= j < run.attempts - 1 ==> post(sent, j).RequestError?)
        && match post(sent, run.attempts - 1)
           case Reply(c) => run.result == Returned(Some(c))
           case Malformed(m) => run.result == Raised(m)
           case RequestError(e) => run.attempts == maxRetries && run.result == Returned(Some(FailureMessage(e)))
  {
    RetryFromShape(TruncatePrompt(prompt), 0, maxRetries, post);
  }

  lemma {:induction false} SumOfPowers(k: nat, xs: seq<nat>)
    requires forall j :: 0 <= j < |xs| ==> xs[j] == Pow2(k + j)
    ensures Sum(xs) + Pow2(k) == Pow2(k + |xs|)
    decreases |xs|
  {
    if xs != [] {
      SumOfPowers(k + 1, xs[1..]);
    }
  }

  /**
   * The sleeps are 1, 2, 4, ... seconds, one fewer than the attempts, and
   * add up to 2^s - 1 for s sleeps: with the default of three attempts at
   * most 1 + 2 = 3 seconds.
   */
  lemma Backoff(prompt: string, maxRetries: int, post: (string, nat) -> Attempt)
    ensures var run := Summarize(prompt, maxRetries, post);
      && (forall j :: 0 <= j < |run.sleeps| ==> run.sleeps[j] == Pow2(j))
      && Sum(run.sleeps) + 1 == Pow2(|run.sleeps|)
      && (maxRetries == 3 ==> Sum(run.sleeps) <= 3)
  {
    var run := Summarize(prompt, maxRetries, post);
    RetryFromShape(TruncatePrompt(prompt), 0, maxRetries, post);
    SumOfPowers(0, run.sleeps);
    if maxRetries == 3 {
      assert |run.sleeps| <= 2;
      assert Pow2(2) == 4;
    }
  }
}
