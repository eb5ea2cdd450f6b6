/** The retry loop of `call_openrouter`. Each HTTP attempt is an abstract
    outcome supplied by `outcome(attempt)`; sleeping is recorded as the list of
    durations slept, in seconds. */
module Retry {
  import opened Results
  import opened Text
  import opened Json
  import opened Message

  /** What one POST to the chat-completions endpoint produced. */
  datatype Attempt =
    | Delivered(data: Value)                  // a body that decoded as JSON
    | HttpFailure(code: int, detail: string)  // `urllib.error.HTTPError`
    | HttpUnreadable(code: int, reason: string)  // an HTTPError whose `exc.read()` itself raised
    | Failure(reason: string)                 // any other exception before a body was decoded

  /** Why an attempt raised something other than an HTTP error. */
  datatype Cause =
    | Transport(reason: string)   // connection, timeout, decoding of the body
    | MalformedResponse           // the `choices[0].message.content` lookup failed
    | NonStringText(index: nat)   // `"".join` met a non-string part

  /** What `call_openrouter` raises once it gives up. */
  datatype Fault =
    | HttpFatal(code: int, detail: string)  // `RuntimeError("OpenRouter HTTP …")`
    | Reraised(cause: Cause)                // an attempt's own exception, let through
    | UnreachableRetryState                 // `retries < 1`: the loop never ran

  /** The result of one attempt: the stripped reply text, what it raised, or an
      exception raised inside the `HTTPError` handler itself, which no `except`
      clause catches. */
  datatype Step =
    | Text(text: string)
    | Http(code: int, detail: string)
    | Other(cause: Cause)
    | Escaped(cause: Cause)

  /** A failed attempt after which the loop sleeps and tries again, unless it
      was the last. */
  predicate Retryable(s: Step) {
    s.Http? || s.Other?
  }

  function AttemptStep(a: Attempt, show: Value -> string): (r: Step)
    ensures a.HttpFailure? <==> r.Http?
    ensures a.HttpFailure? ==> r == Http(a.code, a.detail)
    ensures a.HttpUnreadable? <==> r.Escaped?
    ensures a.HttpUnreadable? ==> r == Escaped(Transport(a.reason))
    ensures a.Failure? ==> r == Other(Transport(a.reason))
    ensures a.Delivered? && ResponseContent(a.data).None? ==> r == Other(MalformedResponse)
    ensures r.Text? <==>
              a.Delivered? && ResponseContent(a.data).Some? &&
              ExtractMessageText(ResponseContent(a.data).value, show).Ok?
    ensures r.Text? ==> r.text == Strip(ExtractMessageText(ResponseContent(a.data).value, show).value)
    ensures a.Delivered? && ResponseContent(a.data).Some? &&
            ExtractMessageText(ResponseContent(a.data).value, show).Err? ==>
              r == Other(NonStringText(ExtractMessageText(ResponseContent(a.data).value, show).error.index))
  {
    match a
    case HttpFailure(code, detail) => Http(code, detail)
    case HttpUnreadable(_, reason) => Escaped(Transport(reason))
    case Failure(reason) => Other(Transport(reason))
    case Delivered(data) =>
      match ResponseContent(data)
      case None => Other(MalformedResponse)
      case Some(content) =>
        match ExtractMessageText(content, show)
        case Ok(s) => Text(Strip(s))
        case Err(e) => Other(NonStringText(e.index))
  }

  /** The exception a failed step raises when it is the last attempt. */
  function FaultOf(s: Step): Fault
    requires !s.Text?
  {
    match s
    case Http(code, detail) => HttpFatal(code, detail)
    case Other(cause) => Reraised(cause)
    case Escaped(cause) => Reraised(cause)
  }

  /** The outcome of the whole call: the result, how many attempts were made and
      what was slept between them. */
  datatype Trace = Trace(result: Result<string, Fault>, attempts: nat, sleeps: seq<nat>)

  /** Attempts `attempt`, `attempt + 1`, …, `retries`, where `step(k)` is what
      attempt `k` comes to. */
  function RetryFrom(attempt: nat, retries: nat, step: nat -> Step): (t: Trace)
    requires 1 <= attempt <= retries
    ensures attempt <= t.attempts <= retries
    ensures |t.sleeps| == t.attempts - attempt
    ensures forall k :: 0 <= k < |t.sleeps| ==> t.sleeps[k] == 2 * (attempt + k)
    ensures forall k :: attempt <= k < t.attempts ==> Retryable(step(k))
    ensures t.result.Ok? <==> step(t.attempts).Text?
    ensures t.result.Ok? ==> t.result.value == step(t.attempts).text
    ensures t.result.Err? ==> (t.attempts == retries || step(t.attempts).Escaped?)
    ensures t.result.Err? ==> t.result.error == FaultOf(step(t.attempts))
    decreases retries - attempt
  {
    var s := step(attempt);
    if s.Text? then Trace(Ok(s.text), attempt, [])
    else if s.Escaped? || attempt == retries then Trace(Err(FaultOf(s)), attempt, [])
    else
      var rest := RetryFrom(attempt + 1, retries, step);
      Trace(rest.result, rest.attempts, [2 * attempt] + rest.sleeps)
  }

  /** The retry loop over abstract per-attempt results. */
  function Retries(retries: int, step: nat -> Step): (t: Trace)
    ensures retries < 1 ==> t == Trace(Err(UnreachableRetryState), 0, [])
    ensures retries >= 1 ==> 1 <= t.attempts <= retries && |t.sleeps| == t.attempts - 1
    ensures retries >= 1 && t.result.Err? ==> t.attempts == retries || step(t.attempts).Escaped?
  {
    if retries < 1 then Trace(Err(UnreachableRetryState), 0, []) else RetryFrom(1, retries, step)
  }

  /** `call_openrouter(…, retries=retries)`: the text of the first attempt that
      delivers a readable reply, unless an earlier attempt's failure ends the
      call; a call that fails has made all its attempts or met an unreadable
      HTTP error. */
  function CallOpenRouter(retries: int, outcome: nat -> Attempt, show: Value -> string): (t: Trace)
    ensures retries < 1 ==> t.result == Err(UnreachableRetryState) && t.attempts == 0
    ensures retries >= 1 ==> 1 <= t.attempts <= retries && |t.sleeps| == t.attempts - 1
    ensures retries >= 1 ==>
              forall k :: 1 <= k < t.attempts ==> Retryable(AttemptStep(outcome(k), show))
    ensures retries >= 1 ==> (t.result.Ok? <==> AttemptStep(outcome(t.attempts), show).Text?)
    ensures t.result.Ok? ==>
              var a := outcome(t.attempts);
              && a.Delivered? && ResponseContent(a.data).Some?
              && ExtractMessageText(ResponseContent(a.data).value, show).Ok?
              && t.result.value == Strip(ExtractMessageText(ResponseContent(a.data).value, show).value)
    ensures retries >= 1 && t.result.Err? ==>
              && (t.attempts == retries || outcome(t.attempts).HttpUnreadable?)
              && t.result.error == FaultOf(AttemptStep(outcome(t.attempts), show))
  {
    var step := Steps(outcome, show);
    if retries < 1 then Retries(retries, step)
    else
      var t := RetryFrom(1, retries, step);
      assert forall k :: 1 <= k < t.attempts ==> Retryable(step(k));
      assert t.result.Ok? ==> step(t.attempts).Text?;
      t
  }

  /** What each attempt comes to. */
  function Steps(outcome: nat -> Attempt, show: Value -> string): (step: nat -> Step)
    ensures forall k: nat :: step(k) == AttemptStep(outcome(k), show)
  {
    (k: nat) => AttemptStep(outcome(k), show)
  }

  /** The loop as the script writes it; it computes the same trace. */
  method RetryLoop(retries: int, step: nat -> Step)
    returns (result: Result<string, Fault>, attempts: nat, sleeps: seq<nat>)
    ensures Trace(result, attempts, sleeps) == Retries(retries, step)
  {
    sleeps := [];
    attempts := 0;
    var attempt: nat := 1;
    while attempt <= retries
      invariant 1 <= attempt
      invariant retries < 1 ==> attempt == 1
      invariant retries >= 1 ==> attempt <= retries
      invariant |sleeps| == attempt - 1 && attempts == attempt - 1
      invariant retries >= 1 ==>
                  var rest := RetryFrom(attempt, retries, step);
                  Retries(retries, step) == Trace(rest.result, rest.attempts, sleeps + rest.sleeps)
      decreases retries - attempt
    {
      attempts := attempt;
      var s := step(attempt);
      if s.Text? {
        result := Ok(s.text);
        assert RetryFrom(attempt, retries, step) == Trace(Ok(s.text), attempt, []);
        assert sleeps + [] == sleeps;
        return;
      }
      if s.Escaped? || attempt == retries {
        result := Err(FaultOf(s));
        assert RetryFrom(attempt, retries, step) == Trace(Err(FaultOf(s)), attempt, []);
        assert sleeps + [] == sleeps;
        return;
      }
      var rest := RetryFrom(attempt + 1, retries, step);
      assert RetryFrom(attempt, retries, step) == Trace(rest.result, rest.attempts, [2 * attempt] + rest.sleeps);
      assert sleeps + ([2 * attempt] + rest.sleeps) == (sleeps + [2 * attempt]) + rest.sleeps;
      sleeps := sleeps + [2 * attempt];
      attempt := attempt + 1;
    }
    result := Err(UnreachableRetryState);
  }

  /** Attempt `k` succeeds and every attempt from `attempt` before it failed
      in a way the loop retries. */
  predicate FirstSuccessAt(attempt: nat, k: nat, step: nat -> Step) {
    step(k).Text? && forall j :: attempt <= j < k ==> Retryable(step(j))
  }

  /** The call succeeds exactly when one of the first `retries` attempts does
      with no escaped failure before it, and then with that attempt's text. */
  lemma {:induction false} SucceedsIffSomeAttempt(attempt: nat, retries: nat, step: nat -> Step)
    requires 1 <= attempt <= retries
    ensures RetryFrom(attempt, retries, step).result.Ok? <==>
              exists k :: attempt <= k <= retries && FirstSuccessAt(attempt, k, step)
    ensures forall k :: attempt <= k <= retries && FirstSuccessAt(attempt, k, step) ==>
              RetryFrom(attempt, retries, step).result == Ok(step(k).text)
    decreases retries - attempt
  {
    var s := step(attempt);
    if s.Text? {
      assert FirstSuccessAt(attempt, attempt, step);
      forall k | attempt <= k <= retries && FirstSuccessAt(attempt, k, step)
        ensures k == attempt
      {
      }
    } else if s.Escaped? || attempt == retries {
      forall k | attempt <= k <= retries
        ensures !FirstSuccessAt(attempt, k, step)
      {
        if k > attempt {
          assert !Retryable(step(attempt)) || attempt == retries;
        }
      }
    } else {
      SucceedsIffSomeAttempt(attempt + 1, retries, step);
      forall k | attempt <= k <= retries
        ensures FirstSuccessAt(attempt, k, step) <==> k > attempt && FirstSuccessAt(attempt + 1, k, step)
      {
      }
      if exists k :: attempt <= k <= retries && FirstSuccessAt(attempt, k, step) {
        var k :| attempt <= k <= retries && FirstSuccessAt(attempt, k, step);
        assert attempt + 1 <= k && FirstSuccessAt(attempt + 1, k, step);
      }
      if RetryFrom(attempt + 1, retries, step).result.Ok? {
        var k :| attempt + 1 <= k <= retries && FirstSuccessAt(attempt + 1, k, step);
        assert FirstSuccessAt(attempt, k, step);
      }
    }
  }

  function Sum(xs: seq<nat>): nat
    decreases |xs|
  {
    if xs == [] then 0 else xs[0] + Sum(xs[1..])
  }

  /** When every attempt fails, all `retries` are made and the call sleeps
      2 + 4 + … + 2(retries - 1) = retries(retries - 1) seconds in all. */
  lemma {:induction false} AllFailTotalSleep(attempt: nat, retries: nat, step: nat -> Step)
    requires 1 <= attempt <= retries
    requires forall k :: attempt <= k <= retries ==> Retryable(step(k))
    ensures var t := RetryFrom(attempt, retries, step);
            && t.attempts == retries && t.result.Err?
            && Sum(t.sleeps) == retries * (retries - 1) - attempt * (attempt - 1)
    decreases retries - attempt
  {
    if attempt < retries {
      var rest := RetryFrom(attempt + 1, retries, step);
      AllFailTotalSleep(attempt + 1, retries, step);
      var t := RetryFrom(attempt, retries, step);
      assert t.sleeps == [2 * attempt] + rest.sleeps;
      assert Sum(t.sleeps) == 2 * attempt + Sum(rest.sleeps) by {
        assert t.sleeps[1..] == rest.sleeps;
      }
      assert 2 * attempt + (retries * (retries - 1) - (attempt + 1) * attempt)
             == retries * (retries - 1) - attempt * (attempt - 1) by {
        assert (attempt + 1) * attempt == attempt * (attempt - 1) + 2 * attempt;
      }
    }
  }

  /** A response whose text is a plain string yields that string, stripped. */
  lemma DeliveredString(s: string, show: Value -> string)
    ensures AttemptStep(Delivered(Obj(map["choices" := Arr([Obj(map["message" :=
              Obj(map["content" := Str(s)])])])])), show) == Text(Strip(s))
  {
    var message := Obj(map["content" := Str(s)]);
    var choice := Obj(map["message" := message]);
    var data := Obj(map["choices" := Arr([choice])]);
    assert ResponseContent(data) == Some(Str(s));
  }

  /** Two failures and then a success: three attempts, sleeping 2 s and 4 s. */
  lemma FailFailSucceed(outcome: nat -> Attempt, show: Value -> string, text: string)
    requires outcome(1).Failure? && outcome(2).HttpFailure?
    requires AttemptStep(outcome(3), show) == Text(text)
    ensures CallOpenRouter(3, outcome, show) == Trace(Ok(text), 3, [2, 4])
  {
    var step := Steps(outcome, show);
    assert Retryable(step(1)) && Retryable(step(2)) && step(3) == Text(text);
    assert RetryFrom(3, 3, step) == Trace(Ok(text), 3, []);
    assert RetryFrom(2, 3, step) == Trace(Ok(text), 3, [4]);
  }

  /** An HTTP error whose body cannot be read ends the call in that attempt,
      whatever budget is left, and nothing is slept. */
  lemma UnreadableHttpEndsCall(retries: int, outcome: nat -> Attempt, show: Value -> string)
    requires retries >= 1 && outcome(1).HttpUnreadable?
    ensures CallOpenRouter(retries, outcome, show) ==
              Trace(Err(Reraised(Transport(outcome(1).reason))), 1, [])
  {
  }

  /** With a single retry budget an HTTP error is fatal at once and nothing is slept. */
  lemma SingleAttemptHttp(outcome: nat -> Attempt, show: Value -> string)
    requires outcome(1).HttpFailure?
    ensures CallOpenRouter(1, outcome, show) ==
              Trace(Err(HttpFatal(outcome(1).code, outcome(1).detail)), 1, [])
  {
  }
}
