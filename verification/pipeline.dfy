/** The deterministic part of `main`: settings, the header and section checks
    around every document the model produces, the check of the question
    battery, and the validate-and-repair rounds. The model's replies are the
    parameter `r`: the draft, the battery and, for round `i`, the oracle's and
    the evaluator's answers, the scorer's verdict and the restored document,
    each as the call returned it or with the failure the call raised. */
module Pipeline {
  import opened Results
  import opened Text
  import opened Json
  import opened Header
  import opened Sections
  import opened Dotenv
  import opened JsonBlock
  import Retry

  const DefaultModel: string := "anthropic/claude-opus-4.6"
  const BatterySize: nat := 10

  /** The command line (`model` is "" when `--model` is not given) and the two
      source documents as read. */
  datatype Config = Config(sourceA: string, sourceB: string, textA: string, textB: string,
                           model: string, maxRounds: int, decimal: (nat, nat) -> string)

  /** What a call `main` makes to the model raises: `call_openrouter` gave up,
      or `parse_json_block` could not decode the reply of `call_openrouter_json`. */
  datatype CallError = CallFailed(fault: Retry.Fault) | NotJson(error: DecodeError)

  /** The result of `call_openrouter`: the stripped text, or the fault it raised. */
  type TextReply = Result<string, Retry.Fault>

  /** The result of `call_openrouter_json`. */
  type JsonReply = Result<Value, CallError>

  /** What the model returns to each call `main` makes. */
  datatype Replies = Replies(draft: TextReply, battery: JsonReply,
                             oracle: nat -> JsonReply, evaluator: nat -> JsonReply,
                             score: nat -> JsonReply, restored: nat -> TextReply)

  /** What ends a run before anything is written. */
  datatype RunError =
    | EnvRefused(refused: EnvError)        // `load_dotenv` met a variable `os.environ` cannot hold
    | MissingApiKey                        // no usable `OPENROUTER_API_KEY`
    | CallRaised(failure: CallError)       // a model call raised
    | SectionsMissing(markers: seq<string>)
    | BatteryNotAnObject                   // `qa_data.get` on a non-dict
    | BatteryUnsized                       // `len` of a number, boolean or null
    | WrongQuestionCount(count: nat)
    | ScoreNotAnObject(round: nat)         // `score.get` on a non-dict

  /** One entry of the report's `rounds` list. */
  datatype Round = Round(index: nat, oracle: Value, evaluator: Value, score: Value)

  /** The state the rounds carry: the current document, the report so far and
      how many restorations were made. */
  datatype State = State(doc: string, rounds: seq<Round>, restorations: nat)

  /** A finished run: the model id, the document written and the report's rounds. */
  datatype Outcome = Outcome(model: string, doc: string, rounds: seq<Round>, restorations: nat)

  /** `call_openrouter_json`: the reply of `call_openrouter`, decoded by
      `parse_json_block`. A fault of the call is raised unchanged; a reply is
      decoded whole once stripped and unfenced, or else from its first `{` to
      its last `}`, and the error names the text that failed last. */
  function CallJson(call: TextReply, parse: string -> Option<Value>): (r: JsonReply)
    ensures call.Err? ==> r == Err(CallFailed(call.error))
    ensures call.Ok? && parse(Unfence(Strip(call.value))).Some? ==>
              r == Ok(parse(Unfence(Strip(call.value))).value)
    ensures call.Ok? && parse(Unfence(Strip(call.value))).None? && BraceSpan(Unfence(Strip(call.value))).None? ==>
              r == Err(NotJson(DecodeError(Unfence(Strip(call.value)))))
    ensures call.Ok? && parse(Unfence(Strip(call.value))).None? && BraceSpan(Unfence(Strip(call.value))).Some? ==>
              var text := Unfence(Strip(call.value));
              var (s, e) := BraceSpan(text).value;
              r == (if parse(text[s..e]).Some? then Ok(parse(text[s..e]).value)
                    else Err(NotJson(DecodeError(text[s..e]))))
  {
    if call.Err? then Err(CallFailed(call.error))
    else
      match ParseJsonBlock(call.value, parse)
      case Ok(v) => Ok(v)
      case Err(e) => Err(NotJson(e))
  }

  /** A JSON reply the model wraps in a fenced block decodes to the text inside
      the fences, whatever the number of attempts it took. */
  lemma FencedCallJson(trace: Retry.Trace, p: string, tag: string, w1: string, s: string, w2: string,
                       q: string, parse: string -> Option<Value>, v: Value)
    requires trace.result == Ok(p + (Fence + tag + w1 + s + w2 + Fence) + q)
    requires AllSpace(p) && AllSpace(q) && AllSpace(w1) && AllSpace(w2)
    requires tag == "json" || tag == []
    requires s != [] && !IsSpace(s[0]) && !IsSpace(s[|s| - 1])
    requires tag == [] ==> (w1 + s)[0] != 'j'
    requires parse(s) == Some(v)
    ensures CallJson(trace.result, parse) == Ok(v)
  {
    FencedRoundTrip(p, tag, w1, s, w2, q, parse, v);
  }

  /** `os.environ.get("OPENROUTER_API_KEY", "").strip()`, which must not be empty. */
  function ApiKey(env: map<string, string>): (r: Result<string, RunError>)
    ensures r.Ok? <==> "OPENROUTER_API_KEY" in env && Strip(env["OPENROUTER_API_KEY"]) != []
    ensures r.Ok? ==> r.value == Strip(env["OPENROUTER_API_KEY"])
  {
    var key := Strip(if "OPENROUTER_API_KEY" in env then env["OPENROUTER_API_KEY"] else []);
    if key == [] then Err(MissingApiKey) else Ok(key)
  }

  /** `args.model or os.environ.get("OPENROUTER_MODEL", DEFAULT_MODEL)`. */
  function ModelId(arg: string, env: map<string, string>): (m: string)
    ensures arg != [] ==> m == arg
    ensures arg == [] && "OPENROUTER_MODEL" !in env ==> m == DefaultModel
    ensures arg == [] && "OPENROUTER_MODEL" in env ==> m == env["OPENROUTER_MODEL"]
  {
    if arg != [] then arg
    else if "OPENROUTER_MODEL" in env then env["OPENROUTER_MODEL"]
    else DefaultModel
  }

  /** `source_label`. */
  function Label(c: Config): string {
    c.sourceA + " + " + c.sourceB
  }

  /** `original_words`. */
  function OriginalWords(c: Config): nat {
    WordCount(c.textA) + WordCount(c.textB)
  }

  function Reheader(c: Config, doc: string): string {
    EnsureHeaderAndRatio(doc, Label(c), OriginalWords(c), c.decimal)
  }

  /** `ensure_header_and_ratio` followed by `ensure_required_sections`: an
      accepted document starts with a header line whose ratio reads back as
      the sources' words over the document's words, and has every marker. */
  function Checked(c: Config, doc: string): (r: Result<string, RunError>)
    ensures r.Ok? <==> EnsureRequiredSections(Reheader(c, doc)).Pass?
    ensures r.Ok? ==> r.value == Reheader(c, doc)
    ensures r.Ok? ==> EnsureRequiredSections(r.value) == Pass && IsHeaderLine(FirstLine(r.value))
    ensures r.Ok? ==> ParseRatio(Label(c), r.value) == Some((OriginalWords(c), CompressedWords(doc)))
    ensures r.Err? ==> r.error == SectionsMissing(EnsureRequiredSections(Reheader(c, doc)).markers)
  {
    var d := Reheader(c, doc);
    match EnsureRequiredSections(d)
    case Pass => Ok(d)
    case Missing(ms) => Err(SectionsMissing(ms))
  }

  /** `questions = qa_data.get("questions", [])` and the check that it has ten entries. */
  function BatteryCheck(qa: Value): (r: Result<Value, RunError>)
    ensures r.Ok? <==> qa.Obj? && Len(Get(qa.fields, "questions", Arr([]))) == Some(BatterySize)
    ensures r.Ok? ==> "questions" in qa.fields && r.value == qa.fields["questions"]
    ensures !qa.Obj? ==> r == Err(BatteryNotAnObject)
    ensures qa.Obj? && "questions" !in qa.fields ==> r == Err(WrongQuestionCount(0))
    ensures r.Err? && qa.Obj? && Len(Get(qa.fields, "questions", Arr([]))).Some? ==>
              r.error == WrongQuestionCount(Len(Get(qa.fields, "questions", Arr([]))).value)
  {
    if !qa.Obj? then Err(BatteryNotAnObject)
    else
      var questions := Get(qa.fields, "questions", Arr([]));
      match Len(questions)
      case None => Err(BatteryUnsized)
      case Some(n) => if n != BatterySize then Err(WrongQuestionCount(n)) else Ok(questions)
  }

  /** `bool(score.get("pass", False))`, for a verdict that is a dict: a
      verdict passes only with a truthy `pass` entry. */
  predicate Passes(score: Value): (b: bool)
    ensures b <==> score.Obj? && "pass" in score.fields && Truthy(score.fields["pass"])
  {
    score.Obj? && Truthy(Get(score.fields, "pass", Bool(false)))
  }

  /** A verdict that is a dict and does not pass, a missing `pass` included. */
  predicate Fails(score: Value): (b: bool)
    ensures b <==> score.Obj? && !Passes(score)
  {
    score.Obj? && !Truthy(Get(score.fields, "pass", Bool(false)))
  }

  /** The three calls of round `i`, made in the order oracle, evaluator, scorer:
      the round's report entry exists only when all three returned, and
      otherwise the earliest failure is what the round raises. */
  function RoundAt(r: Replies, i: nat): (res: Result<Round, CallError>)
    ensures res.Ok? <==> r.oracle(i).Ok? && r.evaluator(i).Ok? && r.score(i).Ok?
    ensures res.Ok? ==> res.value.index == i && res.value.score == r.score(i).value
    ensures res.Ok? ==> res.value.oracle == r.oracle(i).value && res.value.evaluator == r.evaluator(i).value
    ensures r.oracle(i).Err? ==> res == Err(r.oracle(i).error)
    ensures r.oracle(i).Ok? && r.evaluator(i).Err? ==> res == Err(r.evaluator(i).error)
    ensures r.oracle(i).Ok? && r.evaluator(i).Ok? && r.score(i).Err? ==> res == Err(r.score(i).error)
  {
    if r.oracle(i).Err? then Err(r.oracle(i).error)
    else if r.evaluator(i).Err? then Err(r.evaluator(i).error)
    else if r.score(i).Err? then Err(r.score(i).error)
    else Ok(Round(i, r.oracle(i).value, r.evaluator(i).value, r.score(i).value))
  }

  /** What becomes of a document the model returns: the header step and the
      section check, or the error that ends the run. */
  type DocCheck = string -> Result<string, RunError>

  /** A document reply: the fault the call raised, or what `check` makes of its text. */
  function Accept(check: DocCheck, reply: TextReply): (r: Result<string, RunError>)
    ensures reply.Err? ==> r == Err(CallRaised(CallFailed(reply.error)))
    ensures reply.Ok? ==> r == check(reply.value)
  {
    if reply.Err? then Err(CallRaised(CallFailed(reply.error))) else check(reply.value)
  }

  /** The rounds `idx`, `idx + 1`, …, `maxRounds` of the `for` loop; `check`
      is applied to each restored document. */
  function Loop(maxRounds: int, check: DocCheck, r: Replies, idx: nat, st: State): (res: Result<State, RunError>)
    requires idx >= 1
    ensures res.Ok? ==> |st.rounds| <= |res.value.rounds|
    ensures res.Ok? ==> |res.value.rounds| - |st.rounds| <= (if idx <= maxRounds then maxRounds - idx + 1 else 0)
    ensures res.Ok? ==> res.value.rounds[..|st.rounds|] == st.rounds
    ensures res.Ok? ==> st.restorations <= res.value.restorations
    ensures res.Ok? ==> res.value.restorations - st.restorations <= |res.value.rounds| - |st.rounds|
    decreases if idx <= maxRounds then maxRounds - idx + 1 else 0
  {
    if idx > maxRounds then Ok(st)
    else
      var round := RoundAt(r, idx);
      if round.Err? then Err(CallRaised(round.error))
      else
        var score := round.value.score;
        var rounds := st.rounds + [round.value];
        if !score.Obj? then Err(ScoreNotAnObject(idx))
        else if Passes(score) then Ok(State(st.doc, rounds, st.restorations))
        else
          var restored := Accept(check, r.restored(idx));
          if restored.Err? then Err(restored.error)
          else Loop(maxRounds, check, r, idx + 1, State(restored.value, rounds, st.restorations + 1))
  }

  /** Everything `main` decides, from the environment to the final write, with
      `check` applied to every document the model returns. */
  function RunWith(c: Config, check: DocCheck, env: map<string, string>, dotenv: Option<string>,
                   r: Replies): (res: Result<Outcome, RunError>)
    ensures res.Ok? ==> exists d :: check(d) == Ok(res.value.doc)
    ensures res.Ok? ==> |res.value.rounds| <= (if c.maxRounds < 0 then 0 else c.maxRounds)
    ensures res.Ok? ==> res.value.restorations <= |res.value.rounds|
    ensures res.Ok? ==> LoadDotenv(dotenv, env).Ok? && ApiKey(LoadDotenv(dotenv, env).value).Ok?
    ensures LoadDotenv(dotenv, env).Err? ==> res == Err(EnvRefused(LoadDotenv(dotenv, env).error))
  {
    var loaded := LoadDotenv(dotenv, env);
    if loaded.Err? then Err(EnvRefused(loaded.error))
    else
      var env' := loaded.value;
      var key := ApiKey(env');
      if key.Err? then Err(key.error)
      else
        var draft := Accept(check, r.draft);
        if draft.Err? then Err(draft.error)
        else if r.battery.Err? then Err(CallRaised(r.battery.error))
        else
          var battery := BatteryCheck(r.battery.value);
          if battery.Err? then Err(battery.error)
          else
            var rounds := Loop(c.maxRounds, check, r, 1, State(draft.value, [], 0));
            if rounds.Err? then Err(rounds.error)
            else
              var final := check(rounds.value.doc);
              if final.Err? then Err(final.error)
              else Ok(Outcome(ModelId(c.model, env'), final.value, rounds.value.rounds,
                              rounds.value.restorations))
  }

  /** The check `main` applies to every document the model returns. */
  function MainCheck(c: Config): DocCheck {
    (d: string) => Checked(c, d)
  }

  /** `main`: what it writes has every section marker and starts with a
      header line. */
  function Run(c: Config, env: map<string, string>, dotenv: Option<string>, r: Replies): (res: Result<Outcome, RunError>)
    ensures res.Ok? ==> EnsureRequiredSections(res.value.doc) == Pass && IsHeaderLine(FirstLine(res.value.doc))
    ensures res.Ok? ==> |res.value.rounds| <= (if c.maxRounds < 0 then 0 else c.maxRounds)
  {
    var res := RunWith(c, MainCheck(c), env, dotenv, r);
    if res.Ok? then
      var d :| MainCheck(c)(d) == Ok(res.value.doc);
      assert Checked(c, d) == Ok(res.value.doc);
      res
    else res
  }

  /** The `for` loop with its `break`, as the script writes it; it computes Loop. */
  method ValidateAndRepair(maxRounds: int, check: DocCheck, r: Replies, doc: string)
    returns (res: Result<State, RunError>)
    ensures res == Loop(maxRounds, check, r, 1, State(doc, [], 0))
  {
    var st := State(doc, [], 0);
    var idx: nat := 1;
    while idx <= maxRounds
      invariant idx >= 1
      invariant Loop(maxRounds, check, r, 1, State(doc, [], 0)) == Loop(maxRounds, check, r, idx, st)
      decreases maxRounds - idx + 1
    {
      var round := RoundAt(r, idx);
      if round.Err? {
        return Err(CallRaised(round.error));
      }
      var score := round.value.score;
      var rounds := st.rounds + [round.value];
      if !score.Obj? {
        return Err(ScoreNotAnObject(idx));
      }
      if Passes(score) {
        return Ok(State(st.doc, rounds, st.restorations));
      }
      var restored := Accept(check, r.restored(idx));
      if restored.Err? {
        return Err(restored.error);
      }
      st := State(restored.value, rounds, st.restorations + 1);
      idx := idx + 1;
    }
    res := Ok(st);
  }

  /** Round `idx` is within the budget, its calls returned, its verdict
      failed and its restoration was accepted, so the loop goes on. */
  predicate Restores(maxRounds: int, check: DocCheck, r: Replies, idx: nat) {
    && idx <= maxRounds
    && RoundAt(r, idx).Ok?
    && Fails(RoundAt(r, idx).value.score)
    && Accept(check, r.restored(idx)).Ok?
  }

  /** The state the loop carries into round `idx + 1` after a restoration. */
  function Next(check: DocCheck, r: Replies, idx: nat, st: State): State
    requires RoundAt(r, idx).Ok? && Accept(check, r.restored(idx)).Ok?
  {
    State(Accept(check, r.restored(idx)).value, st.rounds + [RoundAt(r, idx).value], st.restorations + 1)
  }

  /** One round of the loop: it either goes on with the next state, or stops
      with an error, with the state unchanged past the budget, or after a
      passing round. */
  lemma LoopStep(maxRounds: int, check: DocCheck, r: Replies, idx: nat, st: State)
    requires idx >= 1
    ensures Restores(maxRounds, check, r, idx) ==>
              Loop(maxRounds, check, r, idx, st) == Loop(maxRounds, check, r, idx + 1, Next(check, r, idx, st))
  {
  }

  /** When the loop does not go on from round `idx`, a successful result is
      the state as it was past the budget, or with one more, passing, round. */
  lemma LoopStops(maxRounds: int, check: DocCheck, r: Replies, idx: nat, st: State)
    requires idx >= 1
    requires !Restores(maxRounds, check, r, idx)
    ensures var res := Loop(maxRounds, check, r, idx, st);
            res.Ok? ==>
              if idx > maxRounds then res.value == st
              else && RoundAt(r, idx).Ok? && Passes(RoundAt(r, idx).value.score)
                   && res.value == State(st.doc, st.rounds + [RoundAt(r, idx).value], st.restorations)
  {
  }

  /** The rounds from `idx` on, appended to a state that holds rounds 1 … idx - 1,
      are consecutive numbered rounds whose three calls all returned, at most
      up to the budget. */
  lemma {:induction false} LoopRoundsReported(maxRounds: int, check: DocCheck, r: Replies, idx: nat, st: State)
    requires idx >= 1 && |st.rounds| == idx - 1
    requires forall k :: 0 <= k < |st.rounds| ==> RoundAt(r, k + 1) == Ok(st.rounds[k])
    ensures var res := Loop(maxRounds, check, r, idx, st);
            res.Ok? ==>
              var out := res.value.rounds;
              var n := |out|;
              && idx - 1 <= n && (n == idx - 1 || n <= maxRounds)
              && (n == idx - 1 <==> idx > maxRounds)
              && (forall k :: 0 <= k < n ==> RoundAt(r, k + 1) == Ok(out[k]))
    decreases if idx <= maxRounds then maxRounds - idx + 1 else 0
  {
    if Restores(maxRounds, check, r, idx) {
      var next := Next(check, r, idx, st);
      assert forall k :: 0 <= k < |next.rounds| ==> RoundAt(r, k + 1) == Ok(next.rounds[k]);
      LoopRoundsReported(maxRounds, check, r, idx + 1, next);
      LoopStep(maxRounds, check, r, idx, st);
    } else {
      LoopStops(maxRounds, check, r, idx, st);
    }
  }

  /** Of the rounds from `idx` on, every one before the last failed, and the
      last passed unless the budget ran out. */
  lemma {:induction false} LoopRoundsVerdicts(maxRounds: int, check: DocCheck, r: Replies, idx: nat, st: State)
    requires idx >= 1 && |st.rounds| == idx - 1
    ensures var res := Loop(maxRounds, check, r, idx, st);
            res.Ok? ==>
              var out := res.value.rounds;
              var n := |out|;
              && (forall k :: idx - 1 <= k < n - 1 ==> Fails(out[k].score))
              && (n >= idx ==> Passes(out[n - 1].score) || (Fails(out[n - 1].score) && n == maxRounds))
    decreases if idx <= maxRounds then maxRounds - idx + 1 else 0
  {
    if Restores(maxRounds, check, r, idx) {
      var next := Next(check, r, idx, st);
      LoopRoundsVerdicts(maxRounds, check, r, idx + 1, next);
      LoopStep(maxRounds, check, r, idx, st);
      var res := Loop(maxRounds, check, r, idx + 1, next);
      if res.Ok? {
        assert res.value.rounds[idx - 1] == next.rounds[idx - 1] == RoundAt(r, idx).value;
      }
    } else {
      LoopStops(maxRounds, check, r, idx, st);
    }
  }

  /** The rounds from `idx` on, appended to a state that holds rounds 1 … idx - 1:
      consecutive numbered rounds whose three calls all returned, at most up
      to the budget, stopping right after the first pass. */
  lemma LoopRounds(maxRounds: int, check: DocCheck, r: Replies, idx: nat, st: State)
    requires idx >= 1 && |st.rounds| == idx - 1
    requires forall k :: 0 <= k < |st.rounds| ==> RoundAt(r, k + 1) == Ok(st.rounds[k])
    ensures var res := Loop(maxRounds, check, r, idx, st);
            res.Ok? ==>
              var out := res.value.rounds;
              var n := |out|;
              && idx - 1 <= n && (n == idx - 1 || n <= maxRounds)
              && (n == idx - 1 <==> idx > maxRounds)
              && (forall k :: 0 <= k < n ==> RoundAt(r, k + 1) == Ok(out[k]))
              && (forall k :: idx - 1 <= k < n - 1 ==> Fails(out[k].score))
              && (n >= idx ==> Passes(out[n - 1].score) || (Fails(out[n - 1].score) && n == maxRounds))
  {
    LoopRoundsReported(maxRounds, check, r, idx, st);
    LoopRoundsVerdicts(maxRounds, check, r, idx, st);
  }

  /** One restoration, accepted by `check`, after every failing round from `idx`
      on, the last one included. */
  lemma {:induction false} LoopRestorationCount(maxRounds: int, check: DocCheck, r: Replies, idx: nat, st: State)
    requires idx >= 1 && |st.rounds| == idx - 1
    ensures var res := Loop(maxRounds, check, r, idx, st);
            res.Ok? ==>
              var out := res.value;
              var n := |out.rounds|;
              var d := out.restorations - st.restorations;
              && idx - 1 <= n
              && d == (n - (idx - 1)) - (if n >= idx && Passes(out.rounds[n - 1].score) then 1 else 0)
              && (forall i :: idx <= i < idx + d ==> Accept(check, r.restored(i)).Ok?)
    decreases if idx <= maxRounds then maxRounds - idx + 1 else 0
  {
    if Restores(maxRounds, check, r, idx) {
      var next := Next(check, r, idx, st);
      LoopRestorationCount(maxRounds, check, r, idx + 1, next);
      LoopStep(maxRounds, check, r, idx, st);
    } else {
      LoopStops(maxRounds, check, r, idx, st);
    }
  }

  /** The document after the rounds from `idx` on is the last restoration's,
      or the one the loop started with when nothing was restored. */
  lemma {:induction false} LoopRestorationDoc(maxRounds: int, check: DocCheck, r: Replies, idx: nat, st: State)
    requires idx >= 1
    ensures var res := Loop(maxRounds, check, r, idx, st);
            res.Ok? ==>
              var out := res.value;
              var d := out.restorations - st.restorations;
              && (d == 0 ==> out.doc == st.doc)
              && (d > 0 ==> Accept(check, r.restored(idx + d - 1)).Ok? &&
                            out.doc == Accept(check, r.restored(idx + d - 1)).value)
    decreases if idx <= maxRounds then maxRounds - idx + 1 else 0
  {
    if Restores(maxRounds, check, r, idx) {
      var next := Next(check, r, idx, st);
      LoopRestorationDoc(maxRounds, check, r, idx + 1, next);
      LoopStep(maxRounds, check, r, idx, st);
    } else {
      LoopStops(maxRounds, check, r, idx, st);
    }
  }

  /** One restoration, accepted by `check`, after every failing round from `idx`
      on, the last one included; the document is the last restoration's. */
  lemma LoopRestorations(maxRounds: int, check: DocCheck, r: Replies, idx: nat, st: State)
    requires idx >= 1 && |st.rounds| == idx - 1
    ensures var res := Loop(maxRounds, check, r, idx, st);
            res.Ok? ==>
              var out := res.value;
              var n := |out.rounds|;
              var d := out.restorations - st.restorations;
              && idx - 1 <= n
              && (forall k :: 0 <= k < idx - 1 ==> out.rounds[k] == st.rounds[k])
              && d == (n - (idx - 1)) - (if n >= idx && Passes(out.rounds[n - 1].score) then 1 else 0)
              && (forall i :: idx <= i < idx + d ==> Accept(check, r.restored(i)).Ok?)
              && (d == 0 ==> out.doc == st.doc)
              && (d > 0 ==> Accept(check, r.restored(idx + d - 1)).Ok? &&
                            out.doc == Accept(check, r.restored(idx + d - 1)).value)
  {
    LoopRestorationCount(maxRounds, check, r, idx, st);
    LoopRestorationDoc(maxRounds, check, r, idx, st);
  }

  /** The document reply a successful run last accepted before the final
      check: the latest restoration, or the draft if there was none. */
  function Latest(r: Replies, restorations: nat): TextReply {
    if restorations == 0 then r.draft else r.restored(restorations)
  }

  /** The loop started as `main` starts it, from the checked draft. */
  lemma LoopFromDraft(maxRounds: int, check: DocCheck, r: Replies, doc: string)
    ensures var res := Loop(maxRounds, check, r, 1, State(doc, [], 0));
            res.Ok? ==>
              var out := res.value;
              var n := |out.rounds|;
              && n <= (if maxRounds < 0 then 0 else maxRounds)
              && (n == 0 <==> maxRounds < 1)
              && (forall k :: 0 <= k < n ==> RoundAt(r, k + 1) == Ok(out.rounds[k]))
              && (forall k :: 0 <= k < n - 1 ==> Fails(out.rounds[k].score))
              && (n > 0 ==> Passes(out.rounds[n - 1].score) || (Fails(out.rounds[n - 1].score) && n == maxRounds))
              && out.restorations == n - (if n > 0 && Passes(out.rounds[n - 1].score) then 1 else 0)
              && (forall i :: 1 <= i <= out.restorations ==> Accept(check, r.restored(i)).Ok?)
              && (out.restorations == 0 ==> out.doc == doc)
              && (out.restorations > 0 ==> out.doc == Accept(check, r.restored(out.restorations)).value)
  {
    LoopRounds(maxRounds, check, r, 1, State(doc, [], 0));
    LoopRestorations(maxRounds, check, r, 1, State(doc, [], 0));
  }

  /** A successful run got past every gate, and its outcome is the loop's with
      the final document checked once more. */
  lemma RunGates(c: Config, check: DocCheck, env: map<string, string>, dotenv: Option<string>, r: Replies)
    ensures var res := RunWith(c, check, env, dotenv, r);
            res.Ok? ==>
              && LoadDotenv(dotenv, env).Ok?
              && ApiKey(LoadDotenv(dotenv, env).value).Ok?
              && Accept(check, r.draft).Ok?
              && r.battery.Ok? && BatteryCheck(r.battery.value).Ok?
              && var loop := Loop(c.maxRounds, check, r, 1, State(Accept(check, r.draft).value, [], 0));
                 && loop.Ok?
                 && check(loop.value.doc).Ok?
                 && res.value == Outcome(ModelId(c.model, LoadDotenv(dotenv, env).value), check(loop.value.doc).value,
                                         loop.value.rounds, loop.value.restorations)
  {
  }

  /** What a successful run promises: at most `max_rounds` rounds numbered from 1
      in order, none before the last one passing, the last one passing unless
      the budget ran out; a restoration after each failing round, the last one
      included, each accepted by the check; and the document written is the
      latest one checked once more. */
  lemma RunFacts(c: Config, check: DocCheck, env: map<string, string>, dotenv: Option<string>, r: Replies)
    ensures var res := RunWith(c, check, env, dotenv, r);
            res.Ok? ==>
              var out := res.value;
              var n := |out.rounds|;
              && n <= (if c.maxRounds < 0 then 0 else c.maxRounds)
              && (n == 0 <==> c.maxRounds < 1)
              && (forall k :: 0 <= k < n ==> RoundAt(r, k + 1) == Ok(out.rounds[k]))
              && (forall k :: 0 <= k < n - 1 ==> Fails(out.rounds[k].score))
              && (n > 0 ==> Passes(out.rounds[n - 1].score) || (Fails(out.rounds[n - 1].score) && n == c.maxRounds))
              && out.restorations == n - (if n > 0 && Passes(out.rounds[n - 1].score) then 1 else 0)
              && (forall i :: 1 <= i <= out.restorations ==> Accept(check, r.restored(i)).Ok?)
              && Accept(check, Latest(r, out.restorations)).Ok?
              && check(Accept(check, Latest(r, out.restorations)).value).Ok?
              && out.doc == check(Accept(check, Latest(r, out.restorations)).value).value
              && r.battery.Ok? && BatteryCheck(r.battery.value).Ok?
  {
    var res := RunWith(c, check, env, dotenv, r);
    if res.Ok? {
      RunGates(c, check, env, dotenv, r);
      var draft := Accept(check, r.draft).value;
      LoopFromDraft(c.maxRounds, check, r, draft);
      var loop := Loop(c.maxRounds, check, r, 1, State(draft, [], 0)).value;
      assert loop.restorations == res.value.restorations;
      if loop.restorations > 0 {
        assert Accept(check, r.restored(loop.restorations)).Ok?;
      }
    }
  }

  /** What `main` writes has every section marker and, as its first line, a
      header whose ratio numerator is `word_count(src_a) + word_count(src_b)`;
      it is the latest accepted document re-headed twice over. */
  lemma WrittenDocument(c: Config, env: map<string, string>, dotenv: Option<string>, r: Replies)
    ensures var res := Run(c, env, dotenv, r);
            res.Ok? ==>
              && Latest(r, res.value.restorations).Ok?
              && var prev := Reheader(c, Latest(r, res.value.restorations).value);
                 && res.value.doc == Reheader(c, prev)
                 && EnsureRequiredSections(res.value.doc) == Pass
                 && IsHeaderLine(FirstLine(res.value.doc))
                 && ParseRatio(Label(c), res.value.doc) == Some((OriginalWords(c), CompressedWords(prev)))
                 && OriginalWords(c) == WordCount(c.textA) + WordCount(c.textB)
  {
    var res := Run(c, env, dotenv, r);
    if res.Ok? {
      RunFacts(c, MainCheck(c), env, dotenv, r);
      var latest := Latest(r, res.value.restorations);
      assert latest.Ok?;
      assert MainCheck(c)(latest.value) == Checked(c, latest.value);
      assert MainCheck(c)(Reheader(c, latest.value)) == Checked(c, Reheader(c, latest.value));
    }
  }

  /** Once the environment and key are settled, a draft call that raises ends
      the run with that fault. */
  lemma DraftFaultEndsRun(c: Config, check: DocCheck, env: map<string, string>, dotenv: Option<string>, r: Replies)
    requires LoadDotenv(dotenv, env).Ok? && ApiKey(LoadDotenv(dotenv, env).value).Ok?
    requires r.draft.Err?
    ensures RunWith(c, check, env, dotenv, r) == Err(CallRaised(CallFailed(r.draft.error)))
  {
  }

  /** The run aborts before any round unless the battery call returns an object
      with exactly ten questions. Once the environment, the key and the draft
      are settled, the run ends with the battery's own fault: the exception the
      call raised, or the verdict of the battery check. */
  lemma BatteryGate(c: Config, check: DocCheck, env: map<string, string>, dotenv: Option<string>, r: Replies)
    requires r.battery.Err? || !r.battery.value.Obj? ||
             Len(Get(r.battery.value.fields, "questions", Arr([]))) != Some(BatterySize)
    ensures var res := RunWith(c, check, env, dotenv, r);
            && res.Err?
            && (res.error.EnvRefused? || res.error.MissingApiKey? || res.error.CallRaised?
                || res.error.SectionsMissing? || res.error.BatteryNotAnObject?
                || res.error.BatteryUnsized? || res.error.WrongQuestionCount?
                || (Accept(check, r.draft).Err? && res.error == Accept(check, r.draft).error))
    ensures LoadDotenv(dotenv, env).Ok? && ApiKey(LoadDotenv(dotenv, env).value).Ok? &&
            Accept(check, r.draft).Ok? ==>
              RunWith(c, check, env, dotenv, r) ==
              Err(if r.battery.Err? then CallRaised(r.battery.error) else BatteryCheck(r.battery.value).error)
  {
  }

  /** A call of round `idx` that raises ends the run with the earliest failure
      of that round, in the order oracle, evaluator, scorer, before the round
      is reported. */
  lemma RoundCallFails(maxRounds: int, check: DocCheck, r: Replies, st: State, idx: nat)
    requires 1 <= idx <= maxRounds
    requires r.oracle(idx).Err? || r.evaluator(idx).Err? || r.score(idx).Err?
    ensures Loop(maxRounds, check, r, idx, st) ==
              Err(CallRaised(if r.oracle(idx).Err? then r.oracle(idx).error
                             else if r.evaluator(idx).Err? then r.evaluator(idx).error
                             else r.score(idx).error))
  {
  }

  /** A restored document that fails its check, or whose call raised, ends the
      run with that error: no document is written. */
  lemma RestorationMustPass(maxRounds: int, check: DocCheck, r: Replies, st: State, idx: nat)
    requires 1 <= idx <= maxRounds
    requires RoundAt(r, idx).Ok? && Fails(RoundAt(r, idx).value.score)
    requires Accept(check, r.restored(idx)).Err?
    ensures Loop(maxRounds, check, r, idx, st) == Err(Accept(check, r.restored(idx)).error)
  {
  }

  /** A passing first round ends the loop at once, with no restoration. */
  lemma FirstRoundPasses(maxRounds: int, check: DocCheck, r: Replies, doc: string)
    requires maxRounds >= 1 && RoundAt(r, 1).Ok? && Passes(RoundAt(r, 1).value.score)
    ensures Loop(maxRounds, check, r, 1, State(doc, [], 0)) == Ok(State(doc, [RoundAt(r, 1).value], 0))
  {
    assert [] + [RoundAt(r, 1).value] == [RoundAt(r, 1).value];
  }

  /** With the default budget of two and two failing rounds, the loop restores
      twice, after the last round as well, and keeps the second restoration. */
  lemma TwoFailingRounds(check: DocCheck, r: Replies, doc: string)
    requires RoundAt(r, 1).Ok? && Fails(RoundAt(r, 1).value.score)
    requires RoundAt(r, 2).Ok? && Fails(RoundAt(r, 2).value.score)
    requires Accept(check, r.restored(1)).Ok? && Accept(check, r.restored(2)).Ok?
    ensures Loop(2, check, r, 1, State(doc, [], 0)) ==
              Ok(State(Accept(check, r.restored(2)).value, [RoundAt(r, 1).value, RoundAt(r, 2).value], 2))
  {
    var r1 := RoundAt(r, 1).value;
    var s1 := State(Accept(check, r.restored(1)).value, [r1], 1);
    assert [] + [r1] == [r1];
    assert Loop(2, check, r, 1, State(doc, [], 0)) == Loop(2, check, r, 2, s1);
    assert [r1] + [RoundAt(r, 2).value] == [r1, RoundAt(r, 2).value];
  }

  /** A verdict that is not a dict fails the run in that round. */
  lemma NonObjectVerdict(maxRounds: int, check: DocCheck, r: Replies, st: State, idx: nat)
    requires 1 <= idx <= maxRounds
    requires r.oracle(idx).Ok? && r.evaluator(idx).Ok? && r.score(idx).Ok? && !r.score(idx).value.Obj?
    ensures Loop(maxRounds, check, r, idx, st) == Err(ScoreNotAnObject(idx))
  {
  }

  /** A verdict without a `pass` key counts as failing. */
  lemma MissingPassFails(score: Value)
    requires score.Obj? && "pass" !in score.fields
    ensures Fails(score) && !Passes(score)
  {
  }
}
