# LAPC OpenRouter runner — a Dafny model of its deterministic core

The script `scripts/lapc_openrouter_opus46.py` builds an LAPC
(layered compression) version of two source documents with a chat model
reached through OpenRouter. It asks for a compressed draft. It stamps the
draft with an `[LAPC v1 | source: … | ratio: …]` header whose ratio is a
word-count proxy. It insists on four section markers. It then runs up to
`--max-rounds` validation rounds: oracle answers, source-blind evaluator
answers and a scorer verdict. Every failing verdict triggers a targeted
restoration of the document. Finally it writes the result.

This project models everything in that script that does not depend on the
network or on what the model writes:

- `Text`: `str.split()`, `str.strip()`, `splitlines()` and `"\n".join`, with
  `word_count` on top of them. `Find` and `FindLast` give the first and the
  last position of a character. They stand in for the `"=" in line` test and
  `split("=", 1)` in `load_dotenv` (lines 37 and 39), for `lines[0]` in
  `ensure_header_and_ratio` (line 152), and for the two ends of the greedy
  `\{.*\}` match in `parse_json_block` (line 122).
- `Numerals`: decimal rendering of the whole numbers in the ratio, and
  reading them back.
- `Header`: `ensure_header_and_ratio`.
- `Sections`: `ensure_required_sections`.
- `Json`: decoded JSON values, with `dict.get` (`Get`), truthiness
  (`Truthy`) and `len` (`Len`, defined on strings, lists and objects only).
- `Message`: `extract_message_text` and the `choices[0].message.content`
  lookup.
- `JsonBlock`: `parse_json_block`. The JSON decoder is a parameter `parse`.
- `Dotenv`: `load_dotenv`, as a fold of `setdefault` over the lines of the
  file. This includes the exception that `os.environ` raises for a name or
  value it cannot store (ValueError for a NUL character, OSError from
  `setenv` for an empty name), which ends the run.
- `Retry`: the retry loop of `call_openrouter`. Each attempt's outcome is a
  parameter, and every sleep is recorded as its duration in seconds.
- `Pipeline`: `call_openrouter_json`, and `main` from the environment to the
  final write. The model's replies are a parameter: the draft, the question
  battery and, for round `i`, the oracle, evaluator and scorer JSON and the
  restored document. Each reply is either what the call returned or what it
  raised: the fault `call_openrouter` gave up with, or, for a JSON call, the
  decoding error of `parse_json_block`. A raised call ends the run.
  `Pipeline.ApiKey` is the stripped `OPENROUTER_API_KEY`, refused when empty
  or unset (lines 204-206). `Pipeline.ModelId` is `--model`, else
  `OPENROUTER_MODEL`, else the default model (line 208). `Pipeline.RoundAt`
  makes the oracle, evaluator and scorer calls of one round in that order
  (lines 302-377). `Pipeline.Accept` passes a draft or restoration that
  returned to the header and section check (lines 248-258 and 399-413).

Everything the script cannot decide by itself is a function-typed parameter:

- the decoder of JSON text;
- `str()` of a JSON value;
- the `:.2f` rendering of the ratio;
- the outcome of each HTTP attempt;
- the text and JSON the model returns.

Three behaviours of the code are easy to misread, and the model keeps them
as written:

- On a re-stamp, the ratio's denominator counts every word of the document it
  is given, the old header line included. The final `ensure_header_and_ratio`
  in `main` therefore counts the header that the previous stamp wrote.
- A restoration follows every failing round, the last one included. With the
  default budget of two rounds and two failing verdicts, there are two
  restorations.
- The battery check is `len(questions) != 10`. A ten-character string or a
  ten-key object passes it too, and question ids are never checked.

## Model

| member | source | states |
|---|---|---|
| Text.Words | scripts/lapc_openrouter_opus46.py:54-55 | `split()` yields no words exactly when the text is all whitespace |
| Text.WordCount | scripts/lapc_openrouter_opus46.py:54-55 | the count is zero exactly when the text is all whitespace |
| Text.WordsAreTokens | scripts/lapc_openrouter_opus46.py:54-55 | every word `split()` yields is a non-empty run without whitespace |
| Text.WordsJoin | scripts/lapc_openrouter_opus46.py:54-55 | splitting tokens joined by single spaces gives back exactly those tokens (split inverts join) |
| Text.WordsOfToken | scripts/lapc_openrouter_opus46.py:54-55 | a single whitespace-free token splits into itself alone |
| Text.WordCountAppend | scripts/lapc_openrouter_opus46.py:221 | the word count of two texts separated by a whitespace character is the sum of their counts, as `original_words` adds the two sources' counts |
| Text.SplitLines | scripts/lapc_openrouter_opus46.py:148 | a document has no lines exactly when it is empty, and no line holds a line feed |
| Text.SplitLinesJoin | scripts/lapc_openrouter_opus46.py:148 | joining the lines of a document with line feeds gives back the document, minus at most one final line feed |
| Numerals.ReadNatToString | scripts/lapc_openrouter_opus46.py:150 | a rendered whole number followed by a non-digit reads back as that number and the rest |
| Header.HeaderLine | scripts/lapc_openrouter_opus46.py:150-151 | the header line starts with the `[LAPC v1` tag and ends with `]` |
| Header.Rehead | scripts/lapc_openrouter_opus46.py:147-156 | the stamped document ends in a line feed that follows a visible character, or is a lone line feed |
| Header.CompressedWords | scripts/lapc_openrouter_opus46.py:149 | the denominator is at least 1: it is 1 for a blank document and the number of words `split()` yields otherwise |
| Header.ParseRatioOfHeader | scripts/lapc_openrouter_opus46.py:150-151 | a rendered header, whatever follows it and whatever the decimal rendering, reads back as its numerator and denominator |
| Header.ReheadReplaces | scripts/lapc_openrouter_opus46.py:152-156 | when the first line already starts with the tag, the result is the new header, a line feed and the rest of the document with trailing whitespace removed |
| Header.ReheadPrepends | scripts/lapc_openrouter_opus46.py:154-156 | otherwise the header, an empty line and the whole document are joined, and a document that is blank after stripping adds no lines |
| Header.ReheadShape | scripts/lapc_openrouter_opus46.py:147-156 | the script's split, replace or prepend, join, rstrip and final line feed equal one description on the document itself |
| Header.EnsureHeaderAndRatio | scripts/lapc_openrouter_opus46.py:147-156 | the result's first line is a header whose ratio reads back as (original words, max(1, word count of the input)), and the result ends in exactly one line feed after a visible character |
| Header.FirstLineStartsWithTag | scripts/lapc_openrouter_opus46.py:152 | a stamped document is recognised as already headed, so a second stamp replaces the header rather than adding one |
| Sections.MissingFrom | scripts/lapc_openrouter_opus46.py:166 | a marker is reported exactly when it is listed and absent from the document, in the listed order |
| Sections.EnsureRequiredSections | scripts/lapc_openrouter_opus46.py:159-168 | the check passes exactly when all four markers occur; a failure names a non-empty, ordered selection of exactly the absent markers |
| Sections.OnlyMissingMarker | scripts/lapc_openrouter_opus46.py:166-168 | a document lacking exactly one marker fails naming that marker alone |
| Sections.PresenceOnly | scripts/lapc_openrouter_opus46.py:166 | two documents containing the same markers get the same verdict |
| Sections.ContainsInContext | scripts/lapc_openrouter_opus46.py:166 | a marker present in a document stays present when text is added before or after it |
| Message.ExtractMessageText | scripts/lapc_openrouter_opus46.py:58-67 | a string is returned unchanged; a list flattens without error exactly when the text of every `text` item is a string, and the error names the first text part that is not; anything else becomes its `str()` |
| Message.JoinParts | scripts/lapc_openrouter_opus46.py:66 | `"".join` succeeds exactly when every part is a string; otherwise it fails at the first part that is not |
| Message.TextParts | scripts/lapc_openrouter_opus46.py:63-65 | no more parts than items, and a list that starts with a text part yields that item's text first |
| Message.TextPartsCount | scripts/lapc_openrouter_opus46.py:63-65 | a list without text parts yields no parts, and a list of text parts yields one part per item |
| Message.TextPartsAppend | scripts/lapc_openrouter_opus46.py:63-65 | the text parts of two concatenated lists are the text parts of each, in order |
| Message.TextPartsMembers | scripts/lapc_openrouter_opus46.py:63-65 | a value is collected exactly when it is the text (or the default `""`) of some item that is a dict whose `type` is `text` |
| Message.ExtractAppend | scripts/lapc_openrouter_opus46.py:61-66 | flattening a concatenated list is flattening each half and concatenating; an error in the first half wins, and one in the second is shifted past the first half's text parts |
| Message.IgnoresOtherItems | scripts/lapc_openrouter_opus46.py:63-64 | an item that is not a text part contributes nothing |
| Message.ExtractTextParts | scripts/lapc_openrouter_opus46.py:61-66 | a list of text parts with string texts flattens to the concatenation of those strings |
| Message.ResponseContent | scripts/lapc_openrouter_opus46.py:101 | the content is found exactly when the response is a dict whose `choices` is a non-empty list with a dict first item holding a dict `message` that has `content`, and it is that `content` value |
| JsonBlock.DropOpeningFence | scripts/lapc_openrouter_opus46.py:117 | removing the opening fence leaves a suffix of the text that does not start with whitespace |
| JsonBlock.DropOpeningFenceOf | scripts/lapc_openrouter_opus46.py:117 | a fence, an optional `json` tag and whitespace before a visible character are removed exactly |
| JsonBlock.DropClosingFence | scripts/lapc_openrouter_opus46.py:118 | the text itself when no fence ends it; otherwise a prefix of the text ending in a non-space character (the stripped text before the fence), followed by the line feed when the fence came just before a final line feed |
| JsonBlock.DropClosingFenceOf | scripts/lapc_openrouter_opus46.py:118 | whitespace and a closing fence at the end are removed exactly |
| JsonBlock.Unfence | scripts/lapc_openrouter_opus46.py:116-118 | text that does not start with a fence is left alone; otherwise at least the opening fence is removed |
| JsonBlock.UnfenceWrapped | scripts/lapc_openrouter_opus46.py:116-118 | unfencing a fenced block gives back the block's inner text |
| JsonBlock.BraceSpan | scripts/lapc_openrouter_opus46.py:122 | a found span lies inside the text, starts with `{` and ends with `}` |
| JsonBlock.BraceSpanExtreme | scripts/lapc_openrouter_opus46.py:122 | the greedy span starts at the first `{` and ends after the last `}` |
| JsonBlock.BraceSpanNone | scripts/lapc_openrouter_opus46.py:122-125 | there is no span exactly when no `{` comes before a `}` |
| JsonBlock.BraceSpanOf | scripts/lapc_openrouter_opus46.py:122 | an object between prose with no `{` before it and no `}` after it is found exactly |
| JsonBlock.ParseJsonBlock | scripts/lapc_openrouter_opus46.py:114-125 | on the stripped and unfenced text: text that decodes is returned as decoded; otherwise the result is what the span from the first `{` to the last `}` decodes to, or the decoding error of that span; with no span, the error of the whole text |
| JsonBlock.FencedRoundTrip | scripts/lapc_openrouter_opus46.py:114-120 | a reply that is a fenced block, padded with whitespace, decodes to what its inner text decodes to |
| JsonBlock.FallbackToSpan | scripts/lapc_openrouter_opus46.py:119-124 | when the stripped and unfenced text does not decode, an object from its first `{` to its last `}` is what is returned |
| JsonBlock.ProseRoundTrip | scripts/lapc_openrouter_opus46.py:114-124 | an object embedded in prose without other braces decodes to the object |
| JsonBlock.NoSpanPropagates | scripts/lapc_openrouter_opus46.py:121-125 | text that does not decode and has no `{` before a `}`, so `}{` included, re-raises the decoder's error on that text |
| Dotenv.Unquote | scripts/lapc_openrouter_opus46.py:41 | the cleaned value neither starts nor ends with a single quote |
| Dotenv.UnquoteQuoted | scripts/lapc_openrouter_opus46.py:41 | a value wrapped in one pair of double or single quotes loses exactly those quotes |
| Dotenv.UnquotePlain | scripts/lapc_openrouter_opus46.py:41 | a value with no surrounding whitespace or quotes is kept as is |
| Dotenv.ParseLine | scripts/lapc_openrouter_opus46.py:36-41 | a line is skipped exactly when, stripped, it is empty, a comment or has no `=`; a key never contains `=` and has no surrounding whitespace |
| Dotenv.ParseLineAt | scripts/lapc_openrouter_opus46.py:39-41 | the split happens at the first `=`: the key is the stripped text before it and the value the cleaned text after it |
| Dotenv.ParseAssignment | scripts/lapc_openrouter_opus46.py:36-41 | `KEY = value` with whitespace around `=` reads back as exactly that key and value |
| Dotenv.ParseQuotedAssignment | scripts/lapc_openrouter_opus46.py:39-41 | `KEY="value"` and `KEY='value'` read back as the unquoted value |
| Dotenv.SetDefault | scripts/lapc_openrouter_opus46.py:42 | `setdefault` keeps every variable that is set, adds only the given one, and is refused exactly when that variable is unset and cannot be stored |
| Dotenv.Apply | scripts/lapc_openrouter_opus46.py:36-42 | one line keeps every variable that is set and adds only its own assignment; a refusal is of that assignment |
| Dotenv.Load | scripts/lapc_openrouter_opus46.py:35-42 | the loop over the lines keeps every variable that was set, and a refusal names a variable that was unset and cannot be stored |
| Dotenv.LoadDotenv | scripts/lapc_openrouter_opus46.py:32-42 | a missing file changes nothing; a successful load never changes a variable already set; a refusal names a variable that was unset and cannot be stored |
| Dotenv.LoadCharacterized | scripts/lapc_openrouter_opus46.py:35-42 | loading succeeds exactly when every variable the file newly sets can be stored; a variable is then set exactly when it was set before or the file assigns it, and a new variable takes the file's first assignment, so later ones are ignored; a refusal names the first assignment of a variable that was unset |
| Dotenv.EmptyNameRefused | scripts/lapc_openrouter_opus46.py:39-42 | a file holding only `=value` is refused for its empty name, unless the environment already has an empty-named variable |
| Retry.AttemptStep | scripts/lapc_openrouter_opus46.py:97-110 | an HTTP error stays an HTTP error with its code and detail, an HTTP error whose body cannot be read escapes as its read failure, a transport failure is re-raised as itself, a response without content is malformed, a content that does not flatten fails with the index of its first non-string text part, and the text is the stripped content exactly when the content flattens |
| Retry.RetryFrom | scripts/lapc_openrouter_opus46.py:96-110 | attempts stop at the first success, at an escaping failure or at the budget; every earlier attempt failed retryably; attempt `k` is followed by a sleep of 2k seconds; a success is that attempt's text and a failure the last attempt's error |
| Retry.Retries | scripts/lapc_openrouter_opus46.py:96-111 | a budget below one makes no attempt and raises the unreachable-state error; otherwise between one and `retries` attempts with one sleep fewer, and a failure uses the whole budget unless it escaped |
| Retry.RetryLoop | scripts/lapc_openrouter_opus46.py:96-111 | the loop with its early returns computes the same result, attempt count and sleeps as the recursive definition |
| Retry.CallOpenRouter | scripts/lapc_openrouter_opus46.py:70-111 | one to `retries` attempts, each earlier one a retryable failure; success is the stripped content of a delivered response at the last attempt; a failure is the last attempt's error, at the budget or at an HTTP error whose body cannot be read |
| Retry.SucceedsIffSomeAttempt | scripts/lapc_openrouter_opus46.py:96-110 | the call succeeds exactly when, within the budget, some attempt succeeds after only retryable failures, and then it returns that attempt's text |
| Retry.AllFailTotalSleep | scripts/lapc_openrouter_opus46.py:104-110 | when every attempt fails retryably, all of them are made and the total sleep is retries·(retries−1) seconds |
| Retry.DeliveredString | scripts/lapc_openrouter_opus46.py:100-101 | a well-formed response with string content yields that content, stripped |
| Retry.FailFailSucceed | scripts/lapc_openrouter_opus46.py:96-110 | a transport failure, then an HTTP error, then a success: three attempts, sleeping 2 s and then 4 s |
| Retry.SingleAttemptHttp | scripts/lapc_openrouter_opus46.py:102-105 | with a budget of one, an HTTP error is fatal at once, carrying its code and detail |
| Retry.UnreadableHttpEndsCall | scripts/lapc_openrouter_opus46.py:102-103 | an HTTP error whose body cannot be read raises that read failure at once, with no retry and no sleep |
| Pipeline.CallJson | scripts/lapc_openrouter_opus46.py:128-144 | a text call's fault is passed on; a reply that decodes whole once stripped and unfenced gives that value; otherwise its first-`{`-to-last-`}` span decides, and the error names the span, or the whole text when there is no span |
| Pipeline.FencedCallJson | scripts/lapc_openrouter_opus46.py:128-144 | a call whose final reply is a fenced JSON block, with any whitespace around it, decodes to what the decoder makes of the text inside the fences |
| Pipeline.Checked | scripts/lapc_openrouter_opus46.py:257-258 | a document is accepted exactly when the stamped document has every marker; an accepted document starts with a header line whose ratio reads back as the sources' words over the input's words, and a rejection names the missing markers |
| Pipeline.BatteryCheck | scripts/lapc_openrouter_opus46.py:279-281 | the battery passes exactly when the reply is an object whose `questions` has length 10, and the questions are that entry; a missing entry counts as length 0, and a reply that is not an object is refused |
| Pipeline.BatteryGate | scripts/lapc_openrouter_opus46.py:269-281 | a battery call that raises, or one whose reply is not an object with exactly ten questions, ends the run; once the environment, key and draft are settled, it ends with the battery's own fault (the raised exception, or the battery check's error) and so before any round |
| Pipeline.Passes | scripts/lapc_openrouter_opus46.py:379 | a verdict passes exactly when it is an object with a truthy `pass` entry |
| Pipeline.Fails | scripts/lapc_openrouter_opus46.py:379-381 | a verdict fails exactly when it is an object that does not pass, a missing `pass` included |
| Pipeline.DraftFaultEndsRun | scripts/lapc_openrouter_opus46.py:248-258 | once the environment and key are settled, a draft call that raised ends the run with its fault |
| Pipeline.RoundCallFails | scripts/lapc_openrouter_opus46.py:302-377 | when a call of a round raises, the run ends with the first failure in the order oracle, evaluator, scorer, before the round is reported |
| Pipeline.ValidateAndRepair | scripts/lapc_openrouter_opus46.py:290-413 | the `for` loop with its `break` computes the same result as the recursive round definition |
| Pipeline.Loop | scripts/lapc_openrouter_opus46.py:290-413 | the loop keeps the rounds already reported, adds at most one per remaining round of the budget, and adds at most one restoration per added round |
| Pipeline.LoopRounds | scripts/lapc_openrouter_opus46.py:290-381 | the report's rounds are numbered consecutively, each is what that round's three calls returned, and they never exceed the budget; every round before the last failed, and the last passed unless the budget ran out |
| Pipeline.LoopRestorations | scripts/lapc_openrouter_opus46.py:379-413 | each failing round is followed by one accepted restoration, and the document is the latest restoration |
| Pipeline.LoopFromDraft | scripts/lapc_openrouter_opus46.py:290-413 | started from the checked draft, the loop yields at most `max_rounds` rounds (none when the budget is below one) and one restoration per failing round; the document is the draft or the latest restoration |
| Pipeline.RestorationMustPass | scripts/lapc_openrouter_opus46.py:399-413 | a restoration call that raises, or a restored document that fails its check, ends the run with that error |
| Pipeline.FirstRoundPasses | scripts/lapc_openrouter_opus46.py:379-381 | a passing first verdict stops the loop with one round and no restoration |
| Pipeline.TwoFailingRounds | scripts/lapc_openrouter_opus46.py:290-413 | with a budget of two and two failing verdicts, both rounds are reported and the second restoration is the document |
| Pipeline.NonObjectVerdict | scripts/lapc_openrouter_opus46.py:360-379 | a verdict that is returned but is not a JSON object ends the run in that round |
| Pipeline.MissingPassFails | scripts/lapc_openrouter_opus46.py:379 | a verdict without a `pass` key counts as failing |
| Pipeline.RunGates | scripts/lapc_openrouter_opus46.py:202-417 | a completed run loaded its `.env` file, had a usable API key, a returned and accepted draft and a returned ten-question battery; its document is the loop's document checked once more, under the chosen model |
| Pipeline.RunWith | scripts/lapc_openrouter_opus46.py:202-417 | a completed run wrote a document the final check accepted, reported at most `max_rounds` rounds and no more restorations than rounds, loaded its `.env` file and had a usable key; a refused `.env` file ends the run |
| Pipeline.Run | scripts/lapc_openrouter_opus46.py:202-417 | what `main` writes has every marker and a header first line, after at most `max_rounds` rounds |
| Pipeline.RunFacts | scripts/lapc_openrouter_opus46.py:202-417 | a completed run's report and restorations obey the round and restoration laws above, and the written document is the latest accepted document checked once more |
| Pipeline.WrittenDocument | scripts/lapc_openrouter_opus46.py:412-417 | the written document has every marker and a header first line; its ratio's numerator is the two sources' word counts added, and its denominator is the word count of the latest document once stamped |

## Left out

- HTTP, sockets, timeouts and the request body and headers of `call_openrouter` (lines 80-95, 97-99): each attempt is an abstract outcome. An HTTP error whose body cannot be read at line 103 is one such outcome, and its read failure escapes the loop at once.
- `time.sleep`: sleeps are recorded as durations, with no clock.
- `json.loads` and `json.dumps`: the decoder is the parameter `parse`, and decoded values are the `Json.Value` datatype. JSON floats are not represented, and numbers are integers.
- `str(content)` in `extract_message_text`: a parameter `show`.
- The `:.2f` rendering of the ratio: a parameter `decimal`. Only the whole numbers of the ratio are read back.
- `argparse`, `Path`, file reading and the two `write_text` calls: the command line and the source texts are the `Config` record, the `.env` file is `Option<string>` (`None` when it does not exist), and the run's result is what would be written.
- The prompt texts, temperatures and token limits, and what the model writes: replies are parameters.
- The report JSON file and the final `print`: the model keeps the report's rounds but not its serialisation.
- The replies in `Pipeline.Replies` are each call's final result, the `result` of a `Retry.Trace`. The individual attempts behind each of the script's calls are not expanded.
- Pipeline.Passes: the ≥95-score guidance in the scorer prompt is not enforced by the script, so only `bool(score.get("pass", False))` is modelled.
- Text.IsSpace: whitespace is the ASCII set (space, tab, line feed, carriage return, vertical tab, form feed). Python's `split()` and `strip()` also treat `\x1c`–`\x1f` and Unicode spaces as whitespace.
- Text.SplitLines: lines break at `\n` only. Python's `splitlines()` also breaks at `\r`, `\r\n` and other separators.
