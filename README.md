# spin-typechat JSON translator, modelled in Dafny

spin-typechat is a Spin HTTP component. It turns a natural-language request
into a JSON object of a TypeScript type ("Cart"). It does so by prompting a
language model through typechat's JSON-translator protocol. This project
models that protocol, as written in `createJsonTranslator`, and proves what it
promises. The protocol has four parts:

- **Request prompt** (`createRequestPrompt`): a fixed template that embeds the
  type name, the schema text and the user request, each verbatim.
- **Candidate extraction**: the JSON candidate is the inclusive span from the
  first `{` to the last `}` of the model's answer.
  - When there is no such span, the result is a "Response is not JSON" failure.
- **Validation** (`validate`): a candidate is accepted exactly when `JSON.parse`
  accepts it. Otherwise the failure is the fixed message "JSON parse error".
- **The repair loop** (`translate`): a `while (true)` loop guarded by the
  `attemptRepair` flag, which starts `true` and is cleared after one repair.
  - A provider failure is returned unchanged.
  - A response without a JSON span fails at once.
  - A valid candidate is returned as text.
  - An invalid candidate is repaired once: the prompt grows by the raw
    response, a newline and the repair prompt (`createRepairPrompt`). After
    that, a second invalid candidate ends the call.

The modules follow that structure:

- `Results`: typechat's `Result` record and an `Option`.
- `Strings`: `indexOf` and `lastIndexOf`, plus the substring vocabulary the
  contracts use.
- `Prompts`: the two templates.
- `Validation`: the validator.
- `Extraction`: the candidate span.
- `Translation`: the translator object, the protocol and the `Translate` loop.

Two collaborators are abstract:

- **The completion provider** (`model.complete`) is an oracle
  `complete: (nat, string) -> Result<string>`. Call number `n`, made with
  prompt `p`, answers `complete(n, p)`.
- **`JSON.parse`** is a parameter `parse: string -> Option<J>`. `None` means
  the parser threw.

`Translate` returns the result together with the prompts it sent, so the
number of provider calls is the length of that sequence. The method is proved
equal to `Protocol`, a recursive state machine whose variant is the repair
flag. The protocol lemmas are then stated about `Protocol`.

## Model

| member | source | states |
|---|---|---|
| Strings.IndexOf | src/index.ts:74 | `indexOf("{")`: -1 exactly when the character is absent; otherwise a position holding it with no earlier occurrence |
| Strings.LastIndexOf | src/index.ts:75 | `lastIndexOf("}")`: -1 exactly when the character is absent; otherwise a position holding it with no later occurrence |
| Prompts.RequestPrompt | src/index.ts:53-59 | the request prompt opens with the fixed intro, then holds the type name, the schema and the request verbatim at known offsets, in that order, separated by the fixed fragments, and ends with the "translated into a JSON object" line |
| Prompts.RequestPromptRoundTrip | src/index.ts:53-59 | the request can be read back from the request prompt, so no request is lost or altered |
| Prompts.RequestPromptInjective | src/index.ts:53-59 | two requests with the same request prompt are equal |
| Prompts.RepairPrompt | src/index.ts:60-64 | the repair prompt is the fixed intro, the validation error verbatim, then the fixed "revised JSON object" outro |
| Prompts.RepairPromptRoundTrip | src/index.ts:60-64 | the validation error can be read back from the repair prompt |
| Validation.Validate | src/index.ts:99-107 | `validate` succeeds exactly when the parser accepts the text, with the parsed value as data; every failure carries the literal message "JSON parse error" |
| Extraction.ExtractJson | src/index.ts:74-79 | a candidate is at least two characters long, starts with `{` and ends with `}` |
| Extraction.ExtractJsonSomeIff | src/index.ts:74-78 | extraction succeeds if and only if some `{` is followed later by some `}`; otherwise the "not JSON" branch is taken |
| Extraction.ExtractJsonIsFirstToLast | src/index.ts:74-79 | with the first `{` at i and the last `}` at j > i, the candidate is exactly the inclusive span i..j |
| Extraction.ExtractJsonIsSubstring | src/index.ts:79 | a candidate occurs verbatim in the response, with no `{` before it and no `}` after it |
| Extraction.NotJsonMessage | src/index.ts:77 | the "not JSON" failure message is exactly as long as "Response is not JSON:\n" plus the response |
| Extraction.NotJsonMessageEmbeds | src/index.ts:77 | the "not JSON" message starts with the literal "Response is not JSON:\n" and ends with the whole response verbatim |
| Translation.CreateJsonTranslator | src/index.ts:41-52 | the validator is built for "Cart" with the given schema; repair starts enabled; `stripNulls` is off; the translator's prompt builders are the two templates over that validator |
| Translation.CreateJsonTranslatorIgnoresTypeName | src/index.ts:41-42 | translators made with different type names have the same validator and send the same request prompts, naming "Cart" |
| Translation.RepairedPrompt | src/index.ts:89 | the repaired prompt (`prompt += responseText + "\n" + repairPrompt`) is exactly as long as the old prompt, the response, one newline and the repair prompt together |
| Translation.RepairedPromptExtends | src/index.ts:89 | the repaired prompt keeps the old prompt as its prefix, then holds the raw response, a newline, and ends with the repair prompt |
| Translation.ValidationFailedMessage | src/index.ts:86 | the unrepaired validation failure message is exactly as long as "JSON validation failed: ", the error, one newline and the candidate together |
| Translation.ValidationFailedMessageEmbeds | src/index.ts:86 | the validation failure message starts with the literal "JSON validation failed: ", holds the validation error verbatim right after it, then a newline, and ends with the candidate verbatim |
| Translation.Round | src/index.ts:69-90 | one loop iteration asks for a retry exactly when repair is allowed, the provider succeeded, a candidate exists and it does not parse; the retry prompt is the repaired prompt for "JSON parse error" |
| Translation.Protocol | src/index.ts:65-92 | the provider is called at least once and at most twice, and twice only when repair was allowed; the first prompt sent is the starting prompt |
| Translation.Translate | src/index.ts:65-92 | the `while (true)` loop returns exactly the result of the protocol started from `createRequestPrompt(request)` with the translator's repair flag, and the prompts it sent; it makes one or two calls and always terminates |
| Translation.ProtocolRound | src/index.ts:69-90 | the protocol's outcome in each of the five cases of one iteration: provider failure, no candidate, valid candidate, invalid candidate with and without repair |
| Translation.ProviderFailureIsReturnedUnchanged | src/index.ts:69-72 | a provider failure is the result, unchanged, after a single call |
| Translation.NotJsonIsNotRepaired | src/index.ts:76-78 | a response in which no `{` precedes a `}` ends the call with the "not JSON" failure for that response, after a single call and without validation or repair |
| Translation.SuccessIsLastCandidate | src/index.ts:81-83 | a success carries the candidate text extracted from the last response, unmodified rather than the parsed value, and that candidate parses |
| Translation.FailureKinds | src/index.ts:70-87 | every failure is the last provider failure, the "not JSON" message for the last response, or the validation failure for the last candidate |
| Translation.SecondCallIsRepair | src/index.ts:85-90 | a second call happens if and only if repair was allowed and the first candidate did not parse; its prompt is the repaired prompt, and it decides the result with repair switched off |
| Translation.SecondPromptExtendsFirst | src/index.ts:89 | the second prompt keeps the first as its prefix, holds the first raw response right after it, and ends with the repair prompt for "JSON parse error" |
| Translation.RepairSucceeds | src/index.ts:81-90 | an invalid first candidate followed by a valid second one yields the second candidate after exactly two calls |
| Translation.SecondValidationFailureIsFinal | src/index.ts:85-90 | two invalid candidates in a row end the call after exactly two prompts, with the validation failure for the second candidate |

## Left out

- `handleRequest` (src/index.ts:19-39) is not part of this model. It is HTTP plumbing: reading the request body, the response envelope, the fixed status 200 and header.
- Reading the schema file (src/index.ts:22) is left out as file I/O. The schema is a parameter. `fsPromises` is not even imported in the source.
- `createModel` and `Llm.infer` (src/index.ts:7-17) are a foreign inference call, modelled only as the oracle `complete`, which always returns a `Result`. The source's adapter only ever returns successes, so with it the provider-failure path of Translation.ProviderFailureIsReturnedUnchanged is reached only by other `TypeChatLanguageModel`s.
- A provider that throws or rejects is not modelled. Nothing in `complete` (src/index.ts:9-14) or `translate` (src/index.ts:65-92) catches, so such an exception leaves `translate` and `handleRequest` uncaught instead of becoming a `Failure` result; the oracle cannot express it.
- JavaScript indexes strings by UTF-16 code unit, while the model indexes `char`s (src/index.ts:74-79). `{` and `}` are one code unit each and the indices are used only to cut the candidate out of the same string, so the candidate text is the same either way.
- `JSON.parse` (src/index.ts:102) is the abstract parameter `parse`. Its grammar and the shape of the parsed value are not modelled.
- `console.log` calls (src/index.ts:31, 80, 88) are left out as output with no effect on results.
- The `async`/`await` machinery is left out. Each await is sequential, so it is an ordinary call in the model.
- `createValidator` (src/index.ts:95-110) is the `Validator` datatype, holding the type name and schema, plus the function `Validate`. The parser is passed to `Validate` rather than stored in the validator.
- The `stripNulls` flag (src/index.ts:47) is recorded in the translator and never read, as in the source.
- The `typeName` argument of `createJsonTranslator` is ignored, and the validator is always built for "Cart" (src/index.ts:42). The model follows the code; it does not follow typechat's documented behaviour of using the given type name.
- Cancellation and time-outs of provider calls are not modelled; the source has neither.
- The fixed text of the two prompt templates is passed as a template value (`RequestText`, `RepairText`). The translator's builders apply exactly the source's literals, so this changes no behaviour.
- Translation.RepairedPrompt: its own contract states only the length of the repaired prompt. The layout (old prompt as prefix, response, newline, repair prompt as suffix) is proved separately by Translation.RepairedPromptExtends, so the protocol proofs do not carry substring facts they never use.
- Translation.ValidationFailedMessage: its own contract states only the message length. The exact text, starting with "JSON validation failed: ", is proved separately by Translation.ValidationFailedMessageEmbeds, for the same reason.
- Extraction.NotJsonMessage: its own contract states only the message length. The exact text, starting with "Response is not JSON:\n", is proved separately by Extraction.NotJsonMessageEmbeds, for the same reason.
