/**
 * The JSON translator of `createJsonTranslator`: the translator object, the
 * prompt extension of the repair step, the prompt/validate/repair protocol
 * as a state machine, and `translate`, the loop that runs it.
 *
 * The completion provider (`model.complete`) is the oracle `complete`: the
 * n-th call (counting from 0) made with prompt `p` returns `complete(n, p)`.
 * `JSON.parse` is the parameter `parse` (see module Validation).
 */
module Translation {
  import opened Results
  import opened Strings
  import opened Prompts
  import opened Validation
  import opened Extraction

  /** Prefix of the failure message after a validation failure that is not repaired. */
  const ValidationFailedPrefix: string := "JSON validation failed: "

  /**
   * The translator object: its validator (the schema descriptor), the
   * initial value of the repair flag, the `stripNulls` flag that nothing
   * reads, and the two prompt builders that `translate` looks up on it.
   */
  datatype JsonTranslator = JsonTranslator(
    validator: Validator,
    attemptRepair: bool,
    stripNulls: bool,
    createRequestPrompt: string -> string,
    createRepairPrompt: string -> string)

  /**
   * `createJsonTranslator(model, schema, typeName)`: the validator is built
   * for the literal type name "Cart" whatever `typeName` is; repair starts
   * enabled; the request prompt renders that validator's type name and
   * schema, and the repair prompt is the repair template.
   */
  function CreateJsonTranslator(schema: string, typeName: string): (t: JsonTranslator)
    ensures t.validator.typeName == "Cart" && t.validator.schema == schema
    ensures t.attemptRepair && !t.stripNulls
    ensures forall request :: t.createRequestPrompt(request) == RequestPrompt(RequestText, "Cart", schema, request)
    ensures forall validationError :: t.createRepairPrompt(validationError) == RepairPrompt(RepairText, validationError)
  {
    var validator := Validator("Cart", schema);
    JsonTranslator(validator, true, false,
                   request => RequestPrompt(RequestText, validator.typeName, validator.schema, request),
                   validationError => RepairPrompt(RepairText, validationError))
  }

  /**
   * Two translators over the same schema render the same prompts whatever
   * type names they were given: the type name argument is ignored.
   */
  lemma CreateJsonTranslatorIgnoresTypeName(schema: string, typeName1: string, typeName2: string, request: string)
    ensures var t1, t2 := CreateJsonTranslator(schema, typeName1), CreateJsonTranslator(schema, typeName2);
      && t1.validator == t2.validator
      && t1.createRequestPrompt(request) == t2.createRequestPrompt(request)
      && OccursAt(t1.createRequestPrompt(request), "Cart", |RequestText.intro|)
  {
  }

  /**
   * The repair step's `prompt += responseText + "\n" + repairPrompt`, where
   * `repairPrompt` is `createRepairPrompt(validation.message)`. Its layout
   * is stated by RepairedPromptExtends.
   */
  function RepairedPrompt(prompt: string, responseText: string, repairPrompt: string): (p: string)
    ensures |p| == |prompt| + |responseText| + 1 + |repairPrompt|
  {
    prompt + responseText + "\n" + repairPrompt
  }

  /**
   * The repaired prompt keeps the old prompt as a prefix, follows it with
   * the raw response and a newline, and ends with the repair prompt.
   */
  lemma RepairedPromptExtends(prompt: string, responseText: string, repairPrompt: string)
    ensures var p := RepairedPrompt(prompt, responseText, repairPrompt);
      && StartsWith(p, prompt)
      && OccursAt(p, responseText, |prompt|)
      && p[|prompt| + |responseText|] == '\n'
      && EndsWith(p, repairPrompt)
  {
    var withResponse := prompt + responseText;
    var withNewline := withResponse + "\n";
    assert RepairedPrompt(prompt, responseText, repairPrompt) == withNewline + repairPrompt;
    ConcatPieces(prompt, responseText);
    ConcatPieces(withResponse, "\n");
    ConcatPieces(withNewline, repairPrompt);
    OccursAtAppend(withResponse, "\n", prompt, 0);
    OccursAtAppend(withNewline, repairPrompt, prompt, 0);
    OccursAtAppend(withResponse, "\n", responseText, |prompt|);
    OccursAtAppend(withNewline, repairPrompt, responseText, |prompt|);
    assert withNewline[|withResponse|] == '\n';
  }

  /**
   * The failure message after an unrepaired validation failure. Its text is
   * stated by ValidationFailedMessageEmbeds.
   */
  function ValidationFailedMessage(validationError: string, jsonText: string): (m: string)
    ensures |m| == |"JSON validation failed: "| + |validationError| + 1 + |jsonText|
  {
    ValidationFailedPrefix + validationError + "\n" + jsonText
  }

  /**
   * The validation failure message is "JSON validation failed: ", then the
   * validation error verbatim, a newline, and the candidate verbatim.
   */
  lemma ValidationFailedMessageEmbeds(validationError: string, jsonText: string)
    ensures var m := ValidationFailedMessage(validationError, jsonText);
      && StartsWith(m, "JSON validation failed: ")
      && OccursAt(m, validationError, |"JSON validation failed: "|)
      && m[|"JSON validation failed: "| + |validationError|] == '\n'
      && EndsWith(m, jsonText)
  {
    var withError := ValidationFailedPrefix + validationError;
    var withNewline := withError + "\n";
    assert ValidationFailedMessage(validationError, jsonText) == withNewline + jsonText;
    ConcatPieces(ValidationFailedPrefix, validationError);
    ConcatPieces(withError, "\n");
    ConcatPieces(withNewline, jsonText);
    OccursAtAppend(withError, "\n", ValidationFailedPrefix, 0);
    OccursAtAppend(withNewline, jsonText, ValidationFailedPrefix, 0);
    OccursAtAppend(withError, "\n", validationError, |ValidationFailedPrefix|);
    OccursAtAppend(withNewline, jsonText, validationError, |ValidationFailedPrefix|);
    assert withNewline[|withError|] == '\n';
  }

  /** The outcome of one translation: its result and the prompts sent, in call order. */
  datatype Run = Run(result: Result<string>, prompts: seq<string>)

  /** The run `o` of the rest of the protocol, after the prompts `sent` were already sent. */
  function Resume(sent: seq<string>, o: Run): Run
  {
    Run(o.result, sent + o.prompts)
  }

  /** Resuming after `sent`, then after `more`, is resuming after both. */
  lemma ResumeTwice(sent: seq<string>, more: seq<string>, o: Run)
    ensures Resume(sent, Resume(more, o)) == Resume(sent + more, o)
  {
    assert sent + (more + o.prompts) == (sent + more) + o.prompts;
  }

  /** What one round of the loop decides once the provider has answered. */
  datatype Decision = Finish(result: Result<string>) | Retry(nextPrompt: string)

  /**
   * One round of the loop after `model.complete(prompt)` answered `response`:
   * a provider failure is returned as it is; a response without a JSON span
   * fails as "not JSON"; a candidate that validates is the result; a
   * candidate that does not validate is repaired when `attemptRepair` holds
   * and fails otherwise. A retry happens exactly in the one repairable case.
   */
  function Round<J>(t: JsonTranslator, prompt: string, attemptRepair: bool, response: Result<string>,
                    parse: string -> Option<J>): (d: Decision)
    ensures d.Retry? <==>
      && attemptRepair
      && response.Success?
      && ExtractJson(response.data).Some?
      && parse(ExtractJson(response.data).value).None?
    ensures d.Retry? ==>
      d.nextPrompt == RepairedPrompt(prompt, response.data, t.createRepairPrompt(ParseErrorMessage))
  {
    if response.Failure? then Finish(response)
    else
      var responseText := response.data;
      match ExtractJson(responseText)
      case None => Finish(Failure(NotJsonMessage(responseText)))
      case Some(jsonText) =>
        var validation := Validate(parse, jsonText);
        if validation.Success? then Finish(Success(jsonText))
        else if !attemptRepair then Finish(Failure(ValidationFailedMessage(validation.message, jsonText)))
        else Retry(RepairedPrompt(prompt, responseText, t.createRepairPrompt(validation.message)))
  }

  /**
   * The translation protocol as a state machine, from the state "about to
   * make call number `calls` with `prompt`, repair still allowed iff
   * `attemptRepair`": one call and one round, then either the end or,
   * after a repair, the same with the flag cleared. So the provider is
   * called once, or twice when repair was allowed.
   */
  function Protocol<J>(t: JsonTranslator, prompt: string, attemptRepair: bool, calls: nat,
                       complete: (nat, string) -> Result<string>, parse: string -> Option<J>): (o: Run)
    ensures 1 <= |o.prompts| <= if attemptRepair then 2 else 1
    ensures o.prompts[0] == prompt
    decreases attemptRepair
  {
    match Round(t, prompt, attemptRepair, complete(calls, prompt), parse)
    case Finish(result) => Run(result, [prompt])
    case Retry(nextPrompt) =>
      Resume([prompt], Protocol(t, nextPrompt, false, calls + 1, complete, parse))
  }

  /** A response without a JSON span ends the protocol with the "not JSON" failure. */
  lemma NoCandidateEndsProtocol<J>(t: JsonTranslator, prompt: string, attemptRepair: bool, calls: nat,
                                   complete: (nat, string) -> Result<string>, parse: string -> Option<J>)
    requires complete(calls, prompt).Success? && ExtractJson(complete(calls, prompt).data).None?
    ensures Protocol(t, prompt, attemptRepair, calls, complete, parse)
      == Run(Failure(NotJsonMessage(complete(calls, prompt).data)), [prompt])
  {
  }

  /** A candidate that parses ends the protocol with that candidate as the result. */
  lemma ValidCandidateEndsProtocol<J>(t: JsonTranslator, prompt: string, attemptRepair: bool, calls: nat,
                                      complete: (nat, string) -> Result<string>, parse: string -> Option<J>)
    requires complete(calls, prompt).Success? && ExtractJson(complete(calls, prompt).data).Some?
    requires parse(ExtractJson(complete(calls, prompt).data).value).Some?
    ensures Protocol(t, prompt, attemptRepair, calls, complete, parse)
      == Run(Success(ExtractJson(complete(calls, prompt).data).value), [prompt])
  {
  }

  /** Without repair, a candidate that does not parse ends the protocol with the validation failure. */
  lemma InvalidCandidateEndsProtocol<J>(t: JsonTranslator, prompt: string, calls: nat,
                                        complete: (nat, string) -> Result<string>, parse: string -> Option<J>)
    requires complete(calls, prompt).Success? && ExtractJson(complete(calls, prompt).data).Some?
    requires parse(ExtractJson(complete(calls, prompt).data).value).None?
    ensures Protocol(t, prompt, false, calls, complete, parse)
      == Run(Failure(ValidationFailedMessage(ParseErrorMessage, ExtractJson(complete(calls, prompt).data).value)), [prompt])
  {
  }

  /** With repair, a candidate that does not parse hands over to the repaired prompt. */
  lemma InvalidCandidateIsRepaired<J>(t: JsonTranslator, prompt: string, calls: nat,
                                      complete: (nat, string) -> Result<string>, parse: string -> Option<J>)
    requires complete(calls, prompt).Success? && ExtractJson(complete(calls, prompt).data).Some?
    requires parse(ExtractJson(complete(calls, prompt).data).value).None?
    ensures Protocol(t, prompt, true, calls, complete, parse)
      == Resume([prompt], Protocol(t, RepairedPrompt(prompt, complete(calls, prompt).data, t.createRepairPrompt(ParseErrorMessage)),
                                   false, calls + 1, complete, parse))
  {
  }

  /**
   * One step of the protocol, all five cases together: how the round's
   * decision either ends it with a single call or hands over to the
   * repaired prompt.
   */
  lemma ProtocolRound<J>(t: JsonTranslator, prompt: string, attemptRepair: bool, calls: nat,
                         complete: (nat, string) -> Result<string>, parse: string -> Option<J>)
    ensures var o := Protocol(t, prompt, attemptRepair, calls, complete, parse);
      var response := complete(calls, prompt);
      && (response.Failure? ==> o == Run(response, [prompt]))
      && (response.Success? && ExtractJson(response.data).None? ==>
            o == Run(Failure(NotJsonMessage(response.data)), [prompt]))
      && (response.Success? && ExtractJson(response.data).Some? ==>
            var jsonText := ExtractJson(response.data).value;
            && (parse(jsonText).Some? ==> o == Run(Success(jsonText), [prompt]))
            && (parse(jsonText).None? && !attemptRepair ==>
                  o == Run(Failure(ValidationFailedMessage(ParseErrorMessage, jsonText)), [prompt]))
            && (parse(jsonText).None? && attemptRepair ==>
                  o == Resume([prompt], Protocol(t, RepairedPrompt(prompt, response.data, t.createRepairPrompt(ParseErrorMessage)),
                                                 false, calls + 1, complete, parse))))
  {
    var response := complete(calls, prompt);
    if response.Failure? {
      ProviderFailureIsReturnedUnchanged(t, prompt, attemptRepair, calls, complete, parse);
    } else if ExtractJson(response.data).None? {
      NoCandidateEndsProtocol(t, prompt, attemptRepair, calls, complete, parse);
    } else if parse(ExtractJson(response.data).value).Some? {
      ValidCandidateEndsProtocol(t, prompt, attemptRepair, calls, complete, parse);
    } else if !attemptRepair {
      InvalidCandidateEndsProtocol(t, prompt, calls, complete, parse);
    } else {
      InvalidCandidateIsRepaired(t, prompt, calls, complete, parse);
    }
  }

  /**
   * `translate(request)`: the `while (true)` loop of the source. It returns
   * the result and the prompts it sent to the provider, in order; they are
   * those of the protocol started from the request prompt with the
   * translator's repair flag, so the provider is called once or twice.
   * The source's `translate` returns only the result: `prompts` is
   * bookkeeping that records the calls made, and its length is the call
   * number passed to `complete`.
   */
  method Translate<J>(t: JsonTranslator, request: string,
                      complete: (nat, string) -> Result<string>, parse: string -> Option<J>)
    returns (r: Result<string>, prompts: seq<string>)
    ensures Run(r, prompts) == Protocol(t, t.createRequestPrompt(request), t.attemptRepair, 0, complete, parse)
    ensures 1 <= |prompts| <= 2 && prompts[0] == t.createRequestPrompt(request)
  {
    var prompt := t.createRequestPrompt(request);
    var attemptRepair := t.attemptRepair;
    prompts := [];
    ghost var whole := Protocol(t, prompt, attemptRepair, 0, complete, parse);
    while true
      invariant attemptRepair ==> prompts == []
      invariant whole == Resume(prompts, Protocol(t, prompt, attemptRepair, |prompts|, complete, parse))
      decreases attemptRepair
    {
      var response := complete(|prompts|, prompt);
      ghost var sent := prompts;
      prompts := prompts + [prompt];
      if response.Failure? {
        ProviderFailureIsReturnedUnchanged(t, prompt, attemptRepair, |sent|, complete, parse);
        return response, prompts;
      }
      var responseText := response.data;
      var candidate := ExtractJson(responseText);
      if candidate.None? {
        NoCandidateEndsProtocol(t, prompt, attemptRepair, |sent|, complete, parse);
        return Failure(NotJsonMessage(responseText)), prompts;
      }
      var jsonText := candidate.value;
      var validation := Validate(parse, jsonText);
      if validation.Success? {
        ValidCandidateEndsProtocol(t, prompt, attemptRepair, |sent|, complete, parse);
        return Success(jsonText), prompts;
      }
      if !attemptRepair {
        InvalidCandidateEndsProtocol(t, prompt, |sent|, complete, parse);
        return Failure(ValidationFailedMessage(validation.message, jsonText)), prompts;
      }
      InvalidCandidateIsRepaired(t, prompt, |sent|, complete, parse);
      ResumeTwice(sent, [prompt],
                  Protocol(t, RepairedPrompt(prompt, responseText, t.createRepairPrompt(validation.message)),
                           false, |sent| + 1, complete, parse));
      prompt := RepairedPrompt(prompt, responseText, t.createRepairPrompt(validation.message));
      attemptRepair := false;
    }
  }

  /** A provider failure ends the protocol at once and is returned unchanged. */
  lemma ProviderFailureIsReturnedUnchanged<J>(t: JsonTranslator, prompt: string, attemptRepair: bool, calls: nat,
                                             complete: (nat, string) -> Result<string>, parse: string -> Option<J>)
    requires complete(calls, prompt).Failure?
    ensures Protocol(t, prompt, attemptRepair, calls, complete, parse) == Run(complete(calls, prompt), [prompt])
  {
  }

  /**
   * A response in which no `{` is followed by a `}` ends the protocol with
   * the "not JSON" failure that embeds the response; nothing is validated
   * and no repair call is made.
   */
  lemma NotJsonIsNotRepaired<J>(t: JsonTranslator, prompt: string, attemptRepair: bool, calls: nat,
                                complete: (nat, string) -> Result<string>, parse: string -> Option<J>)
    requires complete(calls, prompt).Success? && !HasBracePair(complete(calls, prompt).data)
    ensures Protocol(t, prompt, attemptRepair, calls, complete, parse)
      == Run(Failure(NotJsonMessage(complete(calls, prompt).data)), [prompt])
  {
    ExtractJsonSomeIff(complete(calls, prompt).data);
    ProtocolRound(t, prompt, attemptRepair, calls, complete, parse);
  }

  /**
   * A successful translation returns the candidate extracted from the last
   * response, unmodified (not the parsed value), and that candidate parses.
   */
  lemma {:induction false} SuccessIsLastCandidate<J>(t: JsonTranslator, prompt: string, attemptRepair: bool, calls: nat,
                                                     complete: (nat, string) -> Result<string>, parse: string -> Option<J>)
    ensures var o := Protocol(t, prompt, attemptRepair, calls, complete, parse);
      var last := complete(calls + |o.prompts| - 1, o.prompts[|o.prompts| - 1]);
      o.result.Success? ==>
        && last.Success?
        && ExtractJson(last.data) == Some(o.result.data)
        && parse(o.result.data).Some?
    decreases attemptRepair
  {
    ProtocolRound(t, prompt, attemptRepair, calls, complete, parse);
    var response := complete(calls, prompt);
    if attemptRepair && response.Success? && ExtractJson(response.data).Some?
       && parse(ExtractJson(response.data).value).None? {
      var next := RepairedPrompt(prompt, response.data, t.createRepairPrompt(ParseErrorMessage));
      SuccessIsLastCandidate(t, next, false, calls + 1, complete, parse);
    }
  }

  /**
   * Every failure is one of three kinds, each decided by the last response:
   * the provider's own failure, returned as it is; the "not JSON" failure
   * embedding a response without a JSON span; or the validation failure
   * naming the parse error and the candidate.
   */
  lemma {:induction false} FailureKinds<J>(t: JsonTranslator, prompt: string, attemptRepair: bool, calls: nat,
                                           complete: (nat, string) -> Result<string>, parse: string -> Option<J>)
    ensures var o := Protocol(t, prompt, attemptRepair, calls, complete, parse);
      var last := complete(calls + |o.prompts| - 1, o.prompts[|o.prompts| - 1]);
      o.result.Failure? ==>
        || (last.Failure? && o.result == last)
        || (last.Success? && ExtractJson(last.data).None? && o.result.message == NotJsonMessage(last.data))
        || (last.Success? && ExtractJson(last.data).Some? &&
            o.result.message == ValidationFailedMessage(ParseErrorMessage, ExtractJson(last.data).value))
    decreases attemptRepair
  {
    ProtocolRound(t, prompt, attemptRepair, calls, complete, parse);
    var response := complete(calls, prompt);
    if attemptRepair && response.Success? && ExtractJson(response.data).Some?
       && parse(ExtractJson(response.data).value).None? {
      var next := RepairedPrompt(prompt, response.data, t.createRepairPrompt(ParseErrorMessage));
      FailureKinds(t, next, false, calls + 1, complete, parse);
    }
  }

  /**
   * A second call is made exactly when repair was allowed and the first
   * candidate failed validation; its prompt is the first prompt extended by
   * the raw response and the repair prompt for "JSON parse error", and it
   * decides the result.
   */
  lemma SecondCallIsRepair<J>(t: JsonTranslator, prompt: string, attemptRepair: bool, calls: nat,
                              complete: (nat, string) -> Result<string>, parse: string -> Option<J>)
    ensures var o := Protocol(t, prompt, attemptRepair, calls, complete, parse);
      var response := complete(calls, prompt);
      |o.prompts| == 2 <==>
        && attemptRepair
        && response.Success?
        && ExtractJson(response.data).Some?
        && parse(ExtractJson(response.data).value).None?
    ensures var o := Protocol(t, prompt, attemptRepair, calls, complete, parse);
      var response := complete(calls, prompt);
      |o.prompts| == 2 ==>
        && o.prompts[1] == RepairedPrompt(prompt, response.data, t.createRepairPrompt(ParseErrorMessage))
        && o.result == Protocol(t, o.prompts[1], false, calls + 1, complete, parse).result
  {
    ProtocolRound(t, prompt, attemptRepair, calls, complete, parse);
  }

  /**
   * Prompts only grow: the repair prompt sent second keeps the first prompt
   * as its prefix, then holds the raw first response, and ends with the
   * repair prompt for "JSON parse error".
   */
  lemma SecondPromptExtendsFirst<J>(t: JsonTranslator, prompt: string, attemptRepair: bool, calls: nat,
                                    complete: (nat, string) -> Result<string>, parse: string -> Option<J>)
    ensures var o := Protocol(t, prompt, attemptRepair, calls, complete, parse);
      |o.prompts| == 2 ==>
        && StartsWith(o.prompts[1], o.prompts[0])
        && OccursAt(o.prompts[1], complete(calls, prompt).data, |prompt|)
        && EndsWith(o.prompts[1], t.createRepairPrompt(ParseErrorMessage))
  {
    ProtocolRound(t, prompt, attemptRepair, calls, complete, parse);
    if attemptRepair && complete(calls, prompt).Success? {
      RepairedPromptExtends(prompt, complete(calls, prompt).data, t.createRepairPrompt(ParseErrorMessage));
    }
  }

  /**
   * Repair success: a first response whose candidate does not parse,
   * followed by a response whose candidate does, yields that second
   * candidate after exactly two calls.
   */
  lemma RepairSucceeds<J>(t: JsonTranslator, prompt: string, calls: nat,
                          complete: (nat, string) -> Result<string>, parse: string -> Option<J>)
    requires complete(calls, prompt).Success?
    requires ExtractJson(complete(calls, prompt).data).Some?
    requires parse(ExtractJson(complete(calls, prompt).data).value).None?
    ensures var repaired := RepairedPrompt(prompt, complete(calls, prompt).data, t.createRepairPrompt(ParseErrorMessage));
      var second := complete(calls + 1, repaired);
      second.Success? && ExtractJson(second.data).Some? && parse(ExtractJson(second.data).value).Some?
      ==> Protocol(t, prompt, true, calls, complete, parse)
          == Run(Success(ExtractJson(second.data).value), [prompt, repaired])
  {
    ProtocolRound(t, prompt, true, calls, complete, parse);
  }

  /**
   * Repair bound: when both responses hold candidates that do not parse,
   * the protocol gives up after the second call with the validation
   * failure for the second candidate; there is never a third call.
   */
  lemma SecondValidationFailureIsFinal<J>(t: JsonTranslator, prompt: string, calls: nat,
                                          complete: (nat, string) -> Result<string>, parse: string -> Option<J>)
    requires complete(calls, prompt).Success?
    requires ExtractJson(complete(calls, prompt).data).Some?
    requires parse(ExtractJson(complete(calls, prompt).data).value).None?
    ensures var repaired := RepairedPrompt(prompt, complete(calls, prompt).data, t.createRepairPrompt(ParseErrorMessage));
      var second := complete(calls + 1, repaired);
      second.Success? && ExtractJson(second.data).Some? && parse(ExtractJson(second.data).value).None?
      ==> Protocol(t, prompt, true, calls, complete, parse)
          == Run(Failure(ValidationFailedMessage(ParseErrorMessage, ExtractJson(second.data).value)),
                 [prompt, repaired])
  {
    ProtocolRound(t, prompt, true, calls, complete, parse);
  }
}
