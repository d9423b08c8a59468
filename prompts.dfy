/**
 * The two prompt templates of the JSON translator: the request prompt that
 * asks the completion model for a JSON object of the schema's type, and the
 * repair prompt that reports a validation error back to the model.
 *
 * Both are pure templates: each input is embedded verbatim between fixed
 * fragments, so each input can be read back from its position in the prompt.
 */
module Prompts {
  import opened Strings

  /**
   * The fixed text of a request prompt, around its three inputs: the type
   * name, the schema text and the user request.
   */
  datatype RequestTemplate = RequestTemplate(
    intro: string,        // before the type name
    schemaIntro: string,  // between the type name and the schema
    schemaOutro: string,  // between the schema and the request
    outro: string)        // after the request

  /** The translator's request template. */
  const RequestText: RequestTemplate := RequestTemplate(
    "You are a service that translates user requests into JSON objects of type \"",
    "\" according to the following TypeScript definitions:\n```\n",
    "```\nThe following is a user request:\n\"\"\"\n",
    "\n\"\"\"\nThe following is the user request translated into a JSON object with 2 spaces of indentation and no properties with the value undefined:\n")

  /** The fixed text of a repair prompt, before and after the validation error. */
  datatype RepairTemplate = RepairTemplate(intro: string, outro: string)

  /** The translator's repair template. */
  const RepairText: RepairTemplate := RepairTemplate(
    "The JSON object is invalid for the following reason:\n\"\"\"\n",
    "\n\"\"\"\nThe following is a revised JSON object:\n")

  /** Where the schema text starts in a request prompt for `typeName`. */
  function SchemaOffset(tmpl: RequestTemplate, typeName: string): nat
  {
    |tmpl.intro| + |typeName| + |tmpl.schemaIntro|
  }

  /** Where the user request starts in a request prompt for `typeName` and `schema`. */
  function RequestOffset(tmpl: RequestTemplate, typeName: string, schema: string): nat
  {
    SchemaOffset(tmpl, typeName) + |schema| + |tmpl.schemaOutro|
  }

  /**
   * `createRequestPrompt(request)`: the type name, the schema text and the
   * request, each verbatim and in that order, and the closing instruction
   * to answer with a 2-space-indented JSON object.
   */
  function RequestPrompt(tmpl: RequestTemplate, typeName: string, schema: string, request: string): (p: string)
    ensures |p| == RequestOffset(tmpl, typeName, schema) + |request| + |tmpl.outro|
    ensures StartsWith(p, tmpl.intro)
    ensures OccursAt(p, typeName, |tmpl.intro|)
    ensures OccursAt(p, tmpl.schemaIntro, |tmpl.intro| + |typeName|)
    ensures OccursAt(p, schema, SchemaOffset(tmpl, typeName))
    ensures OccursAt(p, tmpl.schemaOutro, SchemaOffset(tmpl, typeName) + |schema|)
    ensures OccursAt(p, request, RequestOffset(tmpl, typeName, schema))
    ensures EndsWith(p, tmpl.outro)
  {
    SevenPieces(tmpl.intro, typeName, tmpl.schemaIntro, schema, tmpl.schemaOutro, request, tmpl.outro);
    tmpl.intro + typeName + tmpl.schemaIntro + schema + tmpl.schemaOutro + request + tmpl.outro
  }

  /** Where each of seven concatenated pieces lies; stated over arbitrary strings so it never looks inside the fixed fragments. */
  lemma SevenPieces(a: string, b: string, c: string, d: string, e: string, f: string, g: string)
    ensures var p := a + b + c + d + e + f + g;
      && |p| == |a| + |b| + |c| + |d| + |e| + |f| + |g|
      && StartsWith(p, a)
      && OccursAt(p, b, |a|)
      && OccursAt(p, c, |a| + |b|)
      && OccursAt(p, d, |a| + |b| + |c|)
      && OccursAt(p, e, |a| + |b| + |c| + |d|)
      && OccursAt(p, f, |a| + |b| + |c| + |d| + |e|)
      && EndsWith(p, g)
  {
  }

  /** Reads the user request back out of a request prompt for `typeName` and `schema`. */
  function RequestOf(tmpl: RequestTemplate, typeName: string, schema: string, p: string): string
  {
    var start := RequestOffset(tmpl, typeName, schema);
    if start + |tmpl.outro| <= |p| then p[start..|p| - |tmpl.outro|] else ""
  }

  /** The request prompt determines the request: `RequestOf` inverts `RequestPrompt`. */
  lemma RequestPromptRoundTrip(tmpl: RequestTemplate, typeName: string, schema: string, request: string)
    ensures RequestOf(tmpl, typeName, schema, RequestPrompt(tmpl, typeName, schema, request)) == request
  {
    var p := RequestPrompt(tmpl, typeName, schema, request);
    var start := RequestOffset(tmpl, typeName, schema);
    assert |p| - |tmpl.outro| == start + |request|;
    assert OccursAt(p, request, start);
  }

  /** Distinct requests give distinct request prompts for the same schema descriptor. */
  lemma RequestPromptInjective(tmpl: RequestTemplate, typeName: string, schema: string, request1: string, request2: string)
    requires RequestPrompt(tmpl, typeName, schema, request1) == RequestPrompt(tmpl, typeName, schema, request2)
    ensures request1 == request2
  {
    RequestPromptRoundTrip(tmpl, typeName, schema, request1);
    RequestPromptRoundTrip(tmpl, typeName, schema, request2);
  }

  /**
   * `createRepairPrompt(validationError)`: the error message verbatim between
   * triple quotes, followed by the request for a revised JSON object.
   */
  function RepairPrompt(tmpl: RepairTemplate, validationError: string): (p: string)
    ensures |p| == |tmpl.intro| + |validationError| + |tmpl.outro|
    ensures StartsWith(p, tmpl.intro)
    ensures OccursAt(p, validationError, |tmpl.intro|)
    ensures EndsWith(p, tmpl.outro)
  {
    ThreePieces(tmpl.intro, validationError, tmpl.outro);
    tmpl.intro + validationError + tmpl.outro
  }

  /** Where each of three concatenated pieces lies, over arbitrary strings. */
  lemma ThreePieces(a: string, b: string, c: string)
    ensures var p := a + b + c;
      |p| == |a| + |b| + |c| && StartsWith(p, a) && OccursAt(p, b, |a|) && EndsWith(p, c)
  {
  }

  /** Reads the validation error back out of a repair prompt. */
  function RepairErrorOf(tmpl: RepairTemplate, p: string): string
  {
    if |tmpl.intro| + |tmpl.outro| <= |p| then p[|tmpl.intro|..|p| - |tmpl.outro|] else ""
  }

  /** The repair prompt determines the error it reports. */
  lemma RepairPromptRoundTrip(tmpl: RepairTemplate, validationError: string)
    ensures RepairErrorOf(tmpl, RepairPrompt(tmpl, validationError)) == validationError
  {
    var p := RepairPrompt(tmpl, validationError);
    assert |p| - |tmpl.outro| == |tmpl.intro| + |validationError|;
    assert OccursAt(p, validationError, |tmpl.intro|);
  }
}
