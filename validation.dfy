/**
 * The validator built by `createValidator`: a schema descriptor (type name
 * and schema text, used only to render prompts) and `validate`, which
 * accepts a candidate exactly when `JSON.parse` accepts it.
 *
 * `JSON.parse` is not modelled: it is the parameter `parse`, whose `None`
 * stands for "the parser threw" and whose `Some(v)` is the parsed value.
 */
module Validation {
  import opened Results

  /** The one failure message `validate` ever produces. */
  const ParseErrorMessage: string := "JSON parse error"

  datatype Validator = Validator(typeName: string, schema: string)

  /**
   * `validate(jsonText)`: succeeds with the parsed value when the parser
   * accepts the text, and otherwise fails with the fixed, non-empty parse
   * error message, whatever the text was.
   */
  function Validate<J>(parse: string -> Option<J>, jsonText: string): (r: Result<J>)
    ensures r.Success? <==> parse(jsonText).Some?
    ensures r.Success? ==> r.data == parse(jsonText).value
    ensures r.Failure? ==> r.message == ParseErrorMessage == "JSON parse error"
  {
    match parse(jsonText)
    case Some(jsonObject) => Success(jsonObject)
    case None => Failure(ParseErrorMessage)
  }
}
