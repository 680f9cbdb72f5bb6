/**
 * An embedded state blob: a `<script>` element whose text is a serialized
 * JSON document. The HTML reader and the JSON parser are outside the model:
 * a script element carries its text content and, when the text is
 * well-formed, the data it parses to.
 */
module Markup {
  import opened Wrappers

  datatype Script<T> = Script(textContent: string, parsed: Option<T>)

  datatype ScriptError =
    | ScriptNotFound   // the element selected by its id is absent
    | ScriptTextEmpty  // the element has no text content
    | ScriptMalformed  // the text does not parse as JSON

  /** Reads the data of an optional script element, in the order the crawler checks it. */
  function ReadScript<T>(element: Option<Script<T>>): (r: Result<T, ScriptError>)
    ensures r.Success? <==> element.Some? && element.value.textContent != "" && element.value.parsed.Some?
    ensures r.Success? ==> r.value == element.value.parsed.value
    ensures element.None? ==> r == Failure(ScriptNotFound)
    ensures element.Some? && element.value.textContent == "" ==> r == Failure(ScriptTextEmpty)
    ensures element.Some? && element.value.textContent != "" && element.value.parsed.None? ==> r == Failure(ScriptMalformed)
  {
    match element
    case None => Failure(ScriptNotFound)
    case Some(script) =>
      if script.textContent == "" then Failure(ScriptTextEmpty)
      else match script.parsed
        case None => Failure(ScriptMalformed)
        case Some(data) => Success(data)
  }
}
