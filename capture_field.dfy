/** One input slot of a capture form and its validity rule. */
module CaptureFields {
  import opened Text

  /** `struct CaptureField`. `id` is the field's name; `labelText`,
      `promptText`, `autoCapitalize` and `checkRestrictedWordList` are
      presentation hints. */
  datatype CaptureField = CaptureField(
    id: string,
    labelText: string,
    promptText: string,
    text: string,
    required: bool,
    autoCapitalize: bool,
    checkRestrictedWordList: bool)
  {
    /** `isValid`: the trimmed text is non-empty, or the field is
        optional; that is, the field is optional or its text has a
        character that is not whitespace. */
    function IsValid(): (b: bool)
      ensures b <==> !required || exists i :: 0 <= i < |text| && !IsWhitespace(text[i])
    {
      !IsBlank(text) || !required
    }
  }

  /** The memberwise initialiser with the struct's default values. */
  function NewField(
    id: string,
    labelText: string,
    promptText: string,
    text: string := "",
    required: bool := true,
    autoCapitalize: bool := true,
    checkRestrictedWordList: bool := true): CaptureField
  {
    CaptureField(id, labelText, promptText, text, required, autoCapitalize, checkRestrictedWordList)
  }

  /** An optional field is valid whatever its text, empty and
      whitespace-only text included. */
  lemma OptionalIsValid(f: CaptureField)
    requires !f.required
    ensures f.IsValid()
  {
  }

  /** A required field whose text is empty or all whitespace is invalid. */
  lemma RequiredBlankIsInvalid(f: CaptureField)
    requires f.required
    requires forall i :: 0 <= i < |f.text| ==> IsWhitespace(f.text[i])
    ensures !f.IsValid()
  {
  }

  /** A field built with the default text and requiredness is invalid. */
  lemma DefaultFieldIsInvalid(id: string, labelText: string, promptText: string)
    ensures !NewField(id, labelText, promptText).IsValid()
  {
  }

  /** Validity depends on the text and the requiredness only. */
  lemma ValidityIgnoresHints(f: CaptureField, g: CaptureField)
    requires f.text == g.text && f.required == g.required
    ensures f.IsValid() == g.IsValid()
  {
  }

  /** `fields.allSatisfy { $0.isValid }`. */
  function AllValid(fields: seq<CaptureField>): (b: bool)
    ensures b <==> forall i :: 0 <= i < |fields| ==> fields[i].IsValid()
  {
    if fields == [] then true else fields[0].IsValid() && AllValid(fields[1..])
  }

  /** A form with no fields is valid. */
  lemma NoFieldsAreValid()
    ensures AllValid([])
  {
  }
}
