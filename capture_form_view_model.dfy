/** The form engine: an ordered list of fields, their combined validity,
    and submission of the item built from them. */
module CaptureFormViewModels {
  import opened CaptureFields

  /** Item identities are UUIDs, drawn fresh whenever an item is built.
      The model takes each fresh UUID as a given value. */
  type Uuid = nat

  /** `class CaptureFormViewModel<T>`. `makeStruct` builds an item from
      the fields; its second argument is the fresh UUID the new item gets.
      The callback `insertAction` is recorded by its effect: `handedOff`
      lists, in call order, every item passed to it. */
  class CaptureFormViewModel<T> {
    var fields: seq<CaptureField>
    const title: string
    const makeStruct: (seq<CaptureField>, Uuid) --> T
    var handedOff: seq<T>

    constructor (title: string, fields: seq<CaptureField>, makeStruct: (seq<CaptureField>, Uuid) --> T)
      ensures this.title == title && this.fields == fields && this.makeStruct == makeStruct
      ensures handedOff == []
    {
      this.title := title;
      this.fields := fields;
      this.makeStruct := makeStruct;
      handedOff := [];
    }

    /** `isValid`: every field is valid. */
    function IsValid(): (b: bool)
      reads this
      ensures b <==> forall i :: 0 <= i < |fields| ==> fields[i].IsValid()
      ensures fields == [] ==> b
    {
      AllValid(fields)
    }

    /** `insert()`: build one item from the current fields and hand it to
        `insertAction`, exactly once. Validity is not checked here, and the
        fields are not cleared. The built item is also returned, so that a
        caller can pass it on as a concrete `insertAction` would. */
    method Insert(freshId: Uuid) returns (newItem: T)
      requires makeStruct.requires(fields, freshId)
      modifies this`handedOff
      ensures newItem == makeStruct(fields, freshId)
      ensures handedOff == old(handedOff) + [newItem]
      ensures fields == old(fields)
    {
      newItem := makeStruct(fields, freshId);
      handedOff := handedOff + [newItem];
    }

    /** The text binding of field `i` that the form view installs: the
        presentation layer edits one field's text in place. */
    method SetText(i: nat, text: string)
      requires i < |fields|
      modifies this`fields
      ensures fields == old(fields)[i := old(fields)[i].(text := text)]
      ensures handedOff == old(handedOff)
    {
      fields := fields[i := fields[i].(text := text)];
    }
  }
}
