/** The focus-advance rule of the capture form view: pressing return in
    a field moves to the next field, and on the last field submits a valid
    form and wraps around. */
module CaptureFormViews {
  import opened Optional
  import opened CaptureFormViewModels

  /** What one `nextField()` does: the new focused index, and whether
      `insert()` is called. */
  datatype Advance = Advance(focus: int, submits: bool)

  /** `nextField()` on a form of `count` fields whose validity is
      `formValid`, from the focused index `focus` (`None` when no field
      has focus). */
  function NextFocus(focus: Option<int>, count: nat, formValid: bool): (a: Advance)
    ensures a.submits ==> formValid
    ensures a.submits ==> a.focus == 0
    ensures (focus == None || (focus.Some? && 0 <= focus.value < count)) && count > 0 ==> 0 <= a.focus < count
  {
    var nextIndex := (match focus case Some(i) => i case None => -1) + 1;
    if nextIndex < count then Advance(nextIndex, false) else Advance(0, formValid)
  }

  /** With no focus and at least one field, the first field gets focus. */
  lemma NoFocusGoesToFirst(count: nat, formValid: bool)
    requires count > 0
    ensures NextFocus(None, count, formValid) == Advance(0, false)
  {
  }

  /** Before the last field, focus moves one field on and nothing is
      submitted. */
  lemma MovesToNextField(i: int, count: nat, formValid: bool)
    requires i + 1 < count
    ensures NextFocus(Some(i), count, formValid) == Advance(i + 1, false)
  {
  }

  /** On the last field, the form is submitted exactly when it is valid,
      and focus wraps to the first field either way. */
  lemma LastFieldSubmitsIffValid(count: nat, formValid: bool)
    requires count > 0
    ensures NextFocus(Some(count - 1), count, formValid) == Advance(0, formValid)
  {
  }

  /** `struct CaptureFormView`: the view model it shows and the
      `@FocusState` index of the focused field. */
  class CaptureFormView<T> {
    const viewModel: CaptureFormViewModel<T>
    const showHeader: bool
    var focusedFieldIndex: Option<int>

    constructor (viewModel: CaptureFormViewModel<T>, showHeader: bool := true)
      ensures this.viewModel == viewModel && this.showHeader == showHeader
      ensures focusedFieldIndex == None
    {
      this.viewModel := viewModel;
      this.showHeader := showHeader;
      focusedFieldIndex := None;
    }

    /** `nextField()`. `freshId` is the UUID the item gets if the form is
        submitted. */
    method NextField(freshId: Uuid)
      requires NextFocus(focusedFieldIndex, |viewModel.fields|, viewModel.IsValid()).submits ==>
                 viewModel.makeStruct.requires(viewModel.fields, freshId)
      modifies this, viewModel
      ensures var a := NextFocus(old(focusedFieldIndex), |old(viewModel.fields)|, old(viewModel.IsValid()));
              && focusedFieldIndex == Some(a.focus)
              && viewModel.fields == old(viewModel.fields)
              && viewModel.handedOff ==
                   if a.submits then old(viewModel.handedOff) + [viewModel.makeStruct(old(viewModel.fields), freshId)]
                   else old(viewModel.handedOff)
    {
      var a := NextFocus(focusedFieldIndex, |viewModel.fields|, viewModel.IsValid());
      if a.submits {
        var _ := viewModel.Insert(freshId);
      }
      focusedFieldIndex := Some(a.focus);
    }
  }
}
