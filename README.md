# The capture-a-form, store-it-in-a-list pattern, in Dafny

This project models the logic of an iOS app template. Two generic parts
work together:

- **`ListableFileStore<T>`** keeps a list of identified items, published as
  `Loadable<[T]>` (`none`, `loading`, `loaded(items)` or `error`). Every change
  replaces the whole backing JSON file.
- **`CaptureFormViewModel<T>`** holds an ordered list of `CaptureField`s. It
  decides whether they are all valid. On `insert()` it builds one item with
  `makeStruct` and hands the item to `insertAction`.

In the model, `TemplateStruct` is the concrete item type, and
`makeCaptureFormViewModel` ties its form to a store. `CaptureFormView.nextField`
is the keyboard-return rule: it moves focus to the next field; on the last
field it submits the form only when the form is valid, and it wraps focus
back to the first field either way.

Files and modules:

- `text.dfy` (`Text`): whitespace in the sense of `.whitespacesAndNewlines`, and
  trimming.
- `optional.dfy` (`Optional`) and `loadable.dfy` (`Loadable`): Swift's `T?`, and the
  store's published state.
- `file_store.dfy` (`FileStore`): the update and delete list computations, the
  backing file, and the class `ListableFileStore`.
- `capture_field.dfy` (`CaptureFields`), `capture_form_view_model.dfy`
  (`CaptureFormViewModels`), `template_struct.dfy` (`TemplateStructs`),
  `capture_form_view.dfy` (`CaptureFormViews`): one module per source file.
- `store_scenarios.dfy` (`StoreScenarios`): client methods that chain store
  operations.

Modelling choices:

- `Listable` is modelled as "has an identity that can be compared with `==`".
  The store takes the identity as a function `idOf: T -> Id`. For
  `TemplateStruct` this function is `IdOf`, the struct's UUID.
- The backing file is the field `disk`. It is `Missing`, `Written(items)` or
  `Undecodable`, which stands for bytes that do not decode. JSON encoding and
  decoding are modelled as the identity.
- Whether a read or a write succeeds is a `bool` parameter. A failure to encode
  and a failure to write are both reported as `WriteFailure`.
- Each `Task { … }` body is one atomic method. So the `loading` state that
  `load()` publishes is replaced within the same step.
- `init` only schedules `load()`. The model's constructor therefore leaves the
  state at `none`, and the caller runs `Load` next.
- Every fresh `UUID()` is a parameter, `freshId`. A `makeStruct` closure
  therefore takes it as a second argument.
- The view model records the effect of `insertAction` in `handedOff`, the list of
  every item handed to it. `Insert` also returns the built item.
  `SubmitSampleForm` is `insert()` with the sample form's action, which is
  `store.insert(item)`.
- `Dictionary(uniqueKeysWithValues:)` traps when a key repeats. So
  `MakeStruct` requires distinct field names.

Behaviour of the store worth knowing, as the code has it:

- **A failed save.** A failed save publishes `.error` and drops the published
  list (ListableFileStore.swift:97).
- **The next insert after that.** It starts from `[item]` alone
  (ListableFileStore.swift:60-61), so its save replaces the file's earlier
  items. `InsertAfterFailedSave` proves this.
- **`update`.** It replaces every element with that id (the `map` at
  ListableFileStore.swift:70), not only the first.

## Model

The source paths below are relative to the repository root.

`CaptureFields.NewField` (the memberwise initialiser with its defaults),
`TemplateStructs.TextFor` (`dict[key]?.text ?? ""`) and `TemplateStructs.IdOf`
(the UUID projection) are definitions without rows of their own. What they
do is stated by `DefaultFieldIsInvalid` and `FormFields`, by `MakeStruct`, and
by the store contracts with `idOf := IdOf` together with `EditKeepsIdentity`.

| member | source | states |
|---|---|---|
| FileStore.ListableFileStore.constructor | contacts.filedata/StoreSupport/ListableFileStore.swift:25-33 | a new store starts in `none`, over whatever file exists, with its invariant established |
| FileStore.ListableFileStore.Load | contacts.filedata/StoreSupport/ListableFileStore.swift:36-51 | a missing file ends in `loaded([])`; a readable file ends in `loaded` with its items; a read failure or decode failure ends in `error`; the file is untouched; the invariant holds afterwards |
| FileStore.ListableFileStore.Insert | contacts.filedata/StoreSupport/ListableFileStore.swift:55-63 | on success from `loaded(xs)`, list and file are both `[item] + xs`; from any other state they are both `[item]`; on failure the state is `error` and the file is unchanged |
| FileStore.ListableFileStore.Update | contacts.filedata/StoreSupport/ListableFileStore.swift:67-73 | outside `loaded`, neither list nor file changes; from `loaded(xs)`, the result of replace-by-id is saved and published, or `error` with the file unchanged |
| FileStore.ListableFileStore.Delete | contacts.filedata/StoreSupport/ListableFileStore.swift:76-82 | outside `loaded`, neither list nor file changes; from `loaded(xs)`, the result of remove-by-id is saved and published, or `error` with the file unchanged |
| FileStore.ListableFileStore.DeleteAll | contacts.filedata/StoreSupport/ListableFileStore.swift:85-89 | from any state, a successful save ends in `loaded([])` with an empty file record; a failed one ends in `error` with the file unchanged |
| FileStore.ListableFileStore.ReplaceWithList | contacts.filedata/StoreSupport/ListableFileStore.swift:92-99 | on success the file and the published list are both the given list; on failure the state is `error` and the file keeps its prior contents |
| FileStore.ListableFileStore.SaveToDisk | contacts.filedata/StoreSupport/ListableFileStore.swift:101-105 | an atomic write either replaces the whole file with the list or leaves it untouched |
| FileStore.ReplacedById | contacts.filedata/StoreSupport/ListableFileStore.swift:70 | same length; each position holds `item` where the old element has item's id, and the old element elsewhere |
| FileStore.ReplacedKeepsIds | contacts.filedata/StoreSupport/ListableFileStore.swift:70 | updating keeps the id at every position |
| FileStore.ReplacedAbsentIsIdentity | contacts.filedata/StoreSupport/ListableFileStore.swift:70 | updating with an id no element has leaves the list unchanged |
| FileStore.ReplacedIdempotent | contacts.filedata/StoreSupport/ListableFileStore.swift:70 | updating twice with the same item is the same as updating once |
| FileStore.RemovedById | contacts.filedata/StoreSupport/ListableFileStore.swift:79 | the length does not grow; an element survives iff it was there with another id; every element with another id keeps its multiplicity, and every element with the id is gone |
| FileStore.RemovedDistributes | contacts.filedata/StoreSupport/ListableFileStore.swift:79 | deleting from `xs + ys` equals deleting from each part and concatenating, so the survivors keep their relative order |
| FileStore.RemovedAbsentIsIdentity | contacts.filedata/StoreSupport/ListableFileStore.swift:79 | deleting an id that no element carries leaves the list unchanged |
| FileStore.RemovedIdempotent | contacts.filedata/StoreSupport/ListableFileStore.swift:79 | deleting twice equals deleting once |
| StoreScenarios.Reload | contacts.filedata/StoreSupport/ListableFileStore.swift:30-51 | from any store whose invariant holds and whose list is loaded, a new store over the same file, after `load()` reads successfully, publishes exactly the same list and file |
| StoreScenarios.ReloadAfterInsert | contacts.filedata/StoreSupport/ListableFileStore.swift:30-63 | from every state, a successful insert publishes `[item]` in front of the loaded list (or `[item]` alone from `none`, `loading` or `error`), and a new store over the same file loads exactly that list |
| StoreScenarios.InsertAfterFailedSave | contacts.filedata/StoreSupport/ListableFileStore.swift:57-61 | after a failed insert, a successful insert leaves list and file holding only the new item, so the earlier items are dropped |
| StoreScenarios.SampleLifecycle | contacts.filedata/StoreSupport/ListableFileStore.swift:36-89 | load with no file, insert A, insert B, update A, delete B, then delete all: the run ends in `loaded([])` with an empty file record, and each intermediate list is as expected |
| Text.LeadingWhitespace | contacts.filedata/ModelSupport/CaptureField.swift:32 | it counts exactly the whitespace run at the front of the string |
| Text.TrailingWhitespace | contacts.filedata/ModelSupport/CaptureField.swift:32 | it counts exactly the whitespace run at the back of the string |
| Text.IsWhitespace | contacts.filedata/ModelSupport/CaptureField.swift:32 | space, tab, line feed and carriage return are whitespace; ASCII letters, digits and the comma are not; no code point above U+3000 is |
| Text.Trim | contacts.filedata/ModelSupport/CaptureField.swift:32 | the trimmed string is the slice of the input that starts after the leading whitespace and is followed by whitespace only; it neither starts nor ends with whitespace; it is empty iff every character is whitespace |
| Text.IsBlank | contacts.filedata/ModelSupport/CaptureField.swift:32 | a string trims to empty iff all its characters are whitespace, so `""` is blank |
| CaptureFields.CaptureField.IsValid | contacts.filedata/ModelSupport/CaptureField.swift:31-33 | a field is valid iff it is optional or its text has a non-whitespace character |
| CaptureFields.OptionalIsValid | contacts.filedata/ModelSupport/CaptureField.swift:32 | a field with `required == false` is valid for every text |
| CaptureFields.RequiredBlankIsInvalid | contacts.filedata/ModelSupport/CaptureField.swift:32 | a required field whose text is empty or all whitespace is invalid |
| CaptureFields.DefaultFieldIsInvalid | contacts.filedata/ModelSupport/CaptureField.swift:26-32 | a field built with the defaults (`text = ""`, `required = true`) is invalid |
| CaptureFields.ValidityIgnoresHints | contacts.filedata/ModelSupport/CaptureField.swift:23-32 | two fields with the same text and requiredness are equally valid, whatever their id, label, prompt, autoCapitalize and restricted-word-list flags |
| CaptureFields.AllValid | contacts.filedata/ViewModels/CaptureFormViewModel.swift:43 | `allSatisfy` holds iff every field is valid |
| CaptureFields.NoFieldsAreValid | contacts.filedata/ViewModels/CaptureFormViewModel.swift:43 | an empty field list is valid |
| CaptureFormViewModels.CaptureFormViewModel.constructor | contacts.filedata/ViewModels/CaptureFormViewModel.swift:30-40 | title, fields and `makeStruct` are the given ones (title and `makeStruct` are constants); nothing has been handed off yet |
| CaptureFormViewModels.CaptureFormViewModel.IsValid | contacts.filedata/ViewModels/CaptureFormViewModel.swift:42-44 | the form is valid iff every field is valid, and an empty form is valid |
| CaptureFormViewModels.CaptureFormViewModel.Insert | contacts.filedata/ViewModels/CaptureFormViewModel.swift:46-49 | hands `makeStruct(fields)` to `insertAction` exactly once, even when the fields are invalid; the fields are unchanged |
| CaptureFormViewModels.CaptureFormViewModel.SetText | contacts.filedata/View/System/CaptureFormView.swift:56-59 | the view's binding changes the text of field `i` and nothing else |
| TemplateStructs.TemplateStruct.ObjectDescription | contacts.filedata/Model/TemplateStruct.swift:41-43 | the summary begins with `"Hint: "` and the hint, ends with the dog's name, and is 22 characters longer than the three attributes together |
| TemplateStructs.ObjectDescriptionInjective | contacts.filedata/Model/TemplateStruct.swift:41-43 | when the hint and the colour have no comma, the summary determines all three attributes |
| TemplateStructs.TemplateStruct.IsValid | contacts.filedata/Model/TemplateStruct.swift:46-54 | the struct is valid iff the colour and the dog's name each hold a non-whitespace character |
| TemplateStructs.ValidityIgnoresHint | contacts.filedata/Model/TemplateStruct.swift:46-54 | changing the password hint never changes validity |
| TemplateStructs.EditKeepsIdentity | contacts.filedata/Model/TemplateStruct.swift:32-38 | editing the hint, the colour and the dog's name keeps the identity the store compares by, so `update` and `delete` find the edited struct |
| TemplateStructs.Placeholder | contacts.filedata/Model/TemplateStruct.swift:62 | `placeholder` has the given id, summarises as `"Hint: , Color: , Dog: "`, and is invalid |
| TemplateStructs.TestObject | contacts.filedata/Model/TemplateStruct.swift:93-97 | `testObject` has the given id and is valid |
| TemplateStructs.FormFields | contacts.filedata/Model/TemplateStruct.swift:70-74 | three fields named `passwordHint`, `favoriteColor`, `dogName`, in that order, with distinct names; only the first is optional; all texts start empty, so a fresh form is invalid |
| TemplateStructs.KeyedById | contacts.filedata/Model/TemplateStruct.swift:76 | when names are distinct, the dictionary's keys are exactly the field names, and each name maps to its own field |
| TemplateStructs.MakeStruct | contacts.filedata/Model/TemplateStruct.swift:75-82 | each attribute is the text of the field with that name, or `""` when there is none; the id is the fresh one; field names must be distinct |
| TemplateStructs.FormValidIffStructValid | contacts.filedata/Model/TemplateStruct.swift:70-82 | for the sample form's three fields, whatever their texts, the names are distinct, and the form is valid iff the built struct is valid |
| TemplateStructs.MakeCaptureFormViewModel | contacts.filedata/Model/TemplateStruct.swift:67-82 | the form is titled "Sample Form", has the three sample fields and builds items with `MakeStruct` |
| TemplateStructs.SubmitSampleForm | contacts.filedata/Model/TemplateStruct.swift:83-85 | submitting the sample form hands the built struct to the bound store's `insert`: on a successful write the list and the file both hold it in front of the loaded list (or alone from any other state); on a failed write the state is `error` and the file unchanged; the store invariant holds afterwards |
| CaptureFormViews.NextFocus | contacts.filedata/View/System/CaptureFormView.swift:29-37 | if it submits, the form was valid and focus is 0; starting from no focus or a focus in range, with at least one field, the new focus is in `[0, count)` |
| CaptureFormViews.NoFocusGoesToFirst | contacts.filedata/View/System/CaptureFormView.swift:30-32 | with no focus and at least one field, the first field gets focus and nothing is submitted |
| CaptureFormViews.MovesToNextField | contacts.filedata/View/System/CaptureFormView.swift:30-32 | with focus `i` and `i + 1 < count`, focus moves to `i + 1` and nothing is submitted |
| CaptureFormViews.LastFieldSubmitsIffValid | contacts.filedata/View/System/CaptureFormView.swift:33-35 | on the last field, the form is submitted iff it is valid, and focus wraps to 0 either way |
| CaptureFormViews.CaptureFormView.constructor | contacts.filedata/View/System/CaptureFormView.swift:23-27 | the view shows the given view model, `showHeader` defaults to true, and no field has focus |
| CaptureFormViews.CaptureFormView.NextField | contacts.filedata/View/System/CaptureFormView.swift:29-37 | focus becomes `NextFocus`'s focus; `insert()` runs exactly when `NextFocus` submits; the fields are unchanged |

## Left out

- Concurrency: the model does not capture the `Task { }` fire-and-forget
  dispatch or `@MainActor` interleavings. Each operation is one atomic step, so
  two back-to-back calls that race in the app run here in call order.
- The file system: FileManager, the documents-directory URL, file names
  derived from the type, and the JSON encoder and decoder are not modelled.
  The file is the `disk` field, and serialization is the identity.
- Read and write outcomes: the model does not say why an I/O call throws. The
  outcome is a parameter, and the kinds of Swift error are reduced to three
  cases.
- UUID generation: ids are given values (`freshId`, `Uuid = nat`).
- `debugprint`, `usePlaceholder`, `#Preview` and the `DEBUG` conditional are not
  modelled.
- The SwiftUI layer is not modelled, apart from `nextField()` and the
  text-field binding (`SetText`): no `body`, styling, autocapitalization hints,
  `@FocusState` plumbing or Submit button. HomeView.swift is a layout file and
  is not part of this model.
- Strings: whitespace is the fixed character set of `IsWhitespace`, applied to
  Unicode scalars. The model does not cover grapheme clusters or Unicode
  normalisation.
- `CaptureFormViews.NextFocus`: `Int` overflow is not modelled. Adding 1 to
  `Int.max` would trap, but focus indices are small field indices.
- `TemplateStructs.MakeCaptureFormViewModel`: it takes no store. The
  store-binding `insertAction` closure is modelled separately, as
  `SubmitSampleForm`, because a function value in Dafny cannot change a store.
- `TemplateStructs.TemplateStruct.ObjectDescription`: the contract states only
  the `"Hint: "` prefix followed by the hint, the dog's name as suffix, and the
  length. It does not state the `", Color: "` and `", Dog: "` separators or
  where the colour sits. `ObjectDescriptionInjective` adds that the summary
  determines all three attributes, but only when the hint and the colour
  contain no comma.
