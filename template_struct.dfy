/** The sample item type, its capture form and its binding to a file
    store. */
module TemplateStructs {
  import opened Text
  import opened CaptureFields
  import opened CaptureFormViewModels
  import Loadable
  import FileStore

  /** `struct TemplateStruct`: an identity and three text attributes. */
  datatype TemplateStruct = TemplateStruct(
    id: Uuid,
    passwordHint: string,
    favoriteColor: string,
    dogName: string)
  {
    /** `objectDescription`: a one-line summary of the attributes. */
    function ObjectDescription(): (r: string)
      ensures |r| == 22 + |passwordHint| + |favoriteColor| + |dogName|
      ensures r[..6] == "Hint: " && r[6..6 + |passwordHint|] == passwordHint
      ensures r[|r| - |dogName|..] == dogName
    {
      "Hint: " + (passwordHint + (", Color: " + (favoriteColor + (", Dog: " + dogName))))
    }

    /** `isValid`: the favourite colour and the dog's name are both
        non-blank, that is, each holds a non-whitespace character; the
        password hint plays no part. */
    function IsValid(): (b: bool)
      ensures b <==>
                (exists i :: 0 <= i < |favoriteColor| && !IsWhitespace(favoriteColor[i])) &&
                (exists i :: 0 <= i < |dogName| && !IsWhitespace(dogName[i]))
    {
      !IsBlank(favoriteColor) && !IsBlank(dogName)
    }
  }

  /** The identity projection the store compares items by: the UUID. */
  function IdOf(t: TemplateStruct): Uuid {
    t.id
  }

  /** Editing the attributes keeps the identity, so `update` finds the
      edited struct in the store's list and `delete` removes it. */
  lemma EditKeepsIdentity(t: TemplateStruct, hint: string, color: string, dog: string)
    ensures IdOf(t.(passwordHint := hint, favoriteColor := color, dogName := dog)) == IdOf(t)
  {
  }

  /** Editing the password hint never changes validity. */
  lemma ValidityIgnoresHint(t: TemplateStruct, hint: string)
    ensures t.(passwordHint := hint).IsValid() == t.IsValid()
  {
  }

  /** The summary determines the attributes when the hint and the colour
      contain no comma. */
  lemma ObjectDescriptionInjective(a: TemplateStruct, b: TemplateStruct)
    requires ',' !in a.passwordHint && ',' !in b.passwordHint
    requires ',' !in a.favoriteColor && ',' !in b.favoriteColor
    requires a.ObjectDescription() == b.ObjectDescription()
    ensures a.passwordHint == b.passwordHint
    ensures a.favoriteColor == b.favoriteColor
    ensures a.dogName == b.dogName
  {
    var da, db := ", Dog: " + a.dogName, ", Dog: " + b.dogName;
    var ca, cb := a.favoriteColor + da, b.favoriteColor + db;
    var ta, tb := ", Color: " + ca, ", Color: " + cb;
    assert a.ObjectDescription() == "Hint: " + (a.passwordHint + ta);
    assert b.ObjectDescription() == "Hint: " + (b.passwordHint + tb);
    DropCommonPrefix("Hint: ", a.passwordHint + ta, b.passwordHint + tb);
    FirstComma(a.passwordHint, ta, b.passwordHint, tb, a.passwordHint + ta);
    DropCommonPrefix(", Color: ", ca, cb);
    FirstComma(a.favoriteColor, da, b.favoriteColor, db, ca);
    DropCommonPrefix(", Dog: ", a.dogName, b.dogName);
  }

  /** Helper: equal strings with a common prefix agree after it. */
  lemma DropCommonPrefix(p: string, u: string, v: string)
    requires p + u == p + v
    ensures u == v
  {
    assert u == (p + u)[|p|..];
    assert v == (p + v)[|p|..];
  }

  /** Helper: when `u + x` and `v + y` are the same string, `u` and `v`
      are comma-free, and `x` and `y` start with a comma, then `u == v`
      and `x == y`. */
  lemma FirstComma(u: string, x: string, v: string, y: string, s: string)
    requires ',' !in u && ',' !in v
    requires |x| > 0 && x[0] == ',' && |y| > 0 && y[0] == ','
    requires s == u + x && s == v + y
    ensures u == v && x == y
  {
    CommaIndexAfter(u, x);
    CommaIndexAfter(v, y);
    assert u == s[..|u|] == v;
  }

  /** The index of the first comma in `s`, or `|s|` when there is none. */
  function CommaIndex(s: string): (n: nat)
    ensures n <= |s|
  {
    if s == [] || s[0] == ',' then 0 else 1 + CommaIndex(s[1..])
  }

  /** Helper: a comma-free prefix ends where the first comma is. */
  lemma {:induction false} CommaIndexAfter(u: string, x: string)
    requires ',' !in u && |x| > 0 && x[0] == ','
    ensures CommaIndex(u + x) == |u|
  {
    if u == [] {
      assert u + x == x;
    } else {
      assert (u + x)[1..] == u[1..] + x;
      CommaIndexAfter(u[1..], x);
    }
  }

  /** `TemplateStruct.placeholder`, all attributes empty; its UUID is
      drawn when it is built. It is not a valid struct. */
  function Placeholder(id: Uuid): (p: TemplateStruct)
    ensures p.id == id && p.ObjectDescription() == "Hint: , Color: , Dog: "
    ensures !p.IsValid()
  {
    TemplateStruct(id, "", "", "")
  }

  /** `TemplateStruct.testObject`: a valid struct. */
  function TestObject(id: Uuid): (t: TemplateStruct)
    ensures t.id == id && t.IsValid()
  {
    TemplateStruct(id, "Sunshine", "Blue", "Daisy")
  }

  // ---------------------------------------------------------------------
  // The capture form
  // ---------------------------------------------------------------------

  /** The three fields of the sample form, in display order: an optional
      password hint and two required attributes, all starting empty, so
      a fresh form is not valid. */
  function FormFields(): (fs: seq<CaptureField>)
    ensures |fs| == 3 && DistinctIds(fs)
    ensures fs[0].id == "passwordHint" && fs[1].id == "favoriteColor" && fs[2].id == "dogName"
    ensures !fs[0].required && fs[1].required && fs[2].required
    ensures forall i :: 0 <= i < 3 ==> fs[i].text == ""
    ensures !AllValid(fs)
  {
    [ NewField("passwordHint", "Password Hint", "optional: Password Hint",
               required := false, autoCapitalize := false, checkRestrictedWordList := false),
      NewField("favoriteColor", "Favorite Color", "required: Favorite Color"),
      NewField("dogName", "Dog's Name", "required: Your Dog's Name") ]
  }

  /** No two fields share a name. */
  predicate DistinctIds(fields: seq<CaptureField>) {
    forall i, j :: 0 <= i < j < |fields| ==> fields[i].id != fields[j].id
  }

  /** `Dictionary(uniqueKeysWithValues: fields.map { ($0.id, $0) })`,
      which traps on a repeated name. */
  function KeyedById(fields: seq<CaptureField>): (m: map<string, CaptureField>)
    requires DistinctIds(fields)
    ensures forall key :: key in m <==> exists i :: 0 <= i < |fields| && fields[i].id == key
    ensures forall i :: 0 <= i < |fields| ==> fields[i].id in m && m[fields[i].id] == fields[i]
  {
    if fields == [] then map[]
    else KeyedById(fields[1..])[fields[0].id := fields[0]]
  }

  /** `dict[key]?.text ?? ""`: the text of the field under `key`, or the
      empty string when there is none. */
  function TextFor(dict: map<string, CaptureField>, key: string): string {
    if key in dict then dict[key].text else ""
  }

  /** `makeStruct`: each attribute takes the text of the field with the
      same name, or the empty string when there is none. */
  function MakeStruct(fields: seq<CaptureField>, id: Uuid): (t: TemplateStruct)
    requires DistinctIds(fields)
    ensures t.id == id
    ensures forall i :: 0 <= i < |fields| && fields[i].id == "passwordHint" ==> t.passwordHint == fields[i].text
    ensures forall i :: 0 <= i < |fields| && fields[i].id == "favoriteColor" ==> t.favoriteColor == fields[i].text
    ensures forall i :: 0 <= i < |fields| && fields[i].id == "dogName" ==> t.dogName == fields[i].text
    ensures (forall i :: 0 <= i < |fields| ==> fields[i].id != "passwordHint") ==> t.passwordHint == ""
    ensures (forall i :: 0 <= i < |fields| ==> fields[i].id != "favoriteColor") ==> t.favoriteColor == ""
    ensures (forall i :: 0 <= i < |fields| ==> fields[i].id != "dogName") ==> t.dogName == ""
  {
    var dict := KeyedById(fields);
    TemplateStruct(id, TextFor(dict, "passwordHint"), TextFor(dict, "favoriteColor"), TextFor(dict, "dogName"))
  }

  /** The sample form's fields after the user has edited their texts:
      everything but the text is as `FormFields` sets it up. */
  predicate IsEditedForm(fields: seq<CaptureField>) {
    |fields| == 3 &&
    forall i :: 0 <= i < 3 ==> fields[i] == FormFields()[i].(text := fields[i].text)
  }

  /** Helper: an edited sample form keeps the names and requiredness of
      `FormFields`. */
  lemma EditedFormShape(fields: seq<CaptureField>)
    requires IsEditedForm(fields)
    ensures |fields| == 3 && DistinctIds(fields)
    ensures fields[0].id == "passwordHint" && !fields[0].required
    ensures fields[1].id == "favoriteColor" && fields[1].required
    ensures fields[2].id == "dogName" && fields[2].required
  {
    var fs := FormFields();
    assert fields[0] == fs[0].(text := fields[0].text);
    assert fields[1] == fs[1].(text := fields[1].text);
    assert fields[2] == fs[2].(text := fields[2].text);
  }

  /** The form's validity and the built struct's validity agree: the hint
      field is optional and the other two are required. */
  lemma FormValidIffStructValid(fields: seq<CaptureField>, id: Uuid)
    requires IsEditedForm(fields)
    ensures DistinctIds(fields)
    ensures AllValid(fields) <==> MakeStruct(fields, id).IsValid()
  {
    EditedFormShape(fields);
    assert fields[0].IsValid();
    assert AllValid(fields) == (fields[1].IsValid() && fields[2].IsValid());
    var t := MakeStruct(fields, id);
    assert t.favoriteColor == fields[1].text && t.dogName == fields[2].text;
    assert t.IsValid() == (fields[1].IsValid() && fields[2].IsValid());
  }

  /** `makeCaptureFormViewModel(store:)`: the sample form, titled "Sample
      Form", whose `insertAction` is `store.insert`; submitting it is
      `SubmitSampleForm`. */
  method MakeCaptureFormViewModel() returns (vm: CaptureFormViewModel<TemplateStruct>)
    ensures fresh(vm)
    ensures vm.title == "Sample Form" && vm.fields == FormFields() && vm.makeStruct == MakeStruct
    ensures vm.handedOff == []
  {
    vm := new CaptureFormViewModel("Sample Form", FormFields(), MakeStruct);
  }

  /** `insert()` on the sample form: the built struct is handed to the
      bound store's `insert`, so it lands in front of the stored list. */
  method SubmitSampleForm(
    vm: CaptureFormViewModel<TemplateStruct>,
    store: FileStore.ListableFileStore<TemplateStruct, Uuid>,
    freshId: Uuid,
    writeSucceeds: bool)
    requires vm.makeStruct == MakeStruct && DistinctIds(vm.fields)
    modifies vm, store
    ensures vm.fields == old(vm.fields)
    ensures store.Valid()
    ensures var item := MakeStruct(old(vm.fields), freshId);
            var candidate := if old(store.list).Loaded? then [item] + old(store.list).value else [item];
            && vm.handedOff == old(vm.handedOff) + [item]
            && (writeSucceeds ==> store.list == Loadable.Loaded(candidate) && store.disk == FileStore.Written(candidate))
            && (!writeSucceeds ==> store.list == Loadable.Error(Loadable.WriteFailure) && store.disk == old(store.disk))
  {
    var item := vm.Insert(freshId);
    store.Insert(item, writeSucceeds);
  }
}
