/**
 * The settings page: a local copy of the profiles, the id of the profile
 * being edited and the saving flag, with the handlers that add, edit,
 * mark as default, delete and save profiles.
 */
module SettingsPage {
  import opened Wrappers
  import opened Seqs
  import opened Types
  import opened SettingsSlice

  /** `profiles.find(p => p.isDefault)`: the first default profile. */
  function FirstDefault(ps: seq<SenderProfile>): (r: Option<SenderProfile>)
    ensures r == None <==> forall j :: 0 <= j < |ps| ==> !ps[j].isDefault
    ensures forall j :: 0 <= j < |ps| && ps[j].isDefault && (forall k :: 0 <= k < j ==> !ps[k].isDefault) ==>
      r == Some(ps[j])
  {
    if ps == [] then None
    else if ps[0].isDefault then Some(ps[0])
    else
      var r := FirstDefault(ps[1..]);
      assert forall j :: 1 <= j < |ps| ==> ps[1..][j - 1] == ps[j];
      r
  }

  /** `profiles.find(p => p.isDefault)?.id || profiles[0]?.id || ''`:
      the first default profile's id, else the first profile's id, else
      the empty string (an empty id counts as missing at each step). */
  function InitialSelection(ps: seq<SenderProfile>): string {
    var d := FirstDefault(ps);
    if d.Some? && d.value.id != "" then d.value.id
    else if ps != [] then ps[0].id
    else ""
  }

  /** The initial selection is the first default profile when it has an
      id, the first profile when none is the default, and empty for no profile. */
  lemma InitialSelectionChoice(ps: seq<SenderProfile>, j: nat)
    requires j < |ps| && ps[j].isDefault && forall k :: 0 <= k < j ==> !ps[k].isDefault
    ensures ps[j].id != "" ==> InitialSelection(ps) == ps[j].id
    ensures InitialSelection(ps) == "" || InitialSelection(ps) in Ids(ps)
  {
    assert Ids(ps)[0] == ps[0].id && Ids(ps)[j] == ps[j].id;
  }

  lemma InitialSelectionNoDefault(ps: seq<SenderProfile>)
    requires forall j :: 0 <= j < |ps| ==> !ps[j].isDefault
    ensures ps == [] ==> InitialSelection(ps) == ""
    ensures ps != [] ==> InitialSelection(ps) == ps[0].id
  {
  }

  /** The profile `handleAddProfile` creates, with the id it is given. */
  function Blank(id: string): SenderProfile {
    SenderProfile(id, "", "", "", "", "", false)
  }

  /** The five text fields of a profile the form edits. */
  datatype Field = Name | Email | DefaultSubject | DefaultMessage | Signature

  function FieldOf(p: SenderProfile, f: Field): string {
    match f
    case Name => p.name
    case Email => p.email
    case DefaultSubject => p.defaultSubject
    case DefaultMessage => p.defaultMessage
    case Signature => p.signature
  }

  function SetField(p: SenderProfile, f: Field, v: string): SenderProfile {
    match f
    case Name => p.(name := v)
    case Email => p.(email := v)
    case DefaultSubject => p.(defaultSubject := v)
    case DefaultMessage => p.(defaultMessage := v)
    case Signature => p.(signature := v)
  }

  /** `p.id === selectedProfileId`; an undefined selection matches no profile. */
  predicate IsSelected(p: SenderProfile, selected: Option<string>) {
    selected == Some(p.id)
  }

  /** A field's `onChange`: `{...p, field: value}` on the selected profiles. */
  function Edited(ps: seq<SenderProfile>, selected: Option<string>, f: Field, v: string): seq<SenderProfile> {
    Map(ps, (p: SenderProfile) => if IsSelected(p, selected) then SetField(p, f, v) else p)
  }

  /** An edit sets the field on the selected profiles and changes nothing
      else: not the other fields, not the id, not the default flag, and
      not the other profiles. */
  lemma EditedOnlyField(ps: seq<SenderProfile>, selected: Option<string>, f: Field, v: string, j: nat, g: Field)
    requires j < |ps|
    ensures |Edited(ps, selected, f, v)| == |ps|
    ensures Edited(ps, selected, f, v)[j].id == ps[j].id
    ensures Edited(ps, selected, f, v)[j].isDefault == ps[j].isDefault
    ensures FieldOf(Edited(ps, selected, f, v)[j], g) ==
      if IsSelected(ps[j], selected) && g == f then v else FieldOf(ps[j], g)
  {
    var e := Edited(ps, selected, f, v)[j];
    if IsSelected(ps[j], selected) {
      assert e == SetField(ps[j], f, v);
    }
  }

  /** The default checkbox: the selected profile's flag becomes the box's
      value, every other profile's becomes false. */
  function Checked(ps: seq<SenderProfile>, selected: Option<string>, checked: bool): seq<SenderProfile> {
    Map(ps, (p: SenderProfile) => p.(isDefault := if IsSelected(p, selected) then checked else false))
  }

  /** After the checkbox, every default profile is a selected one, so
      with unique ids there is at most one; unchecking leaves none. The
      other fields stay. */
  lemma CheckedDefaults(ps: seq<SenderProfile>, selected: Option<string>, checked: bool)
    ensures |Checked(ps, selected, checked)| == |ps|
    ensures forall j :: 0 <= j < |ps| ==>
      Checked(ps, selected, checked)[j].isDefault == (IsSelected(ps[j], selected) && checked)
    ensures forall j :: 0 <= j < |ps| ==>
      Checked(ps, selected, checked)[j].(isDefault := ps[j].isDefault) == ps[j]
    ensures UniqueIds(ps) ==> forall i, j ::
      (0 <= i < |ps| && 0 <= j < |ps| && Checked(ps, selected, checked)[i].isDefault && Checked(ps, selected, checked)[j].isDefault)
      ==> i == j
    ensures !checked ==> forall j :: 0 <= j < |ps| ==> !Checked(ps, selected, checked)[j].isDefault
  {
  }

  /** The delete button's list: the profiles without the selected id. */
  function DeletedSelected(ps: seq<SenderProfile>, selected: Option<string>): seq<SenderProfile> {
    if selected.Some? then WithoutId(ps, selected.value) else ps
  }

  /** `profiles[0]?.id`, read from the list before the deletion. */
  function SelectionAfterDelete(ps: seq<SenderProfile>): Option<string> {
    if ps == [] then None else Some(ps[0].id)
  }

  /** Deleting the first profile leaves its id selected although no
      profile has it any more: the selection is read from the list as it
      was before the deletion. */
  lemma DeleteFirstKeepsDeletedId(ps: seq<SenderProfile>)
    requires ps != []
    ensures SelectionAfterDelete(ps) == Some(ps[0].id)
    ensures ps[0].id !in Ids(DeletedSelected(ps, Some(ps[0].id)))
  {
  }

  /** The page's state and its handlers. */
  class SettingsEditor {
    var profiles: seq<SenderProfile>
    var selectedProfileId: Option<string>
    var isSaving: bool

    /** The state after the first render, from the profiles the page is given. */
    constructor (initial: seq<SenderProfile>)
      ensures profiles == initial && selectedProfileId == Some(InitialSelection(initial)) && !isSaving
    {
      profiles := initial;
      selectedProfileId := Some(InitialSelection(initial));
      isSaving := false;
    }

    /** `handleAddProfile`, with `Date.now().toString()` given as `newId`:
        a blank profile is appended and becomes the selection. */
    method AddProfile(newId: string)
      modifies this
      ensures profiles == old(profiles) + [Blank(newId)]
      ensures selectedProfileId == Some(newId) && isSaving == old(isSaving)
    {
      var newProfile := Blank(newId);
      profiles := profiles + [newProfile];
      selectedProfileId := Some(newProfile.id);
    }

    /** The `onChange` of one of the five text inputs. */
    method EditField(f: Field, v: string)
      modifies this
      ensures profiles == Edited(old(profiles), selectedProfileId, f, v)
      ensures selectedProfileId == old(selectedProfileId) && isSaving == old(isSaving)
    {
      profiles := Edited(profiles, selectedProfileId, f, v);
    }

    /** The `onChange` of the default checkbox. */
    method ToggleDefault(checked: bool)
      modifies this
      ensures profiles == Checked(old(profiles), selectedProfileId, checked)
      ensures selectedProfileId == old(selectedProfileId) && isSaving == old(isSaving)
    {
      profiles := Checked(profiles, selectedProfileId, checked);
    }

    /** The delete button: both updates read the list as it was before the click. */
    method DeleteSelected()
      modifies this
      ensures profiles == DeletedSelected(old(profiles), old(selectedProfileId))
      ensures selectedProfileId == SelectionAfterDelete(old(profiles))
      ensures isSaving == old(isSaving)
    {
      var before := profiles;
      profiles := DeletedSelected(before, selectedProfileId);
      selectedProfileId := SelectionAfterDelete(before);
    }

    /** `handleSubmit`: the whole list goes to `onSave`, which sees the
        saving flag raised; the flag is lowered once it returns or throws. */
    method Submit() returns (saved: seq<SenderProfile>, savingDuringSave: bool)
      modifies this
      ensures saved == profiles == old(profiles)
      ensures savingDuringSave && !isSaving
      ensures selectedProfileId == old(selectedProfileId)
    {
      isSaving := true;
      saved, savingDuringSave := profiles, isSaving;
      isSaving := false;
    }
  }
}
