/**
 * The sender-profile store: the list of profiles, the id of the current
 * profile, the saving flag and the last error, with the reducers that
 * update them in place.
 */
module SettingsSlice {
  import opened Wrappers
  import opened Seqs
  import opened Types

  function Ids(ps: seq<SenderProfile>): seq<string> {
    Map(ps, (p: SenderProfile) => p.id)
  }

  /** No two profiles share an id. */
  predicate UniqueIds(ps: seq<SenderProfile>) {
    forall i, j :: 0 <= i < j < |ps| ==> ps[i].id != ps[j].id
  }

  /** Position `j` holds the first profile with the id. */
  predicate FirstWithId(ps: seq<SenderProfile>, id: string, j: int) {
    0 <= j < |ps| && ps[j].id == id && forall k :: 0 <= k < j ==> ps[k].id != id
  }

  /** `findIndex(p => p.id === id)`: the first position with the id, or -1. */
  function FindIndex(ps: seq<SenderProfile>, id: string): (r: int)
    ensures r == -1 || FirstWithId(ps, id, r)
    ensures r == -1 <==> forall j :: 0 <= j < |ps| ==> ps[j].id != id
  {
    if ps == [] then -1
    else if ps[0].id == id then 0
    else
      var r := FindIndex(ps[1..], id);
      if r == -1 then -1 else r + 1
  }

  /** The list `updateProfile` leaves: the first profile with the
      payload's id is replaced by the payload, every other entry stays. */
  function Replaced(ps: seq<SenderProfile>, p: SenderProfile): (r: seq<SenderProfile>)
    ensures |r| == |ps|
    ensures forall j :: 0 <= j < |ps| ==> r[j] == if FirstWithId(ps, p.id, j) then p else ps[j]
    ensures (forall j :: 0 <= j < |ps| ==> ps[j].id != p.id) ==> r == ps
  {
    var i := FindIndex(ps, p.id);
    if i == -1 then ps else ps[i := p]
  }

  /** `filter(p => p.id !== id)`. */
  function WithoutId(ps: seq<SenderProfile>, id: string): (r: seq<SenderProfile>)
    ensures IsSubsequence(r, ps)
    ensures forall j :: 0 <= j < |r| ==> r[j].id != id
    ensures forall j :: 0 <= j < |ps| && ps[j].id != id ==> ps[j] in r
    ensures forall x :: multiset(r)[x] == if x.id != id then multiset(ps)[x] else 0
  {
    FilterSubsequence(ps, (p: SenderProfile) => p.id != id);
    FilterMultisetAll(ps, (p: SenderProfile) => p.id != id);
    Filter(ps, (p: SenderProfile) => p.id != id)
  }

  /** Deleting an id no profile has changes nothing; deleting twice is deleting once. */
  lemma WithoutIdNoMatch(ps: seq<SenderProfile>, id: string)
    ensures (forall j :: 0 <= j < |ps| ==> ps[j].id != id) ==> WithoutId(ps, id) == ps
    ensures WithoutId(WithoutId(ps, id), id) == WithoutId(ps, id)
  {
    if forall j :: 0 <= j < |ps| ==> ps[j].id != id {
      FilterKeepsAll(ps, (p: SenderProfile) => p.id != id);
    }
    var once := WithoutId(ps, id);
    FilterKeepsAll(once, (p: SenderProfile) => p.id != id);
  }

  /** `state.profiles[0]?.id || null`: the first id, absent when the list
      is empty or that id is the empty string. */
  function FirstId(ps: seq<SenderProfile>): Option<string> {
    if ps == [] || ps[0].id == "" then None else Some(ps[0].id)
  }

  /** The current profile after deleting `id`, given the profiles left. */
  function CurrentAfterDelete(current: Option<string>, id: string, remaining: seq<SenderProfile>): (r: Option<string>)
    ensures current != Some(id) ==> r == current
    ensures current == Some(id) && r.Some? ==> remaining != [] && r.value == remaining[0].id
    ensures current == Some(id) && remaining != [] && remaining[0].id != "" ==> r == Some(remaining[0].id)
    ensures current == Some(id) && (remaining == [] || remaining[0].id == "") ==> r == None
  {
    if current == Some(id) then FirstId(remaining) else current
  }

  /** After a delete the current profile never names the deleted id. */
  lemma DeletedNotCurrent(ps: seq<SenderProfile>, current: Option<string>, id: string)
    ensures CurrentAfterDelete(current, id, WithoutId(ps, id)) != Some(id)
  {
    var remaining := WithoutId(ps, id);
    if current == Some(id) && remaining != [] {
      assert remaining[0].id != id;
    }
  }

  /** `map(profile => ({...profile, isDefault: profile.id === id}))`. */
  function WithDefault(ps: seq<SenderProfile>, id: string): (r: seq<SenderProfile>)
    ensures |r| == |ps|
    ensures forall j :: 0 <= j < |ps| ==> r[j].isDefault == (ps[j].id == id)
    ensures forall j :: 0 <= j < |ps| ==> r[j].(isDefault := ps[j].isDefault) == ps[j]
  {
    Map(ps, (p: SenderProfile) => p.(isDefault := p.id == id))
  }

  /** Making a profile the default twice is making it the default once,
      and the ids are unchanged. */
  lemma WithDefaultIdempotent(ps: seq<SenderProfile>, id: string)
    ensures WithDefault(WithDefault(ps, id), id) == WithDefault(ps, id)
    ensures Ids(WithDefault(ps, id)) == Ids(ps)
  {
    var once := WithDefault(ps, id);
    var twice := WithDefault(once, id);
    forall j | 0 <= j < |ps| ensures twice[j] == once[j] {
      assert once[j].id == ps[j].id;
    }
    forall j | 0 <= j < |ps| ensures Ids(once)[j] == Ids(ps)[j] {
      assert once[j].id == ps[j].id;
    }
  }

  /** With unique ids, at most one profile is the default afterwards, and
      exactly one when some profile has the id. */
  lemma WithDefaultSingle(ps: seq<SenderProfile>, id: string)
    requires UniqueIds(ps)
    ensures forall i, j :: 0 <= i < |ps| && 0 <= j < |ps| && WithDefault(ps, id)[i].isDefault && WithDefault(ps, id)[j].isDefault ==> i == j
    ensures (exists j :: 0 <= j < |ps| && WithDefault(ps, id)[j].isDefault) <==> id in Ids(ps)
  {
    var r := WithDefault(ps, id);
    if id in Ids(ps) {
      var j :| 0 <= j < |ps| && Ids(ps)[j] == id;
      assert r[j].isDefault;
    }
    if exists j :: 0 <= j < |ps| && r[j].isDefault {
      var j :| 0 <= j < |ps| && r[j].isDefault;
      assert Ids(ps)[j] == id;
    }
  }

  /** The store's state and its reducers. */
  class SettingsStore {
    var profiles: seq<SenderProfile>
    var currentProfileId: Option<string>
    var isSaving: bool
    var error: Option<string>

    /** The initial state: no profile, none current, not saving, no error. */
    constructor ()
      ensures profiles == [] && currentProfileId == None && !isSaving && error == None
    {
      profiles, currentProfileId, isSaving, error := [], None, false, None;
    }

    /** `addProfile`: the payload is pushed at the end, whatever its id. */
    method AddProfile(p: SenderProfile)
      modifies this
      ensures profiles == old(profiles) + [p]
      ensures currentProfileId == old(currentProfileId) && isSaving == old(isSaving) && error == old(error)
    {
      profiles := profiles + [p];
    }

    /** `updateProfile`: the first profile with the payload's id is replaced. */
    method UpdateProfile(p: SenderProfile)
      modifies this
      ensures profiles == Replaced(old(profiles), p)
      ensures currentProfileId == old(currentProfileId) && isSaving == old(isSaving) && error == old(error)
    {
      var index := FindIndex(profiles, p.id);
      if index != -1 {
        profiles := profiles[index := p];
      }
    }

    /** `deleteProfile`: every profile with the id goes; a current profile
        with that id falls back to the first one left. */
    method DeleteProfile(id: string)
      modifies this
      ensures profiles == WithoutId(old(profiles), id)
      ensures currentProfileId == CurrentAfterDelete(old(currentProfileId), id, profiles)
      ensures currentProfileId != Some(id)
      ensures isSaving == old(isSaving) && error == old(error)
    {
      profiles := WithoutId(profiles, id);
      if currentProfileId == Some(id) {
        currentProfileId := FirstId(profiles);
      }
      DeletedNotCurrent(old(profiles), old(currentProfileId), id);
    }

    /** `setCurrentProfile`: the id is taken as given, present or not. */
    method SetCurrentProfile(id: string)
      modifies this
      ensures currentProfileId == Some(id)
      ensures profiles == old(profiles) && isSaving == old(isSaving) && error == old(error)
    {
      currentProfileId := Some(id);
    }

    method SetIsSaving(saving: bool)
      modifies this
      ensures isSaving == saving
      ensures profiles == old(profiles) && currentProfileId == old(currentProfileId) && error == old(error)
    {
      isSaving := saving;
    }

    method SetError(e: Option<string>)
      modifies this
      ensures error == e
      ensures profiles == old(profiles) && currentProfileId == old(currentProfileId) && isSaving == old(isSaving)
    {
      error := e;
    }

    /** `setDefaultProfile`: the profiles with the id become the default, all others stop being it. */
    method SetDefaultProfile(id: string)
      modifies this
      ensures profiles == WithDefault(old(profiles), id)
      ensures currentProfileId == old(currentProfileId) && isSaving == old(isSaving) && error == old(error)
    {
      profiles := WithDefault(profiles, id);
    }
  }
}
