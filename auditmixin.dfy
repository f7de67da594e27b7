/**
 * `CreatedUpdatedAuditMixin` of core/mixins.py: the admin save hooks that stamp
 * who created a record and who last changed it, for a record saved on its own
 * page and for the child rows of an inline formset.
 */
module AuditMixin {
  import opened Wrappers
  import opened Registry

  /** The audit stamps of a record: `created_by` and `last_updated_by`, None when unset. */
  datatype Stamps = Stamps(createdBy: Option<UserId>, lastUpdatedBy: Option<UserId>)

  /**
   * `save_model`'s stamping: `created_by` only on create and only when unset,
   * `last_updated_by` whenever the record has that field. (On a record without
   * a `created_by` field the first assignment only sets a plain attribute.)
   */
  function SaveModelStamps(s: Stamps, tracksLastUpdated: bool, user: UserId, change: bool): Stamps {
    Stamps(
      if !change && s.createdBy == None then Some(user) else s.createdBy,
      if tracksLastUpdated then Some(user) else s.lastUpdatedBy)
  }

  /** `save_formset`'s stamping of one child: each stamp only where the child has that field. */
  function ChildStamps(s: Stamps, tracksCreated: bool, tracksLastUpdated: bool, user: UserId): Stamps {
    Stamps(
      if tracksCreated && s.createdBy == None then Some(user) else s.createdBy,
      if tracksLastUpdated then Some(user) else s.lastUpdatedBy)
  }

  /** A record in the admin: its audit stamps, which audit fields its model has, and what has been done to it. */
  class Record {
    var stamps: Stamps
    const tracksCreated: bool
    const tracksLastUpdated: bool
    /** How many times it has been written to the database. */
    var saves: nat
    var deleted: bool

    constructor (stamps: Stamps, tracksCreated: bool, tracksLastUpdated: bool)
      ensures this.stamps == stamps && this.tracksCreated == tracksCreated && this.tracksLastUpdated == tracksLastUpdated
      ensures saves == 0 && !deleted
    {
      this.stamps := stamps;
      this.tracksCreated := tracksCreated;
      this.tracksLastUpdated := tracksLastUpdated;
      saves := 0;
      deleted := false;
    }

    method Save()
      modifies this
      ensures stamps == old(stamps) && saves == old(saves) + 1 && deleted == old(deleted)
    {
      saves := saves + 1;
    }

    method Delete()
      modifies this
      ensures stamps == old(stamps) && saves == old(saves) && deleted
    {
      deleted := true;
    }

    /** `save_model`: stamp, then save. `change` is false when the admin form creates the record. */
    method SaveModel(user: UserId, change: bool)
      modifies this
      ensures stamps == SaveModelStamps(old(stamps), tracksLastUpdated, user, change)
      ensures saves == old(saves) + 1 && deleted == old(deleted)
    {
      if !change && stamps.createdBy == None {
        stamps := stamps.(createdBy := Some(user));
      }
      if tracksLastUpdated {
        stamps := stamps.(lastUpdatedBy := Some(user));
      }
      Save();
    }

    /** One child of `save_formset`: stamp where the fields exist, then save. */
    method SaveChild(user: UserId)
      modifies this
      ensures stamps == ChildStamps(old(stamps), tracksCreated, tracksLastUpdated, user)
      ensures saves == old(saves) + 1 && deleted == old(deleted)
    {
      if tracksCreated && stamps.createdBy == None {
        stamps := stamps.(createdBy := Some(user));
      }
      if tracksLastUpdated {
        stamps := stamps.(lastUpdatedBy := Some(user));
      }
      Save();
    }
  }

  /**
   * `save_formset`: each changed or new child is stamped and saved once, then
   * each child marked for deletion is deleted. The `instances` are distinct
   * objects, as the formset returns them.
   */
  method SaveFormset(instances: seq<Record>, deletedObjects: seq<Record>, user: UserId)
    requires forall i, j :: 0 <= i < j < |instances| ==> instances[i] != instances[j]
    modifies set r | r in instances, set r | r in deletedObjects
    ensures forall i :: 0 <= i < |instances| ==>
      instances[i].stamps == ChildStamps(old(instances[i].stamps), instances[i].tracksCreated, instances[i].tracksLastUpdated, user)
      && instances[i].saves == old(instances[i].saves) + 1
    ensures forall r :: r in deletedObjects ==> r.deleted
    ensures forall r :: r in instances && r !in deletedObjects ==> r.deleted == old(r.deleted)
  {
    var i := 0;
    while i < |instances|
      invariant 0 <= i <= |instances|
      invariant forall j :: 0 <= j < i ==>
        instances[j].stamps == ChildStamps(old(instances[j].stamps), instances[j].tracksCreated, instances[j].tracksLastUpdated, user)
        && instances[j].saves == old(instances[j].saves) + 1
      invariant forall j :: i <= j < |instances| ==> instances[j].stamps == old(instances[j].stamps) && instances[j].saves == old(instances[j].saves)
      invariant forall r :: r in instances ==> r.deleted == old(r.deleted)
      invariant forall r :: r !in instances && r in deletedObjects ==> unchanged(r)
    {
      instances[i].SaveChild(user);
      i := i + 1;
    }
    var k := 0;
    while k < |deletedObjects|
      invariant 0 <= k <= |deletedObjects|
      invariant forall j :: 0 <= j < k ==> deletedObjects[j].deleted
      invariant forall j :: 0 <= j < |instances| ==>
        instances[j].stamps == ChildStamps(old(instances[j].stamps), instances[j].tracksCreated, instances[j].tracksLastUpdated, user)
        && instances[j].saves == old(instances[j].saves) + 1
      invariant forall r :: r in instances && r !in deletedObjects ==> r.deleted == old(r.deleted)
    {
      deletedObjects[k].Delete();
      k := k + 1;
    }
  }

  /** The stamps after a run of `save_model` calls, the first `change` flag saying whether that save edits. */
  function AfterSaves(s: Stamps, tracksLastUpdated: bool, saves: seq<(UserId, bool)>): Stamps
    decreases |saves|
  {
    if saves == [] then s
    else AfterSaves(SaveModelStamps(s, tracksLastUpdated, saves[0].0, saves[0].1), tracksLastUpdated, saves[1..])
  }

  /** Once set, `created_by` is never overwritten, whoever saves afterwards and however. */
  lemma {:induction false} CreatorKept(s: Stamps, tracksLastUpdated: bool, saves: seq<(UserId, bool)>)
    requires s.createdBy.Some?
    ensures AfterSaves(s, tracksLastUpdated, saves).createdBy == s.createdBy
    decreases |saves|
  {
    if saves != [] {
      CreatorKept(SaveModelStamps(s, tracksLastUpdated, saves[0].0, saves[0].1), tracksLastUpdated, saves[1..]);
    }
  }

  /** A record created through the admin and then edited any number of times names its creator as `created_by`. */
  lemma {:induction false} CreatorIsFirstSaver(s: Stamps, tracksLastUpdated: bool, creator: UserId, edits: seq<UserId>)
    requires s.createdBy == None
    ensures AfterSaves(s, tracksLastUpdated, [(creator, false)] + seq(|edits|, i requires 0 <= i < |edits| => (edits[i], true))).createdBy
      == Some(creator)
  {
    var saves := [(creator, false)] + seq(|edits|, i requires 0 <= i < |edits| => (edits[i], true));
    var first := SaveModelStamps(s, tracksLastUpdated, creator, false);
    CreatorKept(first, tracksLastUpdated, saves[1..]);
  }

  /** On a record with the field, `last_updated_by` names whoever saved last. */
  lemma {:induction false} LastEditorRecorded(s: Stamps, saves: seq<(UserId, bool)>)
    requires saves != []
    ensures AfterSaves(s, true, saves).lastUpdatedBy == Some(saves[|saves| - 1].0)
    decreases |saves|
  {
    if |saves| > 1 {
      LastEditorRecorded(SaveModelStamps(s, true, saves[0].0, saves[0].1), saves[1..]);
    }
  }

  /** Saving twice in a row as the same user stamps no differently from saving once. */
  lemma ChildStampsIdempotent(s: Stamps, tracksCreated: bool, tracksLastUpdated: bool, user: UserId)
    ensures ChildStamps(ChildStamps(s, tracksCreated, tracksLastUpdated, user), tracksCreated, tracksLastUpdated, user)
      == ChildStamps(s, tracksCreated, tracksLastUpdated, user)
  {
  }
}
