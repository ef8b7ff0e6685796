/** The site controller of the `features/` build: the availability check
    that completes a rep's other active site, the Correction and Handover
    paths on a rep change, restoration of a released rep's previous site,
    completion and deletion. Every `confirm` answer is a parameter. */
module PinFlow {
  import opened Domain
  import opened Seqs
  import opened Store
  import opened Flow

  class PinManager {
    const store: Store
    var isEditMode: bool
    /** The site the open form edits; None for a new site. */
    var currentEditingPinId: Option<Id>
    var selectedLocation: Option<Spot>
    /** The photo the form currently holds. */
    var currentUploadPhoto: Option<string>

    constructor (store: Store)
      ensures this.store == store
      ensures !isEditMode && currentEditingPinId.None?
      ensures selectedLocation.None? && currentUploadPhoto.None?
    {
      this.store := store;
      isEditMode := false;
      currentEditingPinId := None;
      selectedLocation := None;
      currentUploadPhoto := None;
    }

    /** `checkRepAvailability`: with no rep, or a rep whose active site is
        the one being edited, proceed unchanged. A rep active elsewhere
        must exist (reading its name otherwise fails); accepting completes
        that site and proceeds, declining stops with nothing changed. */
    method CheckRepAvailability(repId: Option<Id>, currentPinId: Option<Id>, confirmed: bool)
      returns (result: Result<bool>)
      requires store.Valid()
      modifies store
      ensures store.Valid() && store.reps == old(store.reps)
      ensures var o := CheckOutcome(old(store.pins), old(store.logs), old(store.reps), old(store.nextId),
                                    repId, currentPinId, confirmed);
        result == o.result && store.pins == o.pins && store.logs == o.logs && store.nextId == o.nextId
    {
      if repId.None? {
        return Ok(true);
      }
      var activePin := store.GetRepActivePin(repId.value);
      if activePin.Some? && Some(activePin.value.id) != currentPinId {
        var j := ActivePinOf(store.pins, repId.value).value;
        var rep := store.GetRep(repId.value);
        if rep.None? {
          return Err(MissingRecord);
        }
        if confirmed {
          FindPinUnique(store.pins, j);
          CompleteUpdateCompletes(store.pins[j]);
          var _ := store.UpdatePin(activePin.value.id, CompleteUpdate());
          return Ok(true);
        } else {
          return Ok(false);
        }
      }
      return Ok(true);
    }

    /** `checkAndRestorePreviousSite`: only the rep's latest log for another
        site is considered. When its site is gone or active nothing happens;
        otherwise the rep must exist, and accepting reassigns the rep there,
        which writes one log. */
    method CheckAndRestorePreviousSite(repId: Id, ignore: Id, accept: bool, now: int)
      returns (result: Result<bool>)
      requires store.Valid()
      modifies store
      ensures store.Valid() && store.reps == old(store.reps)
      ensures var o := RestoreOutcome(old(store.pins), old(store.logs), old(store.reps), old(store.nextId),
                                      repId, ignore, accept, now);
        result == o.result && store.pins == o.pins && store.logs == o.logs && store.nextId == o.nextId
    {
      var allLogs := store.GetRepLogs(repId);
      var found := LastOtherSite(allLogs, ignore);
      if found.None? {
        return Ok(false);
      }
      var candidate := allLogs[found.value];
      var pastPin := store.GetPin(candidate.pinId);
      if pastPin.None? {
        return Ok(false);
      }
      if pastPin.value.status != Active {
        var rep := store.GetRep(repId);
        if rep.None? {
          return Err(MissingRecord);
        }
        if accept {
          var _ := store.AssignRep(pastPin.value.id, repId, now);
          return Ok(true);
        }
      }
      return Ok(false);
    }

    /** `completePin`: on accept the site becomes 'complete' with no rep,
        and no log is written; an unknown id is refused. */
    method CompletePin(id: Id, confirmed: bool) returns (result: Result<bool>)
      requires store.Valid()
      modifies store
      ensures store.Valid()
      ensures store.reps == old(store.reps) && store.logs == old(store.logs)
      ensures store.nextId == old(store.nextId)
      ensures !confirmed ==> result == Ok(false) && store.pins == old(store.pins)
      ensures confirmed ==> match FindPin(old(store.pins), id)
        case None => result == Err(PinNotFound) && store.pins == old(store.pins)
        case Some(i) =>
          result == Ok(true) && store.pins == old(store.pins)[i := Completed(old(store.pins)[i])]
      ensures Consistent(old(store.pins)) ==> Consistent(store.pins)
      ensures Assignments(old(store.pins)) ==> Assignments(store.pins)
    {
      if !confirmed {
        return Ok(false);
      }
      var found := FindPin(store.pins, id);
      if found.Some? {
        CompleteUpdateCompletes(store.pins[found.value]);
        if Assignments(store.pins) {
          ReleaseKeepsAssignments(store.pins, found.value, Completed(store.pins[found.value]));
        }
      }
      var completed := store.UpdatePin(id, CompleteUpdate());
      if completed.Err? {
        return Err(completed.error);
      }
      return Ok(true);
    }

    /** `handlePinUpdate`: name, notes and photo are written first; a
        failure there stops everything. When the site had a rep and the
        chosen one differs, the old rep is released: on Correction every log
        pairing that rep with this site is deleted, on Handover the logs are
        kept and restoration runs for the old rep, ignoring this site, and
        its failure skips the rest. Finally a new, different rep is
        assigned, which writes one log. */
    method HandlePinUpdate(pinId: Id, newName: string, newRepId: Option<Id>, newNotes: string,
                           newPhoto: Option<string>, correction: bool, acceptRestore: bool, now: int)
      returns (result: Result<()>)
      requires store.Valid()
      modifies store
      ensures store.Valid() && store.reps == old(store.reps)
      ensures var o := EditOutcome(old(store.pins), old(store.logs), old(store.reps), old(store.nextId), pinId,
                                   newName, newRepId, newNotes, newPhoto, correction, acceptRestore, now);
        result == o.result && store.pins == o.pins && store.logs == o.logs && store.nextId == o.nextId
    {
      var pin := store.GetPin(pinId);
      var edited := store.UpdatePin(pinId, FormUpdate(newName, newNotes, newPhoto));
      if edited.Err? {
        return Err(edited.error);
      }
      ghost var i := FindPin(old(store.pins), pinId).value;
      assert store.pins == old(store.pins)[i := Edited(old(store.pins)[i], newName, newNotes, newPhoto)];
      result := ChangeRep(pinId, pin.value.repId, newRepId, correction, acceptRestore, now, i);
    }

    /** Conditions A and B of `handlePinUpdate` for the site at index `i`,
        whose rep was `oldRepId`. */
    method ChangeRep(pinId: Id, oldRepId: Option<Id>, newRepId: Option<Id>, correction: bool, acceptRestore: bool,
                     now: int, ghost i: nat)
      returns (result: Result<()>)
      requires store.Valid() && i < |store.pins| && store.pins[i].id == pinId
      modifies store
      ensures store.Valid() && store.reps == old(store.reps)
      ensures var o := RepChangeOutcome(old(store.pins), old(store.logs), old(store.reps), old(store.nextId), i,
                                        oldRepId, newRepId, correction, acceptRestore, now);
        result == o.result && store.pins == o.pins && store.logs == o.logs && store.nextId == o.nextId
    {
      if oldRepId.Some? && newRepId != oldRepId {
        var released := ReleaseChangedRep(pinId, oldRepId.value, correction, acceptRestore, now, i);
        if released.Err? {
          return Err(released.error);
        }
      }
      if newRepId.Some? && newRepId != oldRepId {
        FindPinUnique(store.pins, i);
        var _ := store.AssignRep(pinId, newRepId.value, now);
      }
      return Ok(());
    }

    /** Condition A of `handlePinUpdate`, for the site at index `i`: release
        the old rep, then prune its logs for this site (Correction) or try
        to restore its previous site (Handover). */
    method ReleaseChangedRep(pinId: Id, oldRepId: Id, correction: bool, acceptRestore: bool, now: int,
                             ghost i: nat)
      returns (result: Result<()>)
      requires store.Valid() && i < |store.pins| && store.pins[i].id == pinId
      modifies store
      ensures store.Valid() && store.reps == old(store.reps)
      ensures var o := ReleaseOutcome(old(store.pins), old(store.logs), old(store.reps), old(store.nextId), i,
                                      oldRepId, correction, acceptRestore, now);
        result == o.result && store.pins == o.pins && store.logs == o.logs && store.nextId == o.nextId
    {
      FindPinUnique(store.pins, i);
      var _ := store.UnassignRep(pinId);
      if correction {
        store.DeleteLogByRepAndPin(oldRepId, pinId);
        return Ok(());
      }
      var restored := CheckAndRestorePreviousSite(oldRepId, pinId, acceptRestore, now);
      if restored.Err? {
        return Err(restored.error);
      }
      return Ok(());
    }

    /** `handleSubmit`: the availability check runs first, for the edited
        site when the form is in edit mode; a refusal returns quietly and a
        failure is reported with nothing written by the form. Then the
        edited site is updated, or a new site is added at the chosen
        location with the form's photo. What the check completed stays
        completed when the update or the add fails. */
    method HandleSubmit(siteName: string, newRepId: Option<Id>, notes: string, confirmed: bool,
                        correction: bool, acceptRestore: bool, now: int)
      returns (result: Result<bool>)
      requires store.Valid()
      modifies store
      ensures store.Valid() && store.reps == old(store.reps)
      ensures var o := SubmitOutcome(old(store.pins), old(store.logs), old(store.reps), old(store.nextId),
                                     if isEditMode then currentEditingPinId else None, selectedLocation,
                                     siteName, newRepId, notes, currentUploadPhoto, confirmed, correction,
                                     acceptRestore, now);
        result == o.result && store.pins == o.pins && store.logs == o.logs && store.nextId == o.nextId
      ensures Consistent(old(store.pins)) ==> Consistent(store.pins)
      ensures Assignments(old(store.pins)) ==> Assignments(store.pins)
    {
      SubmitKeepsAssignments(store.pins, store.logs, store.reps, store.nextId,
                             if isEditMode then currentEditingPinId else None, selectedLocation,
                             siteName, newRepId, notes, currentUploadPhoto, confirmed, correction,
                             acceptRestore, now);
      var proceed := CheckRepAvailability(newRepId, if isEditMode then currentEditingPinId else None, confirmed);
      if proceed.Err? {
        return Err(proceed.error);
      }
      if !proceed.value {
        return Ok(false);
      }
      result := SaveSite(siteName, newRepId, notes, correction, acceptRestore, now);
    }

    /** The save step of `handleSubmit`, after the check passed: in edit
        mode the edited site is updated, otherwise a site is added at the
        chosen location, which the form must hold. */
    method SaveSite(siteName: string, newRepId: Option<Id>, notes: string, correction: bool,
                    acceptRestore: bool, now: int)
      returns (result: Result<bool>)
      requires store.Valid()
      modifies store
      ensures store.Valid() && store.reps == old(store.reps)
      ensures var o := SaveOutcome(old(store.pins), old(store.logs), old(store.reps), old(store.nextId),
                                   if isEditMode then currentEditingPinId else None, selectedLocation,
                                   siteName, newRepId, notes, currentUploadPhoto, correction, acceptRestore, now);
        result == o.result && store.pins == o.pins && store.logs == o.logs && store.nextId == o.nextId
    {
      if isEditMode && currentEditingPinId.Some? {
        var edited := HandlePinUpdate(currentEditingPinId.value, siteName, newRepId, notes, currentUploadPhoto,
                                      correction, acceptRestore, now);
        if edited.Err? {
          return Err(edited.error);
        }
      } else {
        if selectedLocation.None? {
          return Err(MissingRecord);
        }
        var added := store.AddPin(PinDraft(siteName, selectedLocation.value.address, selectedLocation.value.location,
                                           newRepId, currentUploadPhoto, notes), now);
        if added.Err? {
          return Err(added.error);
        }
      }
      return Ok(true);
    }

    /** `handleDelete`: without an edited site nothing happens; the site
        must exist; on accept it is removed, and when it was active with a
        rep, restoration runs for that rep, ignoring the removed site. The
        restoration is not awaited, so its failure is not reported. */
    method HandleDelete(confirmed: bool, acceptRestore: bool, now: int) returns (result: Result<bool>)
      requires store.Valid()
      modifies store
      ensures store.Valid() && store.reps == old(store.reps)
      ensures var o := DeleteOutcome(old(store.pins), old(store.logs), old(store.reps), old(store.nextId),
                                     currentEditingPinId, confirmed, acceptRestore, now);
        result == o.result && store.pins == o.pins && store.logs == o.logs && store.nextId == o.nextId
      ensures Consistent(old(store.pins)) ==> Consistent(store.pins)
      ensures Assignments(old(store.pins)) ==> Assignments(store.pins)
    {
      DeleteKeepsInvariants(store.pins, store.logs, store.reps, store.nextId, currentEditingPinId, confirmed,
                            acceptRestore, now);
      if currentEditingPinId.None? {
        return Ok(false);
      }
      var pin := store.GetPin(currentEditingPinId.value);
      if pin.None? {
        return Err(MissingRecord);
      }
      if !confirmed {
        return Ok(false);
      }
      ghost var i := FindPin(store.pins, currentEditingPinId.value).value;
      ghost var remaining := store.pins[..i] + store.pins[i + 1..];
      var oldRepId := pin.value.repId;
      var _ := store.DeletePin(pin.value.id);
      assert store.pins == remaining;
      if pin.value.status == Active && oldRepId.Some? {
        var _ := CheckAndRestorePreviousSite(oldRepId.value, pin.value.id, acceptRestore, now);
      }
      return Ok(true);
    }
  }
}
