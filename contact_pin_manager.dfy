/** The site controller of the `src/` build: the same availability check
    as the `features/` build under the contact names, an edit that releases
    and reassigns without prompting or pruning, completion, and a deletion
    that never restores. Every `confirm` answer is a parameter. */
module ContactPinFlow {
  import opened Domain
  import opened Seqs
  import opened Store
  import opened Flow
  import opened ContactFlow

  class ContactPinManager {
    const store: Store
    var isEditMode: bool
    /** The site the open form edits; None for a new site. */
    var currentEditingPinId: Option<Id>
    var selectedLocation: Option<Spot>
    /** The photo the form currently holds. */
    var currentUploadPhoto: Option<string>

    constructor (store: Store)
      ensures this.store == store
      ensures !isEditMode && currentEditingPinId.None?
      ensures selectedLocation.None? && currentUploadPhoto.None?
    {
      this.store := store;
      isEditMode := false;
      currentEditingPinId := None;
      selectedLocation := None;
      currentUploadPhoto := None;
    }

    /** `checkContactAvailability`: with no contact, or a contact whose
        active site is the one being edited, proceed unchanged. A contact
        active elsewhere must exist; accepting completes that site and
        proceeds, declining stops with nothing changed. */
    method CheckContactAvailability(contactId: Option<Id>, currentPinId: Option<Id>, confirmed: bool)
      returns (result: Result<bool>)
      requires store.Valid()
      modifies store
      ensures store.Valid() && store.reps == old(store.reps)
      ensures var o := CheckOutcome(old(store.pins), old(store.logs), old(store.reps), old(store.nextId),
                                    contactId, currentPinId, confirmed);
        result == o.result && store.pins == o.pins && store.logs == o.logs && store.nextId == o.nextId
      ensures AtMostOneActive(old(store.pins)) && result == Ok(true) && contactId.Some? ==>
        FreeFor(store.pins, contactId.value, currentPinId)
    {
      CheckFreesRep(store.pins, store.logs, store.reps, store.nextId, contactId, currentPinId, confirmed);
      if contactId.None? {
        return Ok(true);
      }
      var activePin := store.GetRepActivePin(contactId.value);
      if activePin.None? || Some(activePin.value.id) == currentPinId {
        return Ok(true);
      }
      var j := ActivePinOf(store.pins, contactId.value).value;
      var contact := store.GetRep(contactId.value);
      if contact.None? {
        return Err(MissingRecord);
      }
      if !confirmed {
        return Ok(false);
      }
      FindPinUnique(store.pins, j);
      CompleteUpdateCompletes(store.pins[j]);
      var _ := store.UpdatePin(activePin.value.id, CompleteUpdate());
      return Ok(true);
    }

    /** `handlePinUpdate` of the `src/` build: title, notes and photo are
        written first, and a failure there stops everything; then the old
        contact is released when it changed, and a new, different contact is
        assigned. */
    method HandlePinUpdate(pinId: Id, newTitle: string, newContactId: Option<Id>, newNotes: string,
                           newPhoto: Option<string>, now: int)
      returns (result: Result<()>)
      requires store.Valid()
      modifies store
      ensures store.Valid() && store.reps == old(store.reps)
      ensures var o := ContactEditOutcome(old(store.pins), old(store.logs), old(store.nextId), pinId, newTitle,
                                          newContactId, newNotes, newPhoto, now);
        result == o.result && store.pins == o.pins && store.logs == o.logs && store.nextId == o.nextId
    {
      var pin := store.GetPin(pinId);
      var edited := store.UpdatePin(pinId, FormUpdate(newTitle, newNotes, newPhoto));
      if edited.Err? {
        return Err(edited.error);
      }
      ghost var i := FindPin(old(store.pins), pinId).value;
      FindPinUnique(store.pins, i);
      var oldContactId := pin.value.repId;
      if oldContactId.Some? && newContactId != oldContactId {
        var _ := store.UnassignRep(pinId);
        FindPinUnique(store.pins, i);
      }
      if newContactId.Some? && newContactId != oldContactId {
        var _ := store.AssignRep(pinId, newContactId.value, now);
      }
      return Ok(());
    }

    /** `handleSubmit` of the `src/` build: the availability check first; a
        refusal returns quietly and a failure is reported with nothing
        written by the form; then the edited site is updated or a new site
        is added at the chosen location. */
    method HandleSubmit(title: string, newContactId: Option<Id>, notes: string, confirmed: bool, now: int)
      returns (result: Result<bool>)
      requires store.Valid()
      modifies store
      ensures store.Valid() && store.reps == old(store.reps)
      ensures var o := ContactSubmitOutcome(old(store.pins), old(store.logs), old(store.reps), old(store.nextId),
                                            if isEditMode then currentEditingPinId else None, selectedLocation,
                                            title, newContactId, notes, currentUploadPhoto, confirmed, now);
        result == o.result && store.pins == o.pins && store.logs == o.logs && store.nextId == o.nextId
      ensures Consistent(old(store.pins)) ==> Consistent(store.pins)
      ensures Assignments(old(store.pins)) ==> Assignments(store.pins)
    {
      ContactSubmitKeepsAssignments(store.pins, store.logs, store.reps, store.nextId,
                                    if isEditMode then currentEditingPinId else None, selectedLocation,
                                    title, newContactId, notes, currentUploadPhoto, confirmed, now);
      var proceed := CheckContactAvailability(newContactId, if isEditMode then currentEditingPinId else None,
                                              confirmed);
      if proceed.Err? {
        return Err(proceed.error);
      }
      if !proceed.value {
        return Ok(false);
      }
      result := SaveSite(title, newContactId, notes, now);
    }

    /** The save step of `handleSubmit`, after the check passed: in edit
        mode the edited site is updated, otherwise a site is added at the
        chosen location, which the form must hold. */
    method SaveSite(title: string, newContactId: Option<Id>, notes: string, now: int) returns (result: Result<bool>)
      requires store.Valid()
      modifies store
      ensures store.Valid() && store.reps == old(store.reps)
      ensures var o := ContactSaveOutcome(old(store.pins), old(store.logs), old(store.nextId),
                                          if isEditMode then currentEditingPinId else None, selectedLocation,
                                          title, newContactId, notes, currentUploadPhoto, now);
        result == o.result && store.pins == o.pins && store.logs == o.logs && store.nextId == o.nextId
    {
      if isEditMode && currentEditingPinId.Some? {
        var edited := HandlePinUpdate(currentEditingPinId.value, title, newContactId, notes, currentUploadPhoto, now);
        if edited.Err? {
          return Err(edited.error);
        }
      } else {
        if selectedLocation.None? {
          return Err(MissingRecord);
        }
        var added := store.AddPin(PinDraft(title, selectedLocation.value.address, selectedLocation.value.location,
                                           newContactId, currentUploadPhoto, notes), now);
        if added.Err? {
          return Err(added.error);
        }
      }
      return Ok(true);
    }

    /** `completePin` of the `src/` build: on accept the site is completed;
        a failing update is caught and reported. */
    method CompletePin(id: Id, confirmed: bool) returns (result: Result<bool>)
      requires store.Valid()
      modifies store
      ensures store.Valid() && store.reps == old(store.reps)
      ensures var o := CompleteOutcome(old(store.pins), old(store.logs), old(store.nextId), id, confirmed);
        result == o.result && store.pins == o.pins && store.logs == o.logs && store.nextId == o.nextId
      ensures Assignments(old(store.pins)) ==> Assignments(store.pins)
    {
      CompleteKeepsAssignments(store.pins, store.logs, store.nextId, id, confirmed);
      if !confirmed {
        return Ok(false);
      }
      var found := FindPin(store.pins, id);
      if found.Some? {
        CompleteUpdateCompletes(store.pins[found.value]);
      }
      var completed := store.UpdatePin(id, CompleteUpdate());
      if completed.Err? {
        return Err(completed.error);
      }
      return Ok(true);
    }

    /** `handleDelete` of the `src/` build: without an edited site nothing
        happens; the site must exist; on accept it is removed, with no
        restoration of its contact. */
    method HandleDelete(confirmed: bool) returns (result: Result<bool>)
      requires store.Valid()
      modifies store
      ensures store.Valid() && store.reps == old(store.reps)
      ensures var o := ContactDeleteOutcome(old(store.pins), old(store.logs), old(store.nextId),
                                            currentEditingPinId, confirmed);
        result == o.result && store.pins == o.pins && store.logs == o.logs && store.nextId == o.nextId
      ensures Assignments(old(store.pins)) ==> Assignments(store.pins)
    {
      ContactDeleteKeepsInvariants(store.pins, store.logs, store.nextId, currentEditingPinId, confirmed);
      if currentEditingPinId.None? {
        return Ok(false);
      }
      var pin := store.GetPin(currentEditingPinId.value);
      if pin.None? {
        return Err(MissingRecord);
      }
      if !confirmed {
        return Ok(false);
      }
      var _ := store.DeletePin(pin.value.id);
      return Ok(true);
    }
  }
}
