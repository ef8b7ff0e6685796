/** The site flows of the `src/` build, where reps are called contacts and
    site names titles, as functions of the tables. The availability check
    and the add are those of the `features/` build; a contact change only
    releases and reassigns (no Correction prompt, no log pruning, no
    restoration), and deletion never restores. */
module ContactFlow {
  import opened Domain
  import opened Seqs
  import opened Store
  import opened Flow

  /** `handlePinUpdate` of the `src/` build: write title, notes and photo;
      release the old contact when it changed; then assign a new, different
      contact, which writes one log. */
  function ContactEditOutcome(pins: seq<Pin>, logs: seq<Log>, nextId: nat, pinId: Id, title: string,
                              newContact: Option<Id>, notes: string, photo: Option<string>,
                              now: int): (o: Outcome<()>)
    ensures |o.pins| == |pins|
    ensures FindPin(pins, pinId).None? ==> o.result == Err(PinNotFound)
    ensures FindPin(pins, pinId).Some? && Renames(pins[FindPin(pins, pinId).value], title) &&
            SiteNameTaken(pins, title) ==>
      o == Outcome(Err(DuplicateSiteName(title)), pins, logs, nextId)
    ensures o.result.Ok? <==>
      FindPin(pins, pinId).Some? && !(Renames(pins[FindPin(pins, pinId).value], title) && SiteNameTaken(pins, title))
    ensures o.result.Err? ==> o.pins == pins && o.logs == logs && o.nextId == nextId
    ensures logs <= o.logs && |o.logs| <= |logs| + 1
  {
    match FindPin(pins, pinId)
    case None => Outcome(Err(PinNotFound), pins, logs, nextId)
    case Some(i) =>
      var p := pins[i];
      if Renames(p, title) && SiteNameTaken(pins, title) then
        Outcome(Err(DuplicateSiteName(title)), pins, logs, nextId)
      else
        var edited := pins[i := Edited(p, title, notes, photo)];
        var released := if p.repId.Some? && newContact != p.repId then edited[i := Unassigned(edited[i])]
                        else edited;
        if newContact.Some? && newContact != p.repId then
          Outcome(Ok(()), released[i := Assigned(released[i], newContact.value)],
                  logs + [Log(nextId, newContact.value, pinId, now)], nextId + 1)
        else Outcome(Ok(()), released, logs, nextId)
  }

  /** The contact edit leaves the site with the new contact (released when
      none is chosen, untouched when it is the same), changes no other
      site, and logs exactly the new assignment. */
  lemma ContactEditReassigns(pins: seq<Pin>, logs: seq<Log>, nextId: nat, pinId: Id, title: string,
                             newContact: Option<Id>, notes: string, photo: Option<string>, now: int, i: nat)
    requires FindPin(pins, pinId) == Some(i)
    requires !(Renames(pins[i], title) && SiteNameTaken(pins, title))
    ensures var o := ContactEditOutcome(pins, logs, nextId, pinId, title, newContact, notes, photo, now);
      && o.result == Ok(())
      && o.pins == pins[i := Reassigned(Edited(pins[i], title, notes, photo), pins[i].repId, newContact)]
      && o.logs == logs + AssignLog(pins[i].repId, newContact, nextId, pinId, now)
  {
  }

  /** The contact edit keeps the status/contact agreement, and keeps the
      table free of double bookings when the new contact is busy at most on
      this site. */
  lemma {:induction false} ContactEditKeepsAssignments(pins: seq<Pin>, logs: seq<Log>, nextId: nat, pinId: Id,
                                                       title: string, newContact: Option<Id>, notes: string,
                                                       photo: Option<string>, now: int)
    requires Distinct(pins, PinKey)
    ensures var o := ContactEditOutcome(pins, logs, nextId, pinId, title, newContact, notes, photo, now);
      Consistent(pins) ==> Consistent(o.pins)
    ensures var o := ContactEditOutcome(pins, logs, nextId, pinId, title, newContact, notes, photo, now);
      Assignments(pins) && (newContact.Some? ==> FreeFor(pins, newContact.value, Some(pinId))) ==>
        Assignments(o.pins)
  {
    match FindPin(pins, pinId)
    case None =>
    case Some(i) =>
      var p := pins[i];
      if !(Renames(p, title) && SiteNameTaken(pins, title)) {
        var q := Edited(p, title, notes, photo);
        var edited := pins[i := q];
        RelabelKeepsAssignments(pins, i, q);
        var released := if p.repId.Some? && newContact != p.repId then edited[i := Unassigned(q)] else edited;
        var o := ContactEditOutcome(pins, logs, nextId, pinId, title, newContact, notes, photo, now);
        if newContact.Some? && newContact != p.repId {
          assert o.pins == released[i := Assigned(released[i], newContact.value)];
        } else {
          assert o.pins == released;
        }
        if Consistent(pins) {
          forall k | 0 <= k < |o.pins| ensures StatusMatchesRep(o.pins[k]) {
            if k != i {
              assert o.pins[k] == pins[k];
            }
          }
        }
        if Assignments(pins) {
          if p.repId.Some? && newContact != p.repId {
            ReleaseKeepsAssignments(edited, i, Unassigned(q));
          }
          if newContact.Some? && newContact != p.repId && FreeFor(pins, newContact.value, Some(pinId)) {
            FreeForEditedSite(pins, newContact.value, i);
            assert ActiveOnlyAt(released, newContact.value, i);
            AssignKeepsAssignments(released, i, newContact.value);
          }
        }
      }
  }

  /** With the contact unchanged, a failed lookup or a refused rename, the
      two builds' edits agree, whatever the `features/` prompts answer. */
  lemma ContactEditAgreesWithoutRepChange(pins: seq<Pin>, logs: seq<Log>, reps: seq<Rep>, nextId: nat,
                                          pinId: Id, title: string, newContact: Option<Id>, notes: string,
                                          photo: Option<string>, correction: bool, accept: bool, now: int)
    requires FindPin(pins, pinId).Some? ==> newContact == pins[FindPin(pins, pinId).value].repId
    ensures ContactEditOutcome(pins, logs, nextId, pinId, title, newContact, notes, photo, now)
         == EditOutcome(pins, logs, reps, nextId, pinId, title, newContact, notes, photo, correction, accept, now)
  {
    match FindPin(pins, pinId)
    case None =>
    case Some(i) =>
      if !(Renames(pins[i], title) && SiteNameTaken(pins, title)) {
        EditRepChange(pins, logs, reps, nextId, pinId, title, newContact, notes, photo, correction, accept, now, i);
      }
  }

  /** On a contact change the `src/` build keeps exactly the logs that the
      `features/` Correction path deletes: both leave the same sites, and
      pruning the old contact's logs for this site from the `src/` history
      gives the `features/` history. */
  lemma {:induction false} ContactEditKeepsCorrectionLogs(pins: seq<Pin>, logs: seq<Log>, reps: seq<Rep>,
                                                          nextId: nat, pinId: Id, title: string,
                                                          newContact: Option<Id>, notes: string,
                                                          photo: Option<string>, accept: bool, now: int, i: nat)
    requires FindPin(pins, pinId) == Some(i)
    requires !(Renames(pins[i], title) && SiteNameTaken(pins, title))
    requires pins[i].repId.Some? && newContact != pins[i].repId
    ensures var c := ContactEditOutcome(pins, logs, nextId, pinId, title, newContact, notes, photo, now);
      var f := EditOutcome(pins, logs, reps, nextId, pinId, title, newContact, notes, photo, true, accept, now);
      && f.result == c.result
      && f.pins == c.pins
      && f.nextId == c.nextId
      && f.logs == Drop(c.logs, LogLink, (pins[i].repId.value, pinId))
  {
    var prev := pins[i].repId;
    var c := ContactEditOutcome(pins, logs, nextId, pinId, title, newContact, notes, photo, now);
    var f := EditOutcome(pins, logs, reps, nextId, pinId, title, newContact, notes, photo, true, accept, now);
    var q := Edited(pins[i], title, notes, photo);
    var edited := pins[i := q];
    var a := ReleaseOutcome(edited, logs, reps, nextId, i, prev.value, true, accept, now);
    assert a == Outcome(Ok(()), edited[i := Unassigned(q)], Drop(logs, LogLink, (prev.value, pinId)), nextId);
    assert f == RepChangeOutcome(edited, logs, reps, nextId, i, prev, newContact, true, accept, now);
    var added := AssignLog(prev, newContact, nextId, pinId, now);
    ContactEditReassigns(pins, logs, nextId, pinId, title, newContact, notes, photo, now, i);
    DropAppend(logs, added, LogLink, (prev.value, pinId));
    if newContact.Some? {
      assert added == [Log(nextId, newContact.value, pinId, now)];
      assert LogLink(added[0]) != (prev.value, pinId);
      assert Drop(added, LogLink, (prev.value, pinId)) == added;
      assert f.pins == c.pins;
    } else {
      assert Drop(added, LogLink, (prev.value, pinId)) == [];
      assert f == a;
    }
  }

  /** `handleSubmit` of the `src/` build, with `editing` the site id when
      the form edits one: the availability check first; a refusal or a
      failure returns before any site is written; otherwise the site is
      edited or added. No log is ever removed. */
  function ContactSubmitOutcome(pins: seq<Pin>, logs: seq<Log>, reps: seq<Rep>, nextId: nat,
                                editing: Option<Id>, spot: Option<Spot>, title: string,
                                newContact: Option<Id>, notes: string, photo: Option<string>,
                                confirmed: bool, now: int): (o: Outcome<bool>)
    ensures o.result == Ok(false) ==> o.pins == pins && o.logs == logs && o.nextId == nextId
    ensures o.result == Ok(false) <==>
      Conflict(pins, newContact, editing).Some? && FindRep(reps, newContact.value).Some? && !confirmed
    ensures logs <= o.logs
  {
    var c := CheckOutcome(pins, logs, reps, nextId, newContact, editing, confirmed);
    if c.result != Ok(true) then c
    else ContactSaveOutcome(c.pins, c.logs, c.nextId, editing, spot, title, newContact, notes, photo, now)
  }

  /** The step of the `src/` `handleSubmit` after a passed check: the
      edited site is updated, or a new site is added. It never reports a
      refusal and never removes a log. */
  function ContactSaveOutcome(pins: seq<Pin>, logs: seq<Log>, nextId: nat, editing: Option<Id>,
                              spot: Option<Spot>, title: string, newContact: Option<Id>, notes: string,
                              photo: Option<string>, now: int): (o: Outcome<bool>)
    ensures o.result != Ok(false)
    ensures o.result.Err? && editing.None? ==> o.pins == pins && o.logs == logs && o.nextId == nextId
    ensures logs <= o.logs
    ensures editing.None? ==> (o.result.Ok? <==> spot.Some? && !SiteNameTaken(pins, title))
    ensures editing.None? ==> o == AddOutcome(pins, logs, nextId, spot, title, newContact, notes, photo, now)
    ensures editing.Some? ==>
      var e := ContactEditOutcome(pins, logs, nextId, editing.value, title, newContact, notes, photo, now);
      && (o.result.Err? <==> e.result.Err?) && (o.result.Err? ==> o.result.error == e.result.error)
      && o.pins == e.pins && o.logs == e.logs && o.nextId == e.nextId
  {
    if editing.Some? then
      var e := ContactEditOutcome(pins, logs, nextId, editing.value, title, newContact, notes, photo, now);
      Outcome(if e.result.Err? then Err(e.result.error) else Ok(true), e.pins, e.logs, e.nextId)
    else AddOutcome(pins, logs, nextId, spot, title, newContact, notes, photo, now)
  }

  /** The availability check composed with the edit or the add keeps both
      invariants in the `src/` build as well. */
  lemma {:induction false} ContactSubmitKeepsAssignments(pins: seq<Pin>, logs: seq<Log>, reps: seq<Rep>,
                                                         nextId: nat, editing: Option<Id>, spot: Option<Spot>,
                                                         title: string, newContact: Option<Id>, notes: string,
                                                         photo: Option<string>, confirmed: bool, now: int)
    requires Distinct(pins, PinKey)
    ensures var o := ContactSubmitOutcome(pins, logs, reps, nextId, editing, spot, title, newContact, notes,
                                          photo, confirmed, now);
      Consistent(pins) ==> Consistent(o.pins)
    ensures var o := ContactSubmitOutcome(pins, logs, reps, nextId, editing, spot, title, newContact, notes,
                                          photo, confirmed, now);
      Assignments(pins) ==> Assignments(o.pins)
  {
    var c := CheckOutcome(pins, logs, reps, nextId, newContact, editing, confirmed);
    CheckFreesRep(pins, logs, reps, nextId, newContact, editing, confirmed);
    if c.result == Ok(true) {
      assert Distinct(c.pins, PinKey) by {
        match Conflict(pins, newContact, editing)
        case None =>
        case Some(j) => ReplaceKeepsDistinct(pins, j, Completed(pins[j]), PinKey);
      }
      if editing.Some? {
        ContactEditKeepsAssignments(c.pins, c.logs, c.nextId, editing.value, title, newContact, notes, photo, now);
      } else {
        AddKeepsAssignments(c.pins, c.logs, c.nextId, spot, title, newContact, notes, photo, now);
      }
    }
  }

  /** `completePin` of the `src/` build: on accept the site becomes
      'complete' with no contact; an unknown id is refused (and reported). */
  function CompleteOutcome(pins: seq<Pin>, logs: seq<Log>, nextId: nat, id: Id, confirmed: bool): (o: Outcome<bool>)
    ensures o.logs == logs && o.nextId == nextId && |o.pins| == |pins|
    ensures o.result == Ok(true) <==> confirmed && FindPin(pins, id).Some?
    ensures o.result != Ok(true) ==> o.pins == pins
    ensures o.result == Ok(true) ==>
      var i := FindPin(pins, id).value;
      o.pins == pins[i := Completed(pins[i])]
  {
    if !confirmed then Outcome(Ok(false), pins, logs, nextId)
    else match FindPin(pins, id)
      case None => Outcome(Err(PinNotFound), pins, logs, nextId)
      case Some(i) => Outcome(Ok(true), pins[i := Completed(pins[i])], logs, nextId)
  }

  /** Completion keeps both invariants and leaves the site idle for good. */
  lemma CompleteKeepsAssignments(pins: seq<Pin>, logs: seq<Log>, nextId: nat, id: Id, confirmed: bool)
    ensures var o := CompleteOutcome(pins, logs, nextId, id, confirmed);
      Consistent(pins) ==> Consistent(o.pins)
    ensures var o := CompleteOutcome(pins, logs, nextId, id, confirmed);
      Assignments(pins) ==> Assignments(o.pins)
    ensures var o := CompleteOutcome(pins, logs, nextId, id, confirmed);
      o.result == Ok(true) ==>
        var i := FindPin(pins, id).value;
        o.pins[i].status == Complete && o.pins[i].repId.None?
  {
    if confirmed && FindPin(pins, id).Some? && Assignments(pins) {
      var i := FindPin(pins, id).value;
      ReleaseKeepsAssignments(pins, i, Completed(pins[i]));
    }
  }

  /** `handleDelete` of the `src/` build: without an edited site nothing
      happens; the site must exist (reading its title otherwise fails); on
      accept it is removed and nothing else happens. */
  function ContactDeleteOutcome(pins: seq<Pin>, logs: seq<Log>, nextId: nat, current: Option<Id>,
                                confirmed: bool): (o: Outcome<bool>)
    ensures o.logs == logs && o.nextId == nextId
    ensures o.result.Err? <==> current.Some? && FindPin(pins, current.value).None?
    ensures o.result == Ok(true) <==> current.Some? && FindPin(pins, current.value).Some? && confirmed
    ensures o.result != Ok(true) ==> o.pins == pins
    ensures o.result == Ok(true) ==> |o.pins| == |pins| - 1
  {
    if current.None? then Outcome(Ok(false), pins, logs, nextId)
    else match FindPin(pins, current.value)
      case None => Outcome(Err(MissingRecord), pins, logs, nextId)
      case Some(i) =>
        if !confirmed then Outcome(Ok(false), pins, logs, nextId)
        else Outcome(Ok(true), pins[..i] + pins[i + 1..], logs, nextId)
  }

  /** The `src/` deletion is the `features/` deletion with restoration
      always declined: a declined restoration changes nothing, and its
      failure is not reported there either. */
  lemma {:induction false} ContactDeleteIsDeclinedRestore(pins: seq<Pin>, logs: seq<Log>, reps: seq<Rep>,
                                                          nextId: nat, current: Option<Id>, confirmed: bool,
                                                          now: int)
    ensures ContactDeleteOutcome(pins, logs, nextId, current, confirmed)
         == DeleteOutcome(pins, logs, reps, nextId, current, confirmed, false, now)
  {
    if current.Some? && FindPin(pins, current.value).Some? && confirmed {
      var i := FindPin(pins, current.value).value;
      var p := pins[i];
      var remaining := pins[..i] + pins[i + 1..];
      if p.status == Active && p.repId.Some? {
        var r := RestoreOutcome(remaining, logs, reps, nextId, p.repId.value, p.id, false, now);
        assert r.result != Ok(true);
      }
    }
  }

  /** Deletion keeps both invariants and removes the edited site. */
  lemma {:induction false} ContactDeleteKeepsInvariants(pins: seq<Pin>, logs: seq<Log>, nextId: nat,
                                                        current: Option<Id>, confirmed: bool)
    ensures var o := ContactDeleteOutcome(pins, logs, nextId, current, confirmed);
      Consistent(pins) ==> Consistent(o.pins)
    ensures var o := ContactDeleteOutcome(pins, logs, nextId, current, confirmed);
      Assignments(pins) ==> Assignments(o.pins)
  {
    if current.Some? && FindPin(pins, current.value).Some? && confirmed && Assignments(pins) {
      RemoveKeepsAssignments(pins, FindPin(pins, current.value).value);
    }
  }
}
