/** The decisions the site controllers take before they touch the store:
    whether a rep is busy elsewhere, which past site a released rep may go
    back to, and what the site form writes. Both controller variants are
    specified in these terms. */
module Flow {
  import opened Domain
  import opened Seqs
  import opened Sorting
  import opened Store

  /** Where a new site goes: the chosen coordinates and their address. */
  datatype Spot = Spot(location: Location, address: string)

  /** Rep `r` is active on no site except, possibly, the one whose id is
      `current`. */
  predicate FreeFor(pins: seq<Pin>, r: Id, current: Option<Id>) {
    forall k :: 0 <= k < |pins| && ActiveHolder(pins[k]) == Some(r) ==> Some(pins[k].id) == current
  }

  /** The conflict the availability check looks for: the first site on
      which the chosen rep is active, unless it is the site being edited. */
  function Conflict(pins: seq<Pin>, r: Option<Id>, current: Option<Id>): (c: Option<nat>)
    ensures c.Some? ==> r.Some? && c.value < |pins|
    ensures c.Some? ==> ActiveHolder(pins[c.value]) == r && Some(pins[c.value].id) != current
    ensures r.None? ==> c.None?
  {
    if r.None? then None
    else match ActivePinOf(pins, r.value)
      case None => None
      case Some(j) => if Some(pins[j].id) == current then None else Some(j)
  }

  /** In a table without double bookings the check objects exactly when the
      rep is busy on another site, and completing that site leaves the rep
      busy nowhere: what the check exists to guarantee. */
  lemma {:induction false} ConflictIsBusyElsewhere(pins: seq<Pin>, r: Id, current: Option<Id>)
    requires AtMostOneActive(pins)
    ensures Conflict(pins, Some(r), current).None? <==> FreeFor(pins, r, current)
    ensures Conflict(pins, Some(r), current).Some? ==>
      var j := Conflict(pins, Some(r), current).value;
      ActiveOnlyAt(pins[j := Completed(pins[j])], r, |pins|)
  {
    match ActivePinOf(pins, r)
    case None =>
    case Some(j) =>
      HolderIsUnique(pins, j, r);
      if Some(pins[j].id) != current {
        assert !FreeFor(pins, r, current) by {
          assert ActiveHolder(pins[j]) == Some(r);
        }
      }
  }

  /** Helper: a rep free apart from the edited site is busy on no other
      index. */
  lemma FreeForEditedSite(pins: seq<Pin>, r: Id, i: nat)
    requires Distinct(pins, PinKey) && i < |pins|
    requires FreeFor(pins, r, Some(pins[i].id))
    ensures ActiveOnlyAt(pins, r, i)
  {
  }

  // ---------------------------------------------------------------------
  // Restoration of a released rep's previous site
  // ---------------------------------------------------------------------

  /** `[...logs].reverse().find(l => l.pinId !== ignore)`, as an index
      into `logs`: the last log whose site is not `ignore`. */
  function LastOtherSite(logs: seq<Log>, ignore: Id): (k: Option<nat>)
    ensures k.Some? ==> k.value < |logs| && logs[k.value].pinId != ignore
    ensures k.Some? ==> forall m :: k.value < m < |logs| ==> logs[m].pinId == ignore
    ensures k.None? ==> forall m :: 0 <= m < |logs| ==> logs[m].pinId == ignore
  {
    if logs == [] then None
    else if logs[|logs| - 1].pinId != ignore then Some(|logs| - 1)
    else LastOtherSite(logs[..|logs| - 1], ignore)
  }

  /** The log restoration looks at: among the rep's date-ordered logs, the
      last one that names a site other than `ignore`. */
  function RestoreCandidate(logs: seq<Log>, r: Id, ignore: Id): (c: Option<Log>)
    ensures c.Some? ==> c.value in logs && c.value.repId == r && c.value.pinId != ignore
    ensures c.None? <==> forall l :: l in logs && l.repId == r ==> l.pinId == ignore
  {
    var s := RepLogs(logs, r);
    match LastOtherSite(s, ignore)
    case None =>
      assert forall l :: l in s ==> exists m :: 0 <= m < |s| && s[m] == l;
      None
    case Some(k) => Some(s[k])
  }

  /** The candidate is the rep's latest log for any other site. */
  lemma RestoreCandidateIsLatest(logs: seq<Log>, r: Id, ignore: Id, l: Log)
    requires l in logs && l.repId == r && l.pinId != ignore
    ensures RestoreCandidate(logs, r, ignore).Some?
    ensures l.date <= RestoreCandidate(logs, r, ignore).value.date
  {
    var s := RepLogs(logs, r);
    var k := LastOtherSite(s, ignore).value;
    assert l in s;
    var m :| 0 <= m < |s| && s[m] == l;
    if m != k {
      assert m < k;
      assert LogDate(s[m]) <= LogDate(s[k]);
    }
  }

  /** Among the logs of `u` dated like `c` that name a site other than
      `ignore`, `c` is the one written last. */
  ghost predicate LastWrittenElsewhere(u: seq<Log>, ignore: Id, c: Log) {
    EndsWith(Drop(Keep(u, LogDate, c.date), LogSite, ignore), c)
  }

  /** Among the rep's logs for other sites that share the candidate's
      date, the candidate is the one written last: the stable date order
      keeps ties in writing order, and the backward search meets the last
      of them first. */
  lemma RestoreCandidateIsLastWritten(logs: seq<Log>, r: Id, ignore: Id)
    requires RestoreCandidate(logs, r, ignore).Some?
    ensures LastWrittenElsewhere(Keep(logs, LogRep, r), ignore, RestoreCandidate(logs, r, ignore).value)
  {
    var s := RepLogs(logs, r);
    var k := LastOtherSite(s, ignore).value;
    assert RestoreCandidate(logs, r, ignore).value == s[k];
    RepLogsKeepsInsertionOrder(logs, r, s[k].date);
    CandidateTieBreak(s, k, ignore, Keep(logs, LogRep, r));
  }

  /** Helper: when keeping the date of `s[k]` selects the same logs from
      `s` as from `u`, and every log after `k` names the ignored site,
      `s[k]` is the last log of `u` of its date for another site. */
  lemma CandidateTieBreak(s: seq<Log>, k: nat, ignore: Id, u: seq<Log>)
    requires k < |s| && s[k].pinId != ignore
    requires forall m :: k < m < |s| ==> s[m].pinId == ignore
    requires Keep(s, LogDate, s[k].date) == Keep(u, LogDate, s[k].date)
    ensures LastWrittenElsewhere(u, ignore, s[k])
  {
    KeepDropLastOf(s, k, LogDate, LogSite, ignore);
  }

  /** The site restoration would reactivate: the candidate log's site, when
      it still exists and is not active. A missing or active site ends the
      search; no older log is tried. */
  function RestoreTarget(pins: seq<Pin>, logs: seq<Log>, r: Id, ignore: Id): (t: Option<nat>)
    ensures t.Some? ==> t.value < |pins| && pins[t.value].status != Active && pins[t.value].id != ignore
    ensures t.Some? ==> RestoreCandidate(logs, r, ignore).Some?
    ensures t.Some? ==> FindPin(pins, RestoreCandidate(logs, r, ignore).value.pinId) == t
    ensures RestoreCandidate(logs, r, ignore).None? ==> t.None?
    ensures var c := RestoreCandidate(logs, r, ignore);
      c.Some? && FindPin(pins, c.value.pinId).Some? && pins[FindPin(pins, c.value.pinId).value].status != Active ==>
        t == FindPin(pins, c.value.pinId)
  {
    match RestoreCandidate(logs, r, ignore)
    case None => None
    case Some(l) =>
      match FindPin(pins, l.pinId)
      case None => None
      case Some(k) => if pins[k].status == Active then None else Some(k)
  }

  /** What a controller flow leaves behind: its verdict and the three
      collections, with the id counter. */
  datatype Outcome<T> = Outcome(result: Result<T>, pins: seq<Pin>, logs: seq<Log>, nextId: nat)

  /** `checkAndRestorePreviousSite` on the given tables: when there is a
      target, the rep must exist, and on accept the rep is assigned there
      with one log. `Ok(true)` reports a restoration. */
  function RestoreOutcome(pins: seq<Pin>, logs: seq<Log>, reps: seq<Rep>, nextId: nat,
                          r: Id, ignore: Id, accept: bool, now: int): (o: Outcome<bool>)
    ensures |o.pins| == |pins|
    ensures o.result != Ok(true) ==> o.pins == pins && o.logs == logs && o.nextId == nextId
    ensures o.result.Err? ==> o.result.error == MissingRecord
    ensures o.result == Err(MissingRecord) <==>
      RestoreTarget(pins, logs, r, ignore).Some? && FindRep(reps, r).None?
    ensures o.result == Ok(true) <==>
      RestoreTarget(pins, logs, r, ignore).Some? && FindRep(reps, r).Some? && accept
    ensures o.result == Ok(true) ==>
      var k := RestoreTarget(pins, logs, r, ignore).value;
      && o.pins == pins[k := Assigned(pins[k], r)]
      && o.logs == logs + [Log(nextId, r, pins[k].id, now)]
      && o.nextId == nextId + 1
  {
    match RestoreTarget(pins, logs, r, ignore)
    case None => Outcome(Ok(false), pins, logs, nextId)
    case Some(k) =>
      if FindRep(reps, r).None? then Outcome(Err(MissingRecord), pins, logs, nextId)
      else if accept then
        Outcome(Ok(true), pins[k := Assigned(pins[k], r)], logs + [Log(nextId, r, pins[k].id, now)], nextId + 1)
      else Outcome(Ok(false), pins, logs, nextId)
  }

  /** Restoring a rep busy nowhere keeps the table free of double bookings,
      and restoration never breaks the status/rep agreement. */
  lemma RestoreKeepsAssignments(pins: seq<Pin>, logs: seq<Log>, reps: seq<Rep>, nextId: nat,
                                r: Id, ignore: Id, accept: bool, now: int)
    ensures Consistent(pins) ==> Consistent(RestoreOutcome(pins, logs, reps, nextId, r, ignore, accept, now).pins)
    ensures Assignments(pins) && ActiveOnlyAt(pins, r, |pins|) ==>
      Assignments(RestoreOutcome(pins, logs, reps, nextId, r, ignore, accept, now).pins)
  {
    match RestoreTarget(pins, logs, r, ignore)
    case None =>
    case Some(k) =>
      if Assignments(pins) && ActiveOnlyAt(pins, r, |pins|) {
        AssignKeepsAssignments(pins, k, r);
      }
  }

  /** A concrete history: rep 7 worked at site 1 and later at site 2, which
      was then deleted. Although site 1 still exists and is idle, nothing is
      restored, because only the latest other-site log is considered. */
  lemma RestoreGivesUpOnDeletedSite()
    ensures var site1 := Pin(1, "A", "", Location(0.0, 0.0), None, New, None, "", 0);
      var logs := [Log(10, 7, 1, 100), Log(11, 7, 2, 200)];
      && RestoreTarget([site1], logs, 7, 3).None?
      && RestoreTarget([site1], logs[..1], 7, 3) == Some(0)
  {
    var site1 := Pin(1, "A", "", Location(0.0, 0.0), None, New, None, "", 0);
    var logs := [Log(10, 7, 1, 100), Log(11, 7, 2, 200)];
    RestoreCandidateIsLatest(logs, 7, 3, logs[1]);
    var c := RestoreCandidate(logs, 7, 3).value;
    assert c == logs[1] by {
      assert c in logs && c.date >= 200;
    }
    var c1 := RestoreCandidate(logs[..1], 7, 3).value;
    assert c1 in logs[..1];
  }

  // ---------------------------------------------------------------------
  // Updates the controllers hand to the store
  // ---------------------------------------------------------------------

  /** What the site form writes on edit: name, notes and photo, always
      supplied; rep and status untouched. */
  function FormUpdate(siteName: string, notes: string, photo: Option<string>): PinUpdate {
    PinUpdate(siteName, Change(photo), Change(notes), NoChange, None)
  }

  /** `{ status: 'complete', repId: null }`. */
  function CompleteUpdate(): PinUpdate {
    PinUpdate("", NoChange, NoChange, Change(None), Some(Complete))
  }

  /** The pin the site form leaves behind when the rename is allowed. */
  function Edited(p: Pin, siteName: string, notes: string, photo: Option<string>): (q: Pin)
    ensures q.id == p.id && q.repId == p.repId && q.status == p.status
    ensures ActiveHolder(q) == ActiveHolder(p)
    ensures q.siteName == (if siteName == "" then p.siteName else siteName)
    ensures q.notes == notes && q.photo == photo
    ensures q.address == p.address && q.location == p.location && q.createdAt == p.createdAt
  {
    Patched(p, if Renames(p, siteName) then siteName else p.siteName, FormUpdate(siteName, notes, photo))
  }

  /** Completing through `updatePin` is the `Completed` transition. */
  lemma CompleteUpdateCompletes(p: Pin)
    ensures Patched(p, p.siteName, CompleteUpdate()) == Completed(p)
    ensures !Renames(p, CompleteUpdate().siteName)
  {
  }

  /** The site after a rep change: assigned to the new rep when one is
      chosen and differs, released when only the old rep goes, untouched
      when the rep is the same. */
  function Reassigned(q: Pin, oldRep: Option<Id>, newRep: Option<Id>): (r: Pin)
    ensures SameDetails(q, r)
    ensures newRep == oldRep ==> r == q
    ensures newRep != oldRep ==> r.repId == newRep && StatusMatchesRep(r) && r.status != Complete
  {
    if newRep.Some? && newRep != oldRep then Assigned(q, newRep.value)
    else if oldRep.Some? && newRep != oldRep then Unassigned(q)
    else q
  }

  /** The log a rep change writes: one, exactly when a new rep is assigned. */
  function AssignLog(oldRep: Option<Id>, newRep: Option<Id>, id: Id, pinId: Id, now: int): (s: seq<Log>)
    ensures |s| <= 1
    ensures s != [] <==> newRep.Some? && newRep != oldRep
    ensures s != [] ==> s[0] == Log(id, newRep.value, pinId, now)
  {
    if newRep.Some? && newRep != oldRep then [Log(id, newRep.value, pinId, now)] else []
  }

  // ---------------------------------------------------------------------
  // The flows of the `features/` controller as functions of the tables
  // ---------------------------------------------------------------------

  /** `checkRepAvailability`: proceed unchanged without a conflict; with
      one, the rep must exist, and accepting completes the conflicting site
      while declining stops. */
  function CheckOutcome(pins: seq<Pin>, logs: seq<Log>, reps: seq<Rep>, nextId: nat,
                        r: Option<Id>, current: Option<Id>, confirmed: bool): (o: Outcome<bool>)
    ensures o.logs == logs && o.nextId == nextId && |o.pins| == |pins|
    ensures o.result.Err? ==> o.result.error == MissingRecord && o.pins == pins
    ensures o.result == Ok(false) ==> o.pins == pins
    ensures o.result == Ok(false) <==> Conflict(pins, r, current).Some? && FindRep(reps, r.value).Some? && !confirmed
    ensures Conflict(pins, r, current).None? ==> o == Outcome(Ok(true), pins, logs, nextId)
    ensures Conflict(pins, r, current).Some? ==> (o.result.Err? <==> FindRep(reps, r.value).None?)
    ensures Conflict(pins, r, current).Some? && FindRep(reps, r.value).Some? && confirmed ==>
      var j := Conflict(pins, r, current).value;
      o == Outcome(Ok(true), pins[j := Completed(pins[j])], logs, nextId)
  {
    match Conflict(pins, r, current)
    case None => Outcome(Ok(true), pins, logs, nextId)
    case Some(j) =>
      if FindRep(reps, r.value).None? then Outcome(Err(MissingRecord), pins, logs, nextId)
      else if confirmed then Outcome(Ok(true), pins[j := Completed(pins[j])], logs, nextId)
      else Outcome(Ok(false), pins, logs, nextId)
  }

  /** When the check lets the caller proceed, the rep is busy at most on the
      site being edited, and no double booking was introduced. */
  lemma CheckFreesRep(pins: seq<Pin>, logs: seq<Log>, reps: seq<Rep>, nextId: nat,
                      r: Option<Id>, current: Option<Id>, confirmed: bool)
    ensures var o := CheckOutcome(pins, logs, reps, nextId, r, current, confirmed);
      Consistent(pins) ==> Consistent(o.pins)
    ensures var o := CheckOutcome(pins, logs, reps, nextId, r, current, confirmed);
      Assignments(pins) ==> Assignments(o.pins)
    ensures var o := CheckOutcome(pins, logs, reps, nextId, r, current, confirmed);
      AtMostOneActive(pins) && o.result == Ok(true) && r.Some? ==> FreeFor(o.pins, r.value, current)
  {
    if r.Some? && AtMostOneActive(pins) {
      ConflictIsBusyElsewhere(pins, r.value, current);
    }
    match Conflict(pins, r, current)
    case None =>
    case Some(j) =>
      if Assignments(pins) {
        ReleaseKeepsAssignments(pins, j, Completed(pins[j]));
      }
  }

  /** Condition A of `handlePinUpdate`, on the tables after the form was
      written: release the old rep from site `i`, then delete every log
      pairing that rep with the site (Correction) or run restoration for
      the rep, ignoring the site (Handover). */
  function ReleaseOutcome(pins: seq<Pin>, logs: seq<Log>, reps: seq<Rep>, nextId: nat, i: nat,
                          oldRep: Id, correction: bool, accept: bool, now: int): (o: Outcome<()>)
    requires i < |pins|
    ensures |o.pins| == |pins| && o.pins[i] == Unassigned(pins[i])
    ensures o.result.Err? ==> o.result.error == MissingRecord
    ensures correction ==> o == Outcome(Ok(()), pins[i := Unassigned(pins[i])], Drop(logs, LogLink, (oldRep, pins[i].id)), nextId)
    ensures !correction ==> logs <= o.logs && |o.logs| <= |logs| + 1
    ensures !correction ==>
      var ro := RestoreOutcome(pins[i := Unassigned(pins[i])], logs, reps, nextId, oldRep, pins[i].id, accept, now);
      && (o.result.Err? <==> ro.result.Err?)
      && o.pins == ro.pins && o.logs == ro.logs && o.nextId == ro.nextId
  {
    var released := pins[i := Unassigned(pins[i])];
    if correction then Outcome(Ok(()), released, Drop(logs, LogLink, (oldRep, pins[i].id)), nextId)
    else
      var o := RestoreOutcome(released, logs, reps, nextId, oldRep, pins[i].id, accept, now);
      Outcome(if o.result.Err? then Err(o.result.error) else Ok(()), o.pins, o.logs, o.nextId)
  }

  /** `handlePinUpdate` of the `features/` build: write name, notes and
      photo; on a rep change release the old rep (Condition A); then assign
      a new, different rep (Condition B). */
  function EditOutcome(pins: seq<Pin>, logs: seq<Log>, reps: seq<Rep>, nextId: nat, pinId: Id,
                       name: string, newRep: Option<Id>, notes: string, photo: Option<string>,
                       correction: bool, accept: bool, now: int): (o: Outcome<()>)
    ensures |o.pins| == |pins|
    ensures FindPin(pins, pinId).None? ==> o == Outcome(Err(PinNotFound), pins, logs, nextId)
    ensures FindPin(pins, pinId).Some? && Renames(pins[FindPin(pins, pinId).value], name) &&
            SiteNameTaken(pins, name) ==>
      o == Outcome(Err(DuplicateSiteName(name)), pins, logs, nextId)
    ensures o.result.Err? && o.result.error != MissingRecord ==>
      o.pins == pins && o.logs == logs && o.nextId == nextId
  {
    match FindPin(pins, pinId)
    case None => Outcome(Err(PinNotFound), pins, logs, nextId)
    case Some(i) =>
      var p := pins[i];
      if Renames(p, name) && SiteNameTaken(pins, name) then
        Outcome(Err(DuplicateSiteName(name)), pins, logs, nextId)
      else
        RepChangeOutcome(pins[i := Edited(p, name, notes, photo)], logs, reps, nextId, i, p.repId, newRep,
                         correction, accept, now)
  }

  /** Conditions A and B of `handlePinUpdate` for site `i`, whose rep was
      `oldRep`: when the chosen rep differs, release the old one; unless
      that failed, assign a new, different rep, which writes one log. */
  function RepChangeOutcome(pins: seq<Pin>, logs: seq<Log>, reps: seq<Rep>, nextId: nat, i: nat,
                            oldRep: Option<Id>, newRep: Option<Id>, correction: bool, accept: bool,
                            now: int): (o: Outcome<()>)
    requires i < |pins|
    ensures |o.pins| == |pins|
    ensures o.result.Err? ==> o.result.error == MissingRecord
    ensures newRep == oldRep ==> o == Outcome(Ok(()), pins, logs, nextId)
  {
    var a := if oldRep.Some? && newRep != oldRep
      then ReleaseOutcome(pins, logs, reps, nextId, i, oldRep.value, correction, accept, now)
      else Outcome(Ok(()), pins, logs, nextId);
    if a.result.Err? || !(newRep.Some? && newRep != oldRep) then a
    else Outcome(Ok(()), a.pins[i := Assigned(a.pins[i], newRep.value)],
                 a.logs + [Log(a.nextId, newRep.value, pins[i].id, now)], a.nextId + 1)
  }

  /** Releasing the old rep keeps both invariants, and leaves another rep
      that was busy at most on this site busy at most here. */
  lemma {:induction false} ReleaseKeepsInvariants(pins: seq<Pin>, logs: seq<Log>, reps: seq<Rep>, nextId: nat,
                                                  i: nat, oldRep: Id, correction: bool, accept: bool, now: int,
                                                  other: Id)
    requires i < |pins|
    ensures var o := ReleaseOutcome(pins, logs, reps, nextId, i, oldRep, correction, accept, now);
      Consistent(pins) ==> Consistent(o.pins)
    ensures var o := ReleaseOutcome(pins, logs, reps, nextId, i, oldRep, correction, accept, now);
      Assignments(pins) && ActiveHolder(pins[i]) == Some(oldRep) ==> Assignments(o.pins)
    ensures var o := ReleaseOutcome(pins, logs, reps, nextId, i, oldRep, correction, accept, now);
      other != oldRep && ActiveOnlyAt(pins, other, i) ==> ActiveOnlyAt(o.pins, other, i)
  {
    var q := Unassigned(pins[i]);
    var released := pins[i := q];
    if Assignments(pins) && ActiveHolder(pins[i]) == Some(oldRep) {
      ReleaseKeepsAssignments(pins, i, q);
      HolderIsUnique(pins, i, oldRep);
      assert ActiveOnlyAt(released, oldRep, |released|);
    }
    if !correction {
      RestoreKeepsAssignments(released, logs, reps, nextId, oldRep, pins[i].id, accept, now);
      var ro := RestoreOutcome(released, logs, reps, nextId, oldRep, pins[i].id, accept, now);
      if other != oldRep && ActiveOnlyAt(pins, other, i) && ro.result == Ok(true) {
        var k := RestoreTarget(released, logs, oldRep, pins[i].id).value;
        assert ActiveHolder(ro.pins[k]) == Some(oldRep);
      }
    }
  }

  /** `handlePinUpdate` keeps the status/rep agreement, and keeps the table
      free of double bookings when the new rep is busy at most on this site
      (what the availability check establishes). */
  lemma {:induction false} EditKeepsAssignments(pins: seq<Pin>, logs: seq<Log>, reps: seq<Rep>, nextId: nat,
                                                pinId: Id, name: string, newRep: Option<Id>, notes: string,
                                                photo: Option<string>, correction: bool, accept: bool, now: int)
    requires Distinct(pins, PinKey)
    ensures var o := EditOutcome(pins, logs, reps, nextId, pinId, name, newRep, notes, photo, correction, accept, now);
      Consistent(pins) ==> Consistent(o.pins)
    ensures var o := EditOutcome(pins, logs, reps, nextId, pinId, name, newRep, notes, photo, correction, accept, now);
      Assignments(pins) && (newRep.Some? ==> FreeFor(pins, newRep.value, Some(pinId))) ==> Assignments(o.pins)
  {
    match FindPin(pins, pinId)
    case None =>
    case Some(i) =>
      var p := pins[i];
      if !(Renames(p, name) && SiteNameTaken(pins, name)) {
        var q := Edited(p, name, notes, photo);
        var edited := pins[i := q];
        var keeps := Assignments(pins) && (newRep.Some? ==> FreeFor(pins, newRep.value, Some(pinId)));
        RelabelKeepsAssignments(pins, i, q);
        if keeps && newRep.Some? {
          FreeForEditedSite(pins, newRep.value, i);
          assert ActiveOnlyAt(edited, newRep.value, i);
        }
        RepChangeKeepsInvariants(edited, logs, reps, nextId, i, p.repId, newRep, correction, accept, now);
      }
  }

  /** The rep change keeps the status/rep agreement, and keeps the table
      free of double bookings when the new rep is active nowhere but on
      this site. */
  lemma {:induction false} RepChangeKeepsInvariants(pins: seq<Pin>, logs: seq<Log>, reps: seq<Rep>, nextId: nat,
                                                    i: nat, oldRep: Option<Id>, newRep: Option<Id>,
                                                    correction: bool, accept: bool, now: int)
    requires i < |pins| && pins[i].repId == oldRep
    ensures var o := RepChangeOutcome(pins, logs, reps, nextId, i, oldRep, newRep, correction, accept, now);
      Consistent(pins) ==> Consistent(o.pins)
    ensures var o := RepChangeOutcome(pins, logs, reps, nextId, i, oldRep, newRep, correction, accept, now);
      Assignments(pins) && (newRep.Some? ==> ActiveOnlyAt(pins, newRep.value, i)) ==> Assignments(o.pins)
  {
    var a := if oldRep.Some? && newRep != oldRep
      then ReleaseOutcome(pins, logs, reps, nextId, i, oldRep.value, correction, accept, now)
      else Outcome(Ok(()), pins, logs, nextId);
    if oldRep.Some? && newRep != oldRep {
      if Assignments(pins) {
        assert StatusMatchesRep(pins[i]);
      }
      ReleaseKeepsInvariants(pins, logs, reps, nextId, i, oldRep.value, correction, accept, now,
                             if newRep.Some? then newRep.value else oldRep.value);
    }
    if !a.result.Err? && newRep.Some? && newRep != oldRep {
      if Assignments(pins) && ActiveOnlyAt(pins, newRep.value, i) {
        AssignKeepsAssignments(a.pins, i, newRep.value);
      }
    }
  }

  /** What `handlePinUpdate` does to the edited site and to the history:
      the site ends with the new rep (released when none is chosen); with
      an unchanged rep only name, notes and photo change and nothing is
      logged; a Correction deletes exactly the old rep's logs for this site
      and logs the new assignment; a Handover deletes no log. */
  lemma {:induction false} EditRepChange(pins: seq<Pin>, logs: seq<Log>, reps: seq<Rep>, nextId: nat,
                                         pinId: Id, name: string, newRep: Option<Id>, notes: string,
                                         photo: Option<string>, correction: bool, accept: bool, now: int, i: nat)
    requires FindPin(pins, pinId) == Some(i)
    requires !(Renames(pins[i], name) && SiteNameTaken(pins, name))
    ensures var o := EditOutcome(pins, logs, reps, nextId, pinId, name, newRep, notes, photo, correction, accept, now);
      o.result.Ok? ==> o.pins[i] == Reassigned(Edited(pins[i], name, notes, photo), pins[i].repId, newRep)
    ensures var o := EditOutcome(pins, logs, reps, nextId, pinId, name, newRep, notes, photo, correction, accept, now);
      newRep == pins[i].repId ==>
        o == Outcome(Ok(()), pins[i := Edited(pins[i], name, notes, photo)], logs, nextId)
    ensures var o := EditOutcome(pins, logs, reps, nextId, pinId, name, newRep, notes, photo, correction, accept, now);
      pins[i].repId.Some? && newRep != pins[i].repId && correction ==>
        && o.result.Ok?
        && o.logs == Drop(logs, LogLink, (pins[i].repId.value, pinId))
                     + AssignLog(pins[i].repId, newRep, nextId, pinId, now)
    ensures var o := EditOutcome(pins, logs, reps, nextId, pinId, name, newRep, notes, photo, correction, accept, now);
      !correction ==> logs <= o.logs
    ensures var o := EditOutcome(pins, logs, reps, nextId, pinId, name, newRep, notes, photo, correction, accept, now);
      pins[i].repId.Some? && newRep != pins[i].repId && !correction ==>
        var ro := RestoreOutcome(pins[i := Unassigned(Edited(pins[i], name, notes, photo))], logs, reps, nextId,
                                 pins[i].repId.value, pinId, accept, now);
        && (ro.result.Err? ==> o == Outcome(Err(MissingRecord), ro.pins, ro.logs, ro.nextId))
        && (ro.result.Ok? ==>
              o.result.Ok? && o.logs == ro.logs + AssignLog(pins[i].repId, newRep, ro.nextId, pinId, now))
  {
    var oldRep := pins[i].repId;
    if oldRep.Some? && newRep != oldRep {
      if correction {
        EditCorrectionTables(pins, logs, reps, nextId, pinId, name, newRep, notes, photo, accept, now, i);
      } else {
        EditHandoverTables(pins, logs, reps, nextId, pinId, name, newRep, notes, photo, accept, now, i);
        var ro := RestoreOutcome(pins[i := Unassigned(Edited(pins[i], name, notes, photo))], logs, reps, nextId,
                                 oldRep.value, pinId, accept, now);
        assert logs <= ro.logs;
      }
    } else {
      EditWithoutRelease(pins, logs, reps, nextId, pinId, name, newRep, notes, photo, correction, accept, now, i);
    }
  }

  /** The tables after `handlePinUpdate` when no rep is released (the rep
      is unchanged, or the site had none): the site is rewritten and
      reassigned, and only an assignment log is added. */
  lemma {:induction false} EditWithoutRelease(pins: seq<Pin>, logs: seq<Log>, reps: seq<Rep>, nextId: nat,
                                              pinId: Id, name: string, newRep: Option<Id>, notes: string,
                                              photo: Option<string>, correction: bool, accept: bool, now: int,
                                              i: nat)
    requires FindPin(pins, pinId) == Some(i)
    requires !(Renames(pins[i], name) && SiteNameTaken(pins, name))
    requires !(pins[i].repId.Some? && newRep != pins[i].repId)
    ensures var o := EditOutcome(pins, logs, reps, nextId, pinId, name, newRep, notes, photo, correction, accept, now);
      && o.result == Ok(())
      && o.pins == pins[i := Reassigned(Edited(pins[i], name, notes, photo), pins[i].repId, newRep)]
      && o.logs == logs + AssignLog(pins[i].repId, newRep, nextId, pinId, now)
      && o.nextId == nextId + |AssignLog(pins[i].repId, newRep, nextId, pinId, now)|
  {
    var q := Edited(pins[i], name, notes, photo);
    var edited := pins[i := q];
    assert edited[i] == q && q.id == pinId;
    assert EditOutcome(pins, logs, reps, nextId, pinId, name, newRep, notes, photo, correction, accept, now)
      == RepChangeOutcome(edited, logs, reps, nextId, i, pins[i].repId, newRep, correction, accept, now);
    assert edited[i := Reassigned(q, pins[i].repId, newRep)] == pins[i := Reassigned(q, pins[i].repId, newRep)];
  }

  /** The tables after a Correction in `handlePinUpdate`: every other site
      stays as it was, the edited one is reassigned, and one id is drawn
      per assignment log. */
  lemma {:induction false} EditCorrectionTables(pins: seq<Pin>, logs: seq<Log>, reps: seq<Rep>, nextId: nat,
                                                pinId: Id, name: string, newRep: Option<Id>, notes: string,
                                                photo: Option<string>, accept: bool, now: int, i: nat)
    requires FindPin(pins, pinId) == Some(i)
    requires !(Renames(pins[i], name) && SiteNameTaken(pins, name))
    requires pins[i].repId.Some? && newRep != pins[i].repId
    ensures var o := EditOutcome(pins, logs, reps, nextId, pinId, name, newRep, notes, photo, true, accept, now);
      && o.result.Ok?
      && o.pins == pins[i := Reassigned(Edited(pins[i], name, notes, photo), pins[i].repId, newRep)]
      && o.logs == Drop(logs, LogLink, (pins[i].repId.value, pinId)) + AssignLog(pins[i].repId, newRep, nextId, pinId, now)
      && o.nextId == nextId + |AssignLog(pins[i].repId, newRep, nextId, pinId, now)|
  {
    var oldRep := pins[i].repId;
    var q := Edited(pins[i], name, notes, photo);
    var edited := pins[i := q];
    assert edited[i] == q && q.id == pinId;
    RepChangeAfterRelease(edited, logs, reps, nextId, i, oldRep.value, newRep, true, accept, now);
    var released := pins[i := Unassigned(q)];
    assert edited[i := Unassigned(edited[i])] == released;
    assert released[i := Reassigned(q, oldRep, newRep)] == pins[i := Reassigned(q, oldRep, newRep)];
  }

  /** The tables after a successful Handover in `handlePinUpdate`: the
      sites restoration left, with the edited site reassigned, and the
      assignment log's id drawn after restoration's. */
  lemma {:induction false} EditHandoverTables(pins: seq<Pin>, logs: seq<Log>, reps: seq<Rep>, nextId: nat,
                                              pinId: Id, name: string, newRep: Option<Id>, notes: string,
                                              photo: Option<string>, accept: bool, now: int, i: nat)
    requires FindPin(pins, pinId) == Some(i)
    requires !(Renames(pins[i], name) && SiteNameTaken(pins, name))
    requires pins[i].repId.Some? && newRep != pins[i].repId
    ensures var o := EditOutcome(pins, logs, reps, nextId, pinId, name, newRep, notes, photo, false, accept, now);
      var ro := RestoreOutcome(pins[i := Unassigned(Edited(pins[i], name, notes, photo))], logs, reps, nextId,
                               pins[i].repId.value, pinId, accept, now);
      && (ro.result.Err? ==> o == Outcome(Err(MissingRecord), ro.pins, ro.logs, ro.nextId))
      && (ro.result.Ok? ==>
            && o.result.Ok?
            && o.pins == ro.pins[i := Reassigned(Edited(pins[i], name, notes, photo), pins[i].repId, newRep)]
            && o.logs == ro.logs + AssignLog(pins[i].repId, newRep, ro.nextId, pinId, now)
            && o.nextId == ro.nextId + |AssignLog(pins[i].repId, newRep, ro.nextId, pinId, now)|)
  {
    var oldRep := pins[i].repId;
    var q := Edited(pins[i], name, notes, photo);
    var edited := pins[i := q];
    assert edited[i] == q && q.id == pinId;
    assert edited[i := Unassigned(edited[i])] == pins[i := Unassigned(q)];
    var ro := RestoreOutcome(pins[i := Unassigned(q)], logs, reps, nextId, oldRep.value, pinId, accept, now);
    var a := ReleaseOutcome(edited, logs, reps, nextId, i, oldRep.value, false, accept, now);
    assert a.pins == ro.pins && a.logs == ro.logs && a.nextId == ro.nextId && (a.result.Ok? <==> ro.result.Ok?);
    if ro.result.Err? {
      assert a.result == Err(MissingRecord);
    }
    RepChangeAfterRelease(edited, logs, reps, nextId, i, oldRep.value, newRep, false, accept, now);
    assert EditOutcome(pins, logs, reps, nextId, pinId, name, newRep, notes, photo, false, accept, now)
      == RepChangeOutcome(edited, logs, reps, nextId, i, oldRep, newRep, false, accept, now);
  }

  /** Helper: once releasing the old rep succeeded, the rep change
      reassigns the site on the released tables and writes its log after
      them. */
  lemma RepChangeAfterRelease(pins: seq<Pin>, logs: seq<Log>, reps: seq<Rep>, nextId: nat, i: nat,
                              oldRep: Id, newRep: Option<Id>, correction: bool, accept: bool, now: int)
    requires i < |pins| && newRep != Some(oldRep)
    ensures var a := ReleaseOutcome(pins, logs, reps, nextId, i, oldRep, correction, accept, now);
      var o := RepChangeOutcome(pins, logs, reps, nextId, i, Some(oldRep), newRep, correction, accept, now);
      a.result.Err? ==> o == a
    ensures var a := ReleaseOutcome(pins, logs, reps, nextId, i, oldRep, correction, accept, now);
      var o := RepChangeOutcome(pins, logs, reps, nextId, i, Some(oldRep), newRep, correction, accept, now);
      a.result.Ok? ==>
        && o.result.Ok?
        && o.pins == a.pins[i := Reassigned(pins[i], Some(oldRep), newRep)]
        && o.logs == a.logs + AssignLog(Some(oldRep), newRep, a.nextId, pins[i].id, now)
        && o.nextId == a.nextId + |AssignLog(Some(oldRep), newRep, a.nextId, pins[i].id, now)|
  {
    var a := ReleaseOutcome(pins, logs, reps, nextId, i, oldRep, correction, accept, now);
    assert a.pins[i] == Unassigned(pins[i]);
    if newRep.None? {
      assert a.pins[i := Unassigned(pins[i])] == a.pins;
    }
  }

  /** `handleDelete` of the `features/` build: without an edited site
      nothing happens; the site must exist (reading its name otherwise
      fails); on accept it is removed, and when it was active with a rep,
      restoration runs for that rep, ignoring the removed site. A failing
      restoration is not reported: it runs without being awaited. */
  function DeleteOutcome(pins: seq<Pin>, logs: seq<Log>, reps: seq<Rep>, nextId: nat,
                         current: Option<Id>, confirmed: bool, accept: bool, now: int): (o: Outcome<bool>)
    ensures o.result.Err? ==> o == Outcome(Err(MissingRecord), pins, logs, nextId)
    ensures o.result.Err? <==> current.Some? && FindPin(pins, current.value).None?
    ensures o.result == Ok(false) ==> o.pins == pins && o.logs == logs && o.nextId == nextId
    ensures o.result == Ok(true) ==> |o.pins| == |pins| - 1
    ensures o.result == Ok(true) <==> current.Some? && FindPin(pins, current.value).Some? && confirmed
    ensures o.result == Ok(true) ==>
      var p := pins[FindPin(pins, current.value).value];
      p.status == Active && p.repId.Some? ==>
        var i := FindPin(pins, current.value).value;
        var ro := RestoreOutcome(pins[..i] + pins[i + 1..], logs, reps, nextId, p.repId.value, p.id, accept, now);
        o.pins == ro.pins && o.logs == ro.logs && o.nextId == ro.nextId
  {
    if current.None? then Outcome(Ok(false), pins, logs, nextId)
    else match FindPin(pins, current.value)
      case None => Outcome(Err(MissingRecord), pins, logs, nextId)
      case Some(i) =>
        if !confirmed then Outcome(Ok(false), pins, logs, nextId)
        else
          var p := pins[i];
          var remaining := pins[..i] + pins[i + 1..];
          if p.status == Active && p.repId.Some? then
            var r := RestoreOutcome(remaining, logs, reps, nextId, p.repId.value, p.id, accept, now);
            Outcome(Ok(true), r.pins, r.logs, r.nextId)
          else Outcome(Ok(true), remaining, logs, nextId)
  }

  /** Deleting keeps both invariants; the deleted site is gone, no log is
      removed, and nothing but the removal happens unless the site was
      active with a rep. */
  lemma {:induction false} DeleteKeepsInvariants(pins: seq<Pin>, logs: seq<Log>, reps: seq<Rep>, nextId: nat,
                                                 current: Option<Id>, confirmed: bool, accept: bool, now: int)
    requires Distinct(pins, PinKey)
    ensures var o := DeleteOutcome(pins, logs, reps, nextId, current, confirmed, accept, now);
      Consistent(pins) ==> Consistent(o.pins)
    ensures var o := DeleteOutcome(pins, logs, reps, nextId, current, confirmed, accept, now);
      Assignments(pins) ==> Assignments(o.pins)
    ensures var o := DeleteOutcome(pins, logs, reps, nextId, current, confirmed, accept, now);
      o.result == Ok(true) ==> logs <= o.logs && forall q :: q in o.pins ==> q.id != current.value
    ensures var o := DeleteOutcome(pins, logs, reps, nextId, current, confirmed, accept, now);
      o.result == Ok(true) && !(pins[FindPin(pins, current.value).value].status == Active &&
                                pins[FindPin(pins, current.value).value].repId.Some?) ==>
        var i := FindPin(pins, current.value).value;
        o.pins == pins[..i] + pins[i + 1..] && o.logs == logs && o.nextId == nextId
  {
    if current.Some? && FindPin(pins, current.value).Some? && confirmed {
      var i := FindPin(pins, current.value).value;
      var p := pins[i];
      var remaining := pins[..i] + pins[i + 1..];
      RemovedSiteFacts(pins, i);
      if p.status == Active && p.repId.Some? {
        RestoreKeepsAssignments(remaining, logs, reps, nextId, p.repId.value, p.id, accept, now);
        RestoreKeepsIds(remaining, logs, reps, nextId, p.repId.value, p.id, accept, now, p.id);
      }
    }
  }

  /** Removing the site at `i` leaves no site with its id and keeps both
      invariants; the rep it held actively is then active nowhere. */
  lemma RemovedSiteFacts(pins: seq<Pin>, i: nat)
    requires Distinct(pins, PinKey) && i < |pins|
    ensures var remaining := pins[..i] + pins[i + 1..];
      && (forall q :: q in remaining ==> q.id != pins[i].id)
      && (Consistent(pins) ==> Consistent(remaining))
      && (Assignments(pins) ==> Assignments(remaining))
      && (Assignments(pins) && ActiveHolder(pins[i]).Some? ==>
            ActiveOnlyAt(remaining, ActiveHolder(pins[i]).value, |remaining|))
  {
    var remaining := pins[..i] + pins[i + 1..];
    forall m | 0 <= m < |remaining|
      ensures remaining[m] == pins[if m < i then m else m + 1] && remaining[m].id != pins[i].id
    {
      var m' := if m < i then m else m + 1;
      assert PinKey(pins[m']) != PinKey(pins[i]);
    }
    if Assignments(pins) {
      RemoveKeepsAssignments(pins, i);
      if ActiveHolder(pins[i]).Some? {
        HolderIsUnique(pins, i, ActiveHolder(pins[i]).value);
      }
    }
  }

  /** Restoration relabels no site: an id absent before is absent after. */
  lemma RestoreKeepsIds(pins: seq<Pin>, logs: seq<Log>, reps: seq<Rep>, nextId: nat,
                        r: Id, ignore: Id, accept: bool, now: int, x: Id)
    ensures (forall q :: q in pins ==> q.id != x) ==>
      forall q :: q in RestoreOutcome(pins, logs, reps, nextId, r, ignore, accept, now).pins ==> q.id != x
  {
    var o := RestoreOutcome(pins, logs, reps, nextId, r, ignore, accept, now);
    if o.result == Ok(true) && forall q :: q in pins ==> q.id != x {
      var k := RestoreTarget(pins, logs, r, ignore).value;
      forall q | q in o.pins ensures q.id != x {
        var m :| 0 <= m < |o.pins| && o.pins[m] == q;
        assert pins[m] in pins;
      }
    }
  }

  /** The add branch of `handleSubmit`: the form must hold a location
      (reading its address otherwise fails); then `addPin` runs. */
  function AddOutcome(pins: seq<Pin>, logs: seq<Log>, nextId: nat, spot: Option<Spot>, siteName: string,
                      newRep: Option<Id>, notes: string, photo: Option<string>, now: int): (o: Outcome<bool>)
    ensures o.result.Err? ==> o.pins == pins && o.logs == logs && o.nextId == nextId
    ensures o.result.Ok? <==> spot.Some? && !SiteNameTaken(pins, siteName)
    ensures spot.None? ==> o.result == Err(MissingRecord)
    ensures spot.Some? && SiteNameTaken(pins, siteName) ==> o.result == Err(DuplicateSiteName(siteName))
    ensures o.result.Ok? ==>
      o.pins == pins + [NewPin(nextId, PinDraft(siteName, spot.value.address, spot.value.location, newRep, photo, notes), now)]
    ensures o.result.Ok? ==> o.nextId == nextId + 1 + |AssignLog(None, newRep, nextId + 1, nextId, now)|
    ensures o.result.Ok? ==> o.result.value && |o.pins| == |pins| + 1 && o.pins[..|pins|] == pins
    ensures o.result.Ok? ==> o.pins[|pins|].repId == newRep && o.pins[|pins|].siteName == siteName
    ensures o.result.Ok? ==> StatusMatchesRep(o.pins[|pins|]) && o.pins[|pins|].id == nextId
    ensures o.result.Ok? ==> o.logs == logs + AssignLog(None, newRep, nextId + 1, nextId, now)
  {
    if spot.None? then Outcome(Err(MissingRecord), pins, logs, nextId)
    else if SiteNameTaken(pins, siteName) then Outcome(Err(DuplicateSiteName(siteName)), pins, logs, nextId)
    else
      var pin := NewPin(nextId, PinDraft(siteName, spot.value.address, spot.value.location, newRep, photo, notes), now);
      Outcome(Ok(true), pins + [pin], logs + AssignLog(None, newRep, nextId + 1, nextId, now),
              nextId + (if newRep.Some? then 2 else 1))
  }

  /** `handleSubmit` of the `features/` build, with `editing` the site id
      when the form edits one: the availability check first; a refusal
      (`Ok(false)`) or a failure returns before any site is written;
      otherwise the site is edited or added. Whatever the check completed
      stays completed if the later step fails. */
  function SubmitOutcome(pins: seq<Pin>, logs: seq<Log>, reps: seq<Rep>, nextId: nat,
                         editing: Option<Id>, spot: Option<Spot>, siteName: string, newRep: Option<Id>,
                         notes: string, photo: Option<string>, confirmed: bool, correction: bool,
                         accept: bool, now: int): (o: Outcome<bool>)
    ensures o.result == Ok(false) ==> o.pins == pins && o.logs == logs && o.nextId == nextId
    ensures o.result == Ok(false) <==>
      Conflict(pins, newRep, editing).Some? && FindRep(reps, newRep.value).Some? && !confirmed
  {
    var c := CheckOutcome(pins, logs, reps, nextId, newRep, editing, confirmed);
    if c.result != Ok(true) then c
    else SaveOutcome(c.pins, c.logs, reps, c.nextId, editing, spot, siteName, newRep, notes, photo,
                     correction, accept, now)
  }

  /** The step of `handleSubmit` after a passed check: the edited site is
      updated, or a new site is added. It never reports a refusal. */
  function SaveOutcome(pins: seq<Pin>, logs: seq<Log>, reps: seq<Rep>, nextId: nat,
                       editing: Option<Id>, spot: Option<Spot>, siteName: string, newRep: Option<Id>,
                       notes: string, photo: Option<string>, correction: bool, accept: bool, now: int)
    : (o: Outcome<bool>)
    ensures o.result != Ok(false)
    ensures o.result.Err? && editing.None? ==> o.pins == pins && o.logs == logs && o.nextId == nextId
    ensures editing.None? ==> (o.result.Ok? <==> spot.Some? && !SiteNameTaken(pins, siteName))
    ensures editing.None? ==> o == AddOutcome(pins, logs, nextId, spot, siteName, newRep, notes, photo, now)
    ensures editing.Some? ==>
      var e := EditOutcome(pins, logs, reps, nextId, editing.value, siteName, newRep, notes, photo,
                           correction, accept, now);
      && (o.result.Err? <==> e.result.Err?) && (o.result.Err? ==> o.result.error == e.result.error)
      && o.pins == e.pins && o.logs == e.logs && o.nextId == e.nextId
  {
    if editing.Some? then
      var e := EditOutcome(pins, logs, reps, nextId, editing.value, siteName, newRep, notes, photo,
                           correction, accept, now);
      Outcome(if e.result.Err? then Err(e.result.error) else Ok(true), e.pins, e.logs, e.nextId)
    else AddOutcome(pins, logs, nextId, spot, siteName, newRep, notes, photo, now)
  }

  /** Saving keeps the status/rep agreement, and keeps the table free of
      double bookings when the new rep is busy on no other site. */
  lemma {:induction false} SaveKeepsAssignments(pins: seq<Pin>, logs: seq<Log>, reps: seq<Rep>, nextId: nat,
                                                editing: Option<Id>, spot: Option<Spot>, siteName: string,
                                                newRep: Option<Id>, notes: string, photo: Option<string>,
                                                correction: bool, accept: bool, now: int)
    requires Distinct(pins, PinKey)
    ensures var o := SaveOutcome(pins, logs, reps, nextId, editing, spot, siteName, newRep, notes, photo,
                                 correction, accept, now);
      Consistent(pins) ==> Consistent(o.pins)
    ensures var o := SaveOutcome(pins, logs, reps, nextId, editing, spot, siteName, newRep, notes, photo,
                                 correction, accept, now);
      Assignments(pins) && (newRep.Some? ==> FreeFor(pins, newRep.value, editing)) ==> Assignments(o.pins)
  {
    if editing.Some? {
      EditKeepsAssignments(pins, logs, reps, nextId, editing.value, siteName, newRep, notes, photo,
                           correction, accept, now);
    } else {
      AddKeepsAssignments(pins, logs, nextId, spot, siteName, newRep, notes, photo, now);
    }
  }

  /** Adding a site keeps the status/rep agreement, and keeps the table
      free of double bookings when the new site's rep is busy nowhere. */
  lemma AddKeepsAssignments(pins: seq<Pin>, logs: seq<Log>, nextId: nat, spot: Option<Spot>, siteName: string,
                            newRep: Option<Id>, notes: string, photo: Option<string>, now: int)
    ensures var o := AddOutcome(pins, logs, nextId, spot, siteName, newRep, notes, photo, now);
      Consistent(pins) ==> Consistent(o.pins)
    ensures var o := AddOutcome(pins, logs, nextId, spot, siteName, newRep, notes, photo, now);
      Assignments(pins) && (newRep.Some? ==> FreeFor(pins, newRep.value, None)) ==> Assignments(o.pins)
  {
    var a := AddOutcome(pins, logs, nextId, spot, siteName, newRep, notes, photo, now);
    if a.result.Ok? {
      var q := a.pins[|pins|];
      assert a.pins == pins + [q];
      if Assignments(pins) && newRep.Some? && FreeFor(pins, newRep.value, None) {
        assert ActiveOnlyAt(pins, newRep.value, |pins|);
      }
      if Assignments(pins) && (newRep.Some? ==> FreeFor(pins, newRep.value, None)) {
        AppendKeepsAssignments(pins, q);
      }
      if Consistent(pins) {
        assert forall k :: 0 <= k < |pins| ==> a.pins[k] == pins[k];
      }
    }
  }

  /** The availability check composed with the edit or the add keeps both
      invariants: no flow of the form creates a double booking. */
  lemma {:induction false} SubmitKeepsAssignments(pins: seq<Pin>, logs: seq<Log>, reps: seq<Rep>, nextId: nat,
                                                  editing: Option<Id>, spot: Option<Spot>, siteName: string,
                                                  newRep: Option<Id>, notes: string, photo: Option<string>,
                                                  confirmed: bool, correction: bool, accept: bool, now: int)
    requires Distinct(pins, PinKey)
    ensures var o := SubmitOutcome(pins, logs, reps, nextId, editing, spot, siteName, newRep, notes, photo,
                                   confirmed, correction, accept, now);
      Consistent(pins) ==> Consistent(o.pins)
    ensures var o := SubmitOutcome(pins, logs, reps, nextId, editing, spot, siteName, newRep, notes, photo,
                                   confirmed, correction, accept, now);
      Assignments(pins) ==> Assignments(o.pins)
  {
    var c := CheckOutcome(pins, logs, reps, nextId, newRep, editing, confirmed);
    CheckFreesRep(pins, logs, reps, nextId, newRep, editing, confirmed);
    if c.result == Ok(true) {
      assert Distinct(c.pins, PinKey) by {
        match Conflict(pins, newRep, editing)
        case None =>
        case Some(j) => ReplaceKeepsDistinct(pins, j, Completed(pins[j]), PinKey);
      }
      SaveKeepsAssignments(c.pins, c.logs, reps, c.nextId, editing, spot, siteName, newRep, notes, photo,
                           correction, accept, now);
    }
  }

  /** A conflict completed by the check is kept even when the edit then
      fails on a duplicate site name. */
  lemma ConflictCompletionPersists(pins: seq<Pin>, logs: seq<Log>, reps: seq<Rep>, nextId: nat,
                                   editing: Option<Id>, spot: Option<Spot>, siteName: string,
                                   newRep: Option<Id>, notes: string, photo: Option<string>,
                                   correction: bool, accept: bool, now: int, j: nat)
    requires Conflict(pins, newRep, editing) == Some(j) && FindRep(reps, newRep.value).Some?
    ensures var o := SubmitOutcome(pins, logs, reps, nextId, editing, spot, siteName, newRep, notes, photo,
                                   true, correction, accept, now);
      o.result == Err(DuplicateSiteName(siteName)) ==>
        o.pins == pins[j := Completed(pins[j])] && o.logs == logs && o.nextId == nextId
    ensures var o := SubmitOutcome(pins, logs, reps, nextId, editing, spot, siteName, newRep, notes, photo,
                                   true, correction, accept, now);
      var done := pins[j := Completed(pins[j])];
      editing.Some? && FindPin(done, editing.value).Some? &&
      Renames(done[FindPin(done, editing.value).value], siteName) && SiteNameTaken(done, siteName) ==>
        o.result == Err(DuplicateSiteName(siteName))
  {
    var c := CheckOutcome(pins, logs, reps, nextId, newRep, editing, true);
    assert c == Outcome(Ok(true), pins[j := Completed(pins[j])], logs, nextId);
  }

  /** A concrete history reaching that state: rep 7 is active at site "A";
      the form edits site "B", picks rep 7 and renames "B" to "A". The
      conflict is accepted and completed, then the rename fails, and
      site "A" stays completed. */
  lemma ConflictCompletionReachable()
    ensures var a := Pin(1, "A", "", Location(0.0, 0.0), Some(7), Active, None, "", 0);
      var b := Pin(2, "B", "", Location(0.0, 0.0), None, New, None, "", 0);
      var o := SubmitOutcome([a, b], [], [Rep(7, "R", "")], 3, Some(2), None, "A", Some(7), "", None,
                             true, true, true, 5);
      o.result == Err(DuplicateSiteName("A")) && o.pins == [Completed(a), b] && o.logs == []
  {
    var a := Pin(1, "A", "", Location(0.0, 0.0), Some(7), Active, None, "", 0);
    var b := Pin(2, "B", "", Location(0.0, 0.0), None, New, None, "", 0);
    var pins := [a, b];
    assert ActivePinOf(pins, 7) == Some(0);
    assert Conflict(pins, Some(7), Some(2)) == Some(0);
    var done := pins[0 := Completed(a)];
    assert FindPin(done, 2) == Some(1);
    assert SiteNameTaken(done, "A") by {
      assert done[0].siteName == "A";
    }
    ConflictCompletionPersists(pins, [], [Rep(7, "R", "")], 3, Some(2), None, "A", Some(7), "", None,
                               true, true, 5, 0);
  }
}
