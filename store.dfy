/** The relational store: representatives, sites and activity logs kept
    as three collections that every mutator loads, changes in place and
    writes back. The lookups are pure functions over the collections. */
module Store {
  import opened Domain
  import opened Seqs
  import opened Sorting
  import opened Phone

  /** What the site form hands to `addPin`. */
  datatype PinDraft = PinDraft(
    siteName: string,
    address: string,
    location: Location,
    repId: Option<Id>,
    photo: Option<string>,
    notes: string)

  /** What `updatePin` may overwrite. An empty `siteName` means "not
      supplied", as a falsy value does in the source; `status` is applied
      only when present. */
  datatype PinUpdate = PinUpdate(
    siteName: string,
    photo: Update<Option<string>>,
    notes: Update<string>,
    repId: Update<Option<Id>>,
    status: Option<Status>)

  /** The result of `unassignRep`: the released pin and its former rep. */
  datatype Released = Released(pin: Pin, oldRepId: Option<Id>)

  // ---------------------------------------------------------------------
  // Lookups
  // ---------------------------------------------------------------------

  /** `reps.find(r => r.id === id)`, as an index. */
  function FindRep(reps: seq<Rep>, id: Id): (r: Option<nat>)
    ensures r.Some? ==> r.value < |reps| && reps[r.value].id == id
    ensures r.Some? ==> forall k :: 0 <= k < r.value ==> reps[k].id != id
    ensures r.None? ==> forall k :: 0 <= k < |reps| ==> reps[k].id != id
  {
    if reps == [] then None
    else if reps[0].id == id then Some(0)
    else match FindRep(reps[1..], id)
      case None => None
      case Some(i) => Some(i + 1)
  }

  /** `pins.find(p => p.id === id)`, as an index. */
  function FindPin(pins: seq<Pin>, id: Id): (r: Option<nat>)
    ensures r.Some? ==> r.value < |pins| && pins[r.value].id == id
    ensures r.Some? ==> forall k :: 0 <= k < r.value ==> pins[k].id != id
    ensures r.None? ==> forall k :: 0 <= k < |pins| ==> pins[k].id != id
  {
    if pins == [] then None
    else if pins[0].id == id then Some(0)
    else match FindPin(pins[1..], id)
      case None => None
      case Some(i) => Some(i + 1)
  }

  /** `getRepActivePin`: the first pin that rep `r` holds with status
      'active', as an index. */
  function ActivePinOf(pins: seq<Pin>, r: Id): (i: Option<nat>)
    ensures i.Some? ==> i.value < |pins| && ActiveHolder(pins[i.value]) == Some(r)
    ensures i.Some? ==> forall k :: 0 <= k < i.value ==> ActiveHolder(pins[k]) != Some(r)
    ensures i.None? <==> ActiveOnlyAt(pins, r, |pins|)
  {
    if pins == [] then None
    else if ActiveHolder(pins[0]) == Some(r) then Some(0)
    else match ActivePinOf(pins[1..], r)
      case None =>
        assert forall k :: 1 <= k < |pins| ==> pins[k] == pins[1..][k - 1];
        None
      case Some(i) => Some(i + 1)
  }

  /** `reps.some(r => r.name === name)`: compared exactly, case included. */
  predicate RepNameTaken(reps: seq<Rep>, name: string) {
    exists i :: 0 <= i < |reps| && reps[i].name == name
  }

  /** `pins.some(p => p.siteName === siteName)`. */
  predicate SiteNameTaken(pins: seq<Pin>, siteName: string) {
    exists i :: 0 <= i < |pins| && pins[i].siteName == siteName
  }

  /** `getRepLogs`: the rep's logs in non-decreasing date order. */
  function RepLogs(logs: seq<Log>, r: Id): (s: seq<Log>)
    ensures multiset(s) == multiset(Keep(logs, LogRep, r))
    ensures forall l :: l in s <==> l in logs && l.repId == r
    ensures SortedBy(s, LogDate)
  {
    var mine := Keep(logs, LogRep, r);
    var s := SortBy(mine, LogDate);
    assert forall l :: l in s <==> l in multiset(s);
    assert forall l :: l in mine <==> l in multiset(mine);
    s
  }

  /** Logs with equal dates come back in the order they were written. */
  lemma RepLogsKeepsInsertionOrder(logs: seq<Log>, r: Id, date: int)
    ensures Keep(RepLogs(logs, r), LogDate, date) == Keep(Keep(logs, LogRep, r), LogDate, date)
  {
    SortByStable(Keep(logs, LogRep, r), LogDate, date);
  }

  /** Among the rep's logs dated like `x`, `x` is the one written last. */
  ghost predicate LastWrittenOfItsDate(logs: seq<Log>, r: Id, x: Log) {
    EndsWith(Keep(Keep(logs, LogRep, r), LogDate, x.date), x)
  }

  /** `getRepLatestLog`: the last of the rep's date-ordered logs, that is,
      a log with the greatest date and, among the rep's logs of that date,
      the one written last (the stable sort keeps them in writing order). */
  function LatestLog(logs: seq<Log>, r: Id): (latest: Option<Log>)
    ensures latest.None? <==> forall l :: l in logs ==> l.repId != r
    ensures latest.Some? ==> latest.value in logs && latest.value.repId == r
    ensures latest.Some? ==> forall l :: l in logs && l.repId == r ==> l.date <= latest.value.date
    ensures latest.Some? ==> LastWrittenOfItsDate(logs, r, latest.value)
  {
    var s := RepLogs(logs, r);
    if s == [] then None
    else
      SortedLastIsGreatest(s, LogDate);
      RepLogsLastIsLastWritten(logs, r);
      Some(s[|s| - 1])
  }

  /** Helper: the last of the rep's date-ordered logs is the last one
      written among the rep's logs of its date. */
  lemma RepLogsLastIsLastWritten(logs: seq<Log>, r: Id)
    requires RepLogs(logs, r) != []
    ensures LastWrittenOfItsDate(logs, r, RepLogs(logs, r)[|RepLogs(logs, r)| - 1])
  {
    var s := RepLogs(logs, r);
    RepLogsKeepsInsertionOrder(logs, r, s[|s| - 1].date);
    TieBreakOfLast(s, Keep(logs, LogRep, r));
  }

  /** Helper: when keeping the date of the last log of `s` selects the same
      logs from `s` as from `u`, that log is the last one `u` holds of its
      date. */
  lemma TieBreakOfLast(s: seq<Log>, u: seq<Log>)
    requires s != [] && Keep(s, LogDate, s[|s| - 1].date) == Keep(u, LogDate, s[|s| - 1].date)
    ensures EndsWith(Keep(u, LogDate, s[|s| - 1].date), s[|s| - 1])
  {
    KeepLastOf(s, LogDate);
  }

  /** The pin `updatePin` writes back: `siteName` already decided, every
      other field overwritten only when the update supplies it. */
  function Patched(p: Pin, siteName: string, u: PinUpdate): (q: Pin)
    ensures q.id == p.id && q.address == p.address && q.location == p.location
    ensures q.createdAt == p.createdAt && q.siteName == siteName
    ensures u.photo.Change? ==> q.photo == u.photo.value
    ensures u.photo.NoChange? ==> q.photo == p.photo
    ensures u.notes.Change? ==> q.notes == u.notes.value
    ensures u.notes.NoChange? ==> q.notes == p.notes
    ensures u.repId.Change? ==> q.repId == u.repId.value
    ensures u.repId.NoChange? ==> q.repId == p.repId
    ensures u.status.Some? ==> q.status == u.status.value
    ensures u.status.None? ==> q.status == p.status
  {
    p.(siteName := siteName,
       photo := if u.photo.Change? then u.photo.value else p.photo,
       notes := if u.notes.Change? then u.notes.value else p.notes,
       repId := if u.repId.Change? then u.repId.value else p.repId,
       status := if u.status.Some? then u.status.value else p.status)
  }

  /** The site `addPin` creates: 'active' exactly when a rep is given, an
      empty photo stored as none. */
  function NewPin(id: Id, data: PinDraft, now: int): (p: Pin)
    ensures p.id == id && p.siteName == data.siteName && p.repId == data.repId
    ensures p.address == data.address && p.location == data.location && p.notes == data.notes
    ensures StatusMatchesRep(p) && p.status != Complete
    ensures data.photo == Some("") ==> p.photo == None
    ensures data.photo != Some("") ==> p.photo == data.photo
    ensures p.createdAt == now
  {
    Pin(id, data.siteName, data.address, data.location, data.repId,
        if data.repId.Some? then Active else New,
        if data.photo == Some("") then None else data.photo,
        data.notes, now)
  }

  /** `updates.siteName && updates.siteName !== pin.siteName`: a rename is
      attempted only when a name is supplied and differs. */
  predicate Renames(p: Pin, siteName: string) {
    siteName != "" && siteName != p.siteName
  }

  /** The store's pin invariant as a lookup: ids are unique, so the pin
      found by id is the only one with that id. */
  lemma FindPinUnique(pins: seq<Pin>, j: nat)
    requires Distinct(pins, PinKey) && j < |pins|
    ensures FindPin(pins, pins[j].id) == Some(j)
  {
  }

  /** `unassignRep` is idempotent: once the site at `i` is released, a
      second call finds the same site and writes back the same pin. */
  lemma UnassignTwice(pins: seq<Pin>, pinId: Id, i: nat)
    requires FindPin(pins, pinId) == Some(i)
    ensures var once := pins[i := Unassigned(pins[i])];
      FindPin(once, pinId) == Some(i) && once[i := Unassigned(once[i])] == once
  {
    var once := pins[i := Unassigned(pins[i])];
    UnassignedIdempotent(pins[i]);
    assert forall k :: 0 <= k < |pins| ==> once[k].id == pins[k].id;
    assert once[i].id == pinId;
  }

  /** Overwriting rep `i` with a rep that keeps its name, or takes a name
      no rep has, keeps rep names distinct and brings in no other rep. */
  lemma RenameKeepsDistinct(reps: seq<Rep>, i: nat, updated: Rep)
    requires Distinct(reps, RepName) && i < |reps|
    requires updated.name == reps[i].name || !RepNameTaken(reps, updated.name)
    ensures Distinct(reps[i := updated], RepName)
    ensures forall r :: r in reps[i := updated] ==> r == updated || r in reps
  {
    forall k | 0 <= k < |reps| && k != i ensures RepName(reps[k]) != RepName(updated) {
      if updated.name == reps[i].name {
        assert RepName(reps[k]) != RepName(reps[i]);
      }
    }
    ReplaceKeepsDistinct(reps, i, updated, RepName);
  }

  // ---------------------------------------------------------------------
  // The store object
  // ---------------------------------------------------------------------

  class Store {
    var reps: seq<Rep>
    var pins: seq<Pin>
    var logs: seq<Log>
    /** Stands for the id generator: every id handed out so far is below it. */
    var nextId: nat

    /** Ids are fresh and unique, rep names and site names are unique. */
    ghost predicate Valid()
      reads this
    {
      && (forall r :: r in reps ==> r.id < nextId)
      && (forall p :: p in pins ==> p.id < nextId)
      && (forall l :: l in logs ==> l.id < nextId)
      && Distinct(pins, PinKey)
      && Distinct(reps, RepName)
      && Distinct(pins, PinSiteName)
    }

    constructor ()
      ensures Valid()
      ensures reps == [] && pins == [] && logs == []
    {
      reps, pins, logs, nextId := [], [], [], 0;
    }

    /** `getRep`: the rep with that id, or none. */
    function GetRep(id: Id): (found: Option<Rep>)
      reads this
      ensures found.Some? ==> found.value in reps && found.value.id == id
      ensures found.None? <==> forall x :: x in reps ==> x.id != id
    {
      match FindRep(reps, id)
      case None => None
      case Some(i) => Some(reps[i])
    }

    /** `getPin`: the site with that id, or none. */
    function GetPin(id: Id): (found: Option<Pin>)
      reads this
      ensures found.Some? ==> found.value in pins && found.value.id == id
      ensures found.None? <==> forall x :: x in pins ==> x.id != id
    {
      match FindPin(pins, id)
      case None => None
      case Some(i) => Some(pins[i])
    }

    /** `getRepActivePin`: a site on which the rep is active, or none
        when the rep is active nowhere. */
    function GetRepActivePin(r: Id): (found: Option<Pin>)
      reads this
      ensures found.Some? ==> found.value in pins && ActiveHolder(found.value) == Some(r)
      ensures found.None? <==> ActiveOnlyAt(pins, r, |pins|)
    {
      match ActivePinOf(pins, r)
      case None => None
      case Some(i) => Some(pins[i])
    }

    /** `getRepLogs`: exactly the rep's logs, oldest first, logs of one
        date in the order they were written. */
    function GetRepLogs(r: Id): (mine: seq<Log>)
      reads this
      ensures forall l :: l in mine <==> l in logs && l.repId == r
      ensures multiset(mine) == multiset(Keep(logs, LogRep, r))
      ensures SortedBy(mine, LogDate)
      ensures forall d :: Keep(mine, LogDate, d) == Keep(Keep(logs, LogRep, r), LogDate, d)
    {
      forall d ensures Keep(RepLogs(logs, r), LogDate, d) == Keep(Keep(logs, LogRep, r), LogDate, d) {
        RepLogsKeepsInsertionOrder(logs, r, d);
      }
      RepLogs(logs, r)
    }

    /** `getRepLatestLog`: none exactly when the rep has no log; otherwise
        a log of the rep no other of its logs postdates. */
    function GetRepLatestLog(r: Id): (latest: Option<Log>)
      reads this
      ensures latest.None? <==> forall l :: l in logs ==> l.repId != r
      ensures latest.Some? ==> latest.value in logs && latest.value.repId == r
      ensures latest.Some? ==> forall l :: l in logs && l.repId == r ==> l.date <= latest.value.date
      ensures latest.Some? ==> LastWrittenOfItsDate(logs, r, latest.value)
    {
      LatestLog(logs, r)
    }

    /** `_uuid`: an id no record of the store carries. */
    method FreshId() returns (id: Id)
      requires Valid()
      modifies this`nextId
      ensures Valid() && id == old(nextId) && nextId == id + 1
    {
      id := nextId;
      nextId := nextId + 1;
    }

    /** `addRep`: refuses a name already present (exact comparison) and
        otherwise appends one rep with a fresh id and a normalised phone. */
    method AddRep(name: string, phone: string) returns (result: Result<Rep>)
      requires Valid()
      modifies this
      ensures Valid()
      ensures pins == old(pins) && logs == old(logs)
      ensures result.Err? <==> RepNameTaken(old(reps), name)
      ensures result.Err? ==> result.error == DuplicateRepName(name) && reps == old(reps)
      ensures result.Ok? ==> result.value == Rep(old(nextId), name, FormatPhone(phone))
      ensures result.Ok? ==> reps == old(reps) + [result.value]
      ensures result.Ok? ==> forall r :: r in old(reps) ==> r.id != result.value.id
    {
      if RepNameTaken(reps, name) {
        return Err(DuplicateRepName(name));
      }
      var id := FreshId();
      var rep := Rep(id, name, FormatPhone(phone));
      reps := reps + [rep];
      result := Ok(rep);
    }
  
    /** `updateRep`: an unknown id and a rename onto another rep's name
        are refused with nothing changed; an empty name or phone keeps the
        old value; other reps are untouched. */
    method UpdateRep(id: Id, newName: string, newPhone: string) returns (result: Result<Rep>)
      requires Valid()
      modifies this
      ensures Valid()
      ensures pins == old(pins) && logs == old(logs)
      ensures result.Err? ==> reps == old(reps)
      ensures match FindRep(old(reps), id)
        case None => result == Err(RepNotFound)
        case Some(i) =>
          var rep := old(reps)[i];
          var rename := newName != "" && newName != rep.name;
          if rename && RepNameTaken(old(reps), newName) then
            result == Err(DuplicateRepName(newName))
          else
            && result.Ok?
            && result.value.id == id
            && result.value.name == (if rename then newName else rep.name)
            && result.value.phone == (if newPhone != "" then FormatPhone(newPhone) else rep.phone)
            && reps == old(reps)[i := result.value]
    {
      var found := FindRep(reps, id);
      if found.None? {
        return Err(RepNotFound);
      }
      var i := found.value;
      var rep := reps[i];
      var name := rep.name;
      if newName != "" && newName != rep.name {
        if RepNameTaken(reps, newName) {
          return Err(DuplicateRepName(newName));
        }
        name := newName;
      }
      var phone := rep.phone;
      if newPhone != "" {
        phone := FormatPhone(newPhone);
      }
      var updated := Rep(rep.id, name, phone);
      RenameKeepsDistinct(reps, i, updated);
      reps := reps[i := updated];
      result := Ok(updated);
    }

    /** `deleteRep`: removes every rep with that id; sites that reference
        it keep the reference. */
    method DeleteRep(id: Id)
      requires Valid()
      modifies this
      ensures Valid()
      ensures reps == Drop(old(reps), RepKey, id)
      ensures pins == old(pins) && logs == old(logs) && nextId == old(nextId)
    {
      DropKeepsDistinct(reps, RepName, RepKey, id);
      reps := Drop(reps, RepKey, id);
    }

    /** `logActivity`: appends one log with a fresh id, dated `now`. */
    method LogActivity(repId: Id, pinId: Id, now: int)
      requires Valid()
      modifies this
      ensures Valid()
      ensures logs == old(logs) + [Log(old(nextId), repId, pinId, now)]
      ensures reps == old(reps) && pins == old(pins) && nextId == old(nextId) + 1
    {
      var id := FreshId();
      logs := logs + [Log(id, repId, pinId, now)];
    }

    /** `addPin`: refuses a site name already present; otherwise appends a
        pin with a fresh id that is 'active' with one new log when a rep is
        given, and 'new' with no rep and no log when not. */
    method AddPin(data: PinDraft, now: int) returns (result: Result<Pin>)
      requires Valid()
      modifies this
      ensures Valid()
      ensures reps == old(reps)
      ensures result.Err? <==> SiteNameTaken(old(pins), data.siteName)
      ensures result.Err? ==> result.error == DuplicateSiteName(data.siteName)
      ensures result.Err? ==> pins == old(pins) && logs == old(logs)
      ensures result.Ok? ==> pins == old(pins) + [result.value]
      ensures result.Ok? ==> result.value == NewPin(old(nextId), data, now)
      ensures result.Ok? ==> forall p :: p in old(pins) ==> p.id != result.value.id
      ensures result.Ok? && data.repId.Some? ==>
        logs == old(logs) + [Log(old(nextId) + 1, data.repId.value, result.value.id, now)]
      ensures result.Ok? && data.repId.None? ==> logs == old(logs)
      ensures nextId == old(nextId) + (if result.Err? then 0 else if data.repId.Some? then 2 else 1)
    {
      if SiteNameTaken(pins, data.siteName) {
        return Err(DuplicateSiteName(data.siteName));
      }
      var id := FreshId();
      var pin := NewPin(id, data, now);
      AppendKeepsDistinct(pins, pin, PinKey);
      AppendKeepsDistinct(pins, pin, PinSiteName);
      pins := pins + [pin];
      if pin.repId.Some? {
        LogActivity(pin.repId.value, pin.id, now);
      }
      result := Ok(pin);
    }

    /** `updatePin`: an unknown id, or a rename onto another pin's site
        name, is refused with nothing written. Otherwise the found pin is
        patched in place; no log is ever written. */
    method UpdatePin(id: Id, u: PinUpdate) returns (result: Result<Pin>)
      requires Valid()
      modifies this
      ensures Valid()
      ensures reps == old(reps) && logs == old(logs) && nextId == old(nextId)
      ensures result.Err? ==> pins == old(pins)
      ensures match FindPin(old(pins), id)
        case None => result == Err(PinNotFound)
        case Some(i) =>
          var p := old(pins)[i];
          if Renames(p, u.siteName) && SiteNameTaken(old(pins), u.siteName) then
            result == Err(DuplicateSiteName(u.siteName))
          else
            && result == Ok(Patched(p, if Renames(p, u.siteName) then u.siteName else p.siteName, u))
            && pins == old(pins)[i := result.value]
    {
      var found := FindPin(pins, id);
      if found.None? {
        return Err(PinNotFound);
      }
      var i := found.value;
      var p := pins[i];
      var siteName := p.siteName;
      if Renames(p, u.siteName) {
        if SiteNameTaken(pins, u.siteName) {
          return Err(DuplicateSiteName(u.siteName));
        }
        siteName := u.siteName;
      }
      var q := Patched(p, siteName, u);
      ReplaceKeepsDistinct(pins, i, q, PinKey);
      ReplaceKeepsDistinct(pins, i, q, PinSiteName);
      pins := pins[i := q];
      result := Ok(q);
    }

    /** `deletePin`: removes the first pin with that id and reports whether
        there was one; logs are left alone. */
    method DeletePin(id: Id) returns (deleted: bool)
      requires Valid()
      modifies this
      ensures Valid()
      ensures reps == old(reps) && logs == old(logs) && nextId == old(nextId)
      ensures deleted <==> FindPin(old(pins), id).Some?
      ensures !deleted ==> pins == old(pins)
      ensures deleted ==>
        var i := FindPin(old(pins), id).value;
        pins == old(pins)[..i] + old(pins)[i + 1..]
    {
      var found := FindPin(pins, id);
      if found.None? {
        return false;
      }
      var i := found.value;
      RemoveKeepsDistinct(pins, i, PinKey);
      RemoveKeepsDistinct(pins, i, PinSiteName);
      pins := pins[..i] + pins[i + 1..];
      deleted := true;
    }

    /** `assignRep`: that pin only becomes 'active' under `repId`, and
        exactly one log is appended. */
    method AssignRep(pinId: Id, repId: Id, now: int) returns (result: Result<Pin>)
      requires Valid()
      modifies this
      ensures Valid()
      ensures reps == old(reps)
      ensures match FindPin(old(pins), pinId)
        case None =>
          result == Err(PinNotFound) && pins == old(pins) && logs == old(logs)
        case Some(i) =>
          && result == Ok(Assigned(old(pins)[i], repId))
          && pins == old(pins)[i := result.value]
          && logs == old(logs) + [Log(old(nextId), repId, pinId, now)]
      ensures nextId == old(nextId) + (if result.Ok? then 1 else 0)
    {
      var found := FindPin(pins, pinId);
      if found.None? {
        return Err(PinNotFound);
      }
      var i := found.value;
      var q := Assigned(pins[i], repId);
      ReplaceKeepsDistinct(pins, i, q, PinKey);
      ReplaceKeepsDistinct(pins, i, q, PinSiteName);
      pins := pins[i := q];
      LogActivity(repId, pinId, now);
      result := Ok(q);
    }

    /** `unassignRep`: that pin only loses its rep and becomes 'new'; the
        former rep is returned and no log is written. */
    method UnassignRep(pinId: Id) returns (result: Result<Released>)
      requires Valid()
      modifies this
      ensures Valid()
      ensures reps == old(reps) && logs == old(logs) && nextId == old(nextId)
      ensures match FindPin(old(pins), pinId)
        case None => result == Err(PinNotFound) && pins == old(pins)
        case Some(i) =>
          && result == Ok(Released(Unassigned(old(pins)[i]), old(pins)[i].repId))
          && pins == old(pins)[i := result.value.pin]
    {
      var found := FindPin(pins, pinId);
      if found.None? {
        return Err(PinNotFound);
      }
      var i := found.value;
      var q := Unassigned(pins[i]);
      ReplaceKeepsDistinct(pins, i, q, PinKey);
      ReplaceKeepsDistinct(pins, i, q, PinSiteName);
      result := Ok(Released(q, pins[i].repId));
      pins := pins[i := q];
    }

    /** `deleteLog`: removes every log with that id, the rest in order. */
    method DeleteLog(logId: Id)
      requires Valid()
      modifies this
      ensures Valid()
      ensures logs == Drop(old(logs), LogKey, logId)
      ensures reps == old(reps) && pins == old(pins) && nextId == old(nextId)
    {
      logs := Drop(logs, LogKey, logId);
    }

    /** `deleteLogByRepAndPin`: removes every log linking that rep to that
        pin, the rest in order. */
    method DeleteLogByRepAndPin(repId: Id, pinId: Id)
      requires Valid()
      modifies this
      ensures Valid()
      ensures logs == Drop(old(logs), LogLink, (repId, pinId))
      ensures reps == old(reps) && pins == old(pins) && nextId == old(nextId)
    {
      logs := Drop(logs, LogLink, (repId, pinId));
    }
  }
}
