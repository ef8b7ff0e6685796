/** Entities of the field-sales CRM: representatives, sites ("pins") and
    activity logs, plus the error taxonomy and the assignment invariants
    that the controller flows are meant to keep. */
module Domain {

  /** Identifiers are opaque; the store draws fresh ones from a counter. */
  type Id = nat

  datatype Option<T> = None | Some(value: T)

  /** An optional field of an update record: left alone, or overwritten. */
  datatype Update<T> = NoChange | Change(value: T)

  datatype Status = New | Active | Complete

  /** Coordinates are carried along and never computed with. */
  datatype Location = Location(lat: real, lng: real)

  datatype Rep = Rep(id: Id, name: string, phone: string)

  datatype Pin = Pin(
    id: Id,
    siteName: string,
    address: string,
    location: Location,
    repId: Option<Id>,
    status: Status,
    photo: Option<string>,
    notes: string,
    createdAt: int)

  datatype Log = Log(id: Id, repId: Id, pinId: Id, date: int)

  /** `MissingRecord` stands for the TypeError the controllers raise when
      they read a field of a lookup that came back undefined. */
  datatype Error =
    | DuplicateRepName(name: string)
    | RepNotFound
    | DuplicateSiteName(siteName: string)
    | PinNotFound
    | MissingRecord

  datatype Result<T> = Ok(value: T) | Err(error: Error)

  // Keys used to filter and sort collections.
  function RepKey(r: Rep): Id { r.id }
  function RepName(r: Rep): string { r.name }
  function PinKey(p: Pin): Id { p.id }
  function PinSiteName(p: Pin): string { p.siteName }
  function LogKey(l: Log): Id { l.id }
  function LogRep(l: Log): Id { l.repId }
  function LogDate(l: Log): int { l.date }
  function LogSite(l: Log): Id { l.pinId }
  function LogLink(l: Log): (Id, Id) { (l.repId, l.pinId) }

  /** The rep a pin makes busy: its rep when, and only when, it is active. */
  function ActiveHolder(p: Pin): Option<Id> {
    if p.status == Active then p.repId else None
  }

  /** A site is active exactly when a rep is assigned to it. */
  predicate StatusMatchesRep(p: Pin) {
    p.status == Active <==> p.repId.Some?
  }

  predicate Consistent(pins: seq<Pin>) {
    forall i :: 0 <= i < |pins| ==> StatusMatchesRep(pins[i])
  }

  /** No rep is active on two sites at once. */
  predicate AtMostOneActive(pins: seq<Pin>) {
    forall i, j :: 0 <= i < j < |pins| && ActiveHolder(pins[i]).Some? ==>
      ActiveHolder(pins[i]) != ActiveHolder(pins[j])
  }

  /** Rep `r` is active on no site other than the one at index `j`
      (pass `j == |pins|` for "on no site at all"). */
  predicate ActiveOnlyAt(pins: seq<Pin>, r: Id, j: nat) {
    forall k :: 0 <= k < |pins| && k != j ==> ActiveHolder(pins[k]) != Some(r)
  }

  /** The assignment invariants together. */
  predicate Assignments(pins: seq<Pin>) {
    Consistent(pins) && AtMostOneActive(pins)
  }

  // The three single-site transitions of the assignment state machine.

  /** The fields no transition touches: everything but rep and status. */
  predicate SameDetails(p: Pin, q: Pin) {
    && q.id == p.id && q.siteName == p.siteName && q.address == p.address
    && q.location == p.location && q.photo == p.photo && q.notes == p.notes
    && q.createdAt == p.createdAt
  }

  function Assigned(p: Pin, r: Id): (q: Pin)
    ensures SameDetails(p, q)
    ensures ActiveHolder(q) == Some(r) && StatusMatchesRep(q)
  {
    p.(repId := Some(r), status := Active)
  }

  function Unassigned(p: Pin): (q: Pin)
    ensures SameDetails(p, q)
    ensures q.status == New && ActiveHolder(q) == None && StatusMatchesRep(q)
  {
    p.(repId := None, status := New)
  }

  function Completed(p: Pin): (q: Pin)
    ensures SameDetails(p, q)
    ensures q.status == Complete && ActiveHolder(q) == None && StatusMatchesRep(q)
  {
    p.(repId := None, status := Complete)
  }

  /** Releasing an already released site changes nothing: a second
      `unassignRep` leaves the same pin. */
  lemma UnassignedIdempotent(p: Pin)
    ensures Unassigned(Unassigned(p)) == Unassigned(p)
  {
  }

  /** In a table without double bookings, an active rep is active nowhere else. */
  lemma HolderIsUnique(pins: seq<Pin>, j: nat, r: Id)
    requires AtMostOneActive(pins)
    requires j < |pins| && ActiveHolder(pins[j]) == Some(r)
    ensures ActiveOnlyAt(pins, r, j)
  {
  }

  /** Releasing a site (unassign or complete) keeps both invariants. */
  lemma ReleaseKeepsAssignments(pins: seq<Pin>, j: nat, q: Pin)
    requires Assignments(pins) && j < |pins|
    requires ActiveHolder(q) == None && StatusMatchesRep(q)
    ensures Assignments(pins[j := q])
  {
    var after := pins[j := q];
    forall a, b | 0 <= a < b < |after| && ActiveHolder(after[a]).Some?
      ensures ActiveHolder(after[a]) != ActiveHolder(after[b])
    {
      assert a != j;
      if b != j {
        assert ActiveHolder(pins[a]) != ActiveHolder(pins[b]);
      }
    }
  }

  /** Assigning a rep who is busy nowhere else keeps both invariants. */
  lemma AssignKeepsAssignments(pins: seq<Pin>, j: nat, r: Id)
    requires Assignments(pins) && j < |pins|
    requires ActiveOnlyAt(pins, r, j)
    ensures Assignments(pins[j := Assigned(pins[j], r)])
  {
    var after := pins[j := Assigned(pins[j], r)];
    forall a, b | 0 <= a < b < |after| && ActiveHolder(after[a]).Some?
      ensures ActiveHolder(after[a]) != ActiveHolder(after[b])
    {
      if a == j {
        assert ActiveHolder(pins[b]) != Some(r);
      } else if b == j {
        assert ActiveHolder(pins[a]) != Some(r);
      } else {
        assert ActiveHolder(pins[a]) != ActiveHolder(pins[b]);
      }
    }
  }

  /** Removing a site keeps both invariants. */
  lemma RemoveKeepsAssignments(pins: seq<Pin>, j: nat)
    requires Assignments(pins) && j < |pins|
    ensures Assignments(pins[..j] + pins[j + 1..])
  {
    var after := pins[..j] + pins[j + 1..];
    forall a, b | 0 <= a < b < |after| && ActiveHolder(after[a]).Some?
      ensures ActiveHolder(after[a]) != ActiveHolder(after[b])
    {
      var a', b' := if a < j then a else a + 1, if b < j then b else b + 1;
      assert after[a] == pins[a'] && after[b] == pins[b'];
    }
  }

  /** Adding a site keeps both invariants when its rep, if it is active,
      is busy nowhere yet. */
  lemma AppendKeepsAssignments(pins: seq<Pin>, q: Pin)
    requires Assignments(pins) && StatusMatchesRep(q)
    requires ActiveHolder(q).Some? ==> ActiveOnlyAt(pins, ActiveHolder(q).value, |pins|)
    ensures Assignments(pins + [q])
  {
    var after := pins + [q];
    forall a, b | 0 <= a < b < |after| && ActiveHolder(after[a]).Some?
      ensures ActiveHolder(after[a]) != ActiveHolder(after[b])
    {
      if b < |pins| {
        assert ActiveHolder(pins[a]) != ActiveHolder(pins[b]);
      }
    }
  }

  /** Rewriting a site without touching its rep or status keeps both
      invariants. */
  lemma RelabelKeepsAssignments(pins: seq<Pin>, j: nat, q: Pin)
    requires j < |pins| && q.repId == pins[j].repId && q.status == pins[j].status
    ensures Consistent(pins) ==> Consistent(pins[j := q])
    ensures Assignments(pins) ==> Assignments(pins[j := q])
  {
    var after := pins[j := q];
    assert forall k :: 0 <= k < |pins| ==> ActiveHolder(after[k]) == ActiveHolder(pins[k]);
    if Assignments(pins) {
      assert StatusMatchesRep(pins[j]);
    }
  }
}
