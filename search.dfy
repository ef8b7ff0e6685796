/** The local part of the search box and the data behind the trajectory
    sidebar, shared by both builds: the substring filters over reps and
    sites, and the rows and path derived from a rep's history. */
module Search {
  import opened Domain
  import opened Seqs
  import opened Sorting
  import opened Store

  // ---------------------------------------------------------------------
  // performSearch
  // ---------------------------------------------------------------------

  /** `q` occurs in `s` starting at position `k`. */
  predicate OccursAt(s: string, q: string, k: int) {
    0 <= k <= |s| - |q| && s[k..k + |q|] == q
  }

  /** `s.includes(q)`: `q` occurs in `s` at some position. */
  function Includes(s: string, q: string): (b: bool)
    ensures b <==> exists k :: OccursAt(s, q, k)
    decreases |s|
  {
    if |q| > |s| then false
    else if s[..|q|] == q then
      assert OccursAt(s, q, 0);
      true
    else
      ShiftOccurrence(s, q);
      Includes(s[1..], q)
  }

  /** Past a mismatch at the front, the occurrences in `s` are those in
      `s[1..]`, one place later. */
  lemma ShiftOccurrence(s: string, q: string)
    requires |q| <= |s| && s[..|q|] != q
    ensures (exists k :: OccursAt(s[1..], q, k)) <==> (exists k :: OccursAt(s, q, k))
  {
    if k :| OccursAt(s, q, k) {
      assert s[0..0 + |q|] == s[..|q|];
      assert k != 0;
      assert s[1..][k - 1..k - 1 + |q|] == s[k..k + |q|];
      assert OccursAt(s[1..], q, k - 1);
    }
    if k :| OccursAt(s[1..], q, k) {
      assert s[1..][k..k + |q|] == s[k + 1..k + 1 + |q|];
      assert OccursAt(s, q, k + 1);
    }
  }

  function RepMatch(query: string): Rep -> bool {
    (r: Rep) => Includes(r.name, query)
  }

  function PinMatch(query: string): Pin -> bool {
    (p: Pin) => Includes(p.siteName, query) || Includes(p.address, query)
  }

  /** What the result box shows: nothing, or the matching reps and sites. */
  datatype SearchResult = Hidden | Found(reps: seq<Rep>, pins: seq<Pin>)

  /** `performSearch`, local part: an empty query hides the results and
      looks nothing up; otherwise reps match on their name and sites on
      their name or address, each list in store order. */
  function PerformSearch(reps: seq<Rep>, pins: seq<Pin>, query: string): (r: SearchResult)
    ensures r.Hidden? <==> query == ""
    ensures r.Found? ==> forall x :: x in r.reps <==> x in reps && Includes(x.name, query)
    ensures r.Found? ==> forall p :: p in r.pins <==> p in pins && (Includes(p.siteName, query) || Includes(p.address, query))
  {
    if query == "" then Hidden
    else Found(Keep(reps, RepMatch(query), true), Keep(pins, PinMatch(query), true))
  }

  /** The filters keep store order: the results are exactly the matching
      elements, each list a subsequence of the store's, so a match found in
      a prefix of the table comes first. */
  lemma {:induction false} SearchKeepsStoreOrder(reps: seq<Rep>, more: seq<Rep>, pins: seq<Pin>, query: string)
    requires query != ""
    ensures PerformSearch(reps + more, pins, query).reps
         == PerformSearch(reps, pins, query).reps + PerformSearch(more, pins, query).reps
  {
    KeepAppend(reps, more, RepMatch(query), true);
  }

  /** A non-empty query that is not a substring of `s` never matches it:
      in particular an absent field, read as "", matches nothing. */
  lemma IncludesOnlyWithin(s: string, query: string)
    requires |query| > |s|
    ensures !Includes(s, query)
  {
  }

  // ---------------------------------------------------------------------
  // showTrajectory: data preparation
  // ---------------------------------------------------------------------

  /** A log joined to its site: position, name and notes of the site, and
      whether the site is where the rep works now. */
  datatype Entry = Entry(log: Log, location: Location, projectName: string, notes: string, isCurrent: bool)

  /** A list row: the number shown beside it and the entry it shows. */
  datatype Row = Row(number: nat, entry: Entry)

  /** The entry for log `l` of rep `r`, or None when its site is gone. */
  function Join(pins: seq<Pin>, l: Log, r: Id): (e: Option<Entry>)
    ensures e.Some? <==> FindPin(pins, l.pinId).Some?
    ensures e.Some? ==> e.value.log == l
    ensures e.Some? ==>
      var p := pins[FindPin(pins, l.pinId).value];
      && e.value.projectName == p.siteName
      && (e.value.isCurrent <==> ActiveHolder(p) == Some(r))
  {
    match FindPin(pins, l.pinId)
    case None => None
    case Some(k) =>
      var p := pins[k];
      Some(Entry(l, p.location, p.siteName, p.notes, p.status == Active && p.repId == Some(r)))
  }

  /** Whether a log's site still exists. */
  function LinkedTo(pins: seq<Pin>): Log -> bool {
    (l: Log) => FindPin(pins, l.pinId).Some?
  }

  /** `logs.map(join).filter(Boolean)`: the entries of the logs whose site
      exists, in log order. */
  function ValidLogs(pins: seq<Pin>, logs: seq<Log>, r: Id): (path: seq<Entry>)
    ensures |path| <= |logs|
    ensures forall e :: e in path ==> e.log in logs && Join(pins, e.log, r) == Some(e)
  {
    if logs == [] then []
    else
      var rest := ValidLogs(pins, logs[1..], r);
      match Join(pins, logs[0], r)
      case None => rest
      case Some(e) => [e] + rest
  }

  function EntryLogs(path: seq<Entry>): (s: seq<Log>)
    ensures |s| == |path|
    ensures forall k :: 0 <= k < |path| ==> s[k] == path[k].log
  {
    seq(|path|, k requires 0 <= k < |path| => path[k].log)
  }

  /** The path is exactly the linked logs, in their order: orphan logs are
      dropped and nothing else is. */
  lemma {:induction false} ValidLogsAreLinkedLogs(pins: seq<Pin>, logs: seq<Log>, r: Id)
    ensures EntryLogs(ValidLogs(pins, logs, r)) == Keep(logs, LinkedTo(pins), true)
  {
    if logs != [] {
      var linked := LinkedTo(pins);
      var rest := ValidLogs(pins, logs[1..], r);
      ValidLogsAreLinkedLogs(pins, logs[1..], r);
      match Join(pins, logs[0], r)
      case None =>
        calc {
          EntryLogs(ValidLogs(pins, logs, r));
          EntryLogs(rest);
          Keep(logs[1..], linked, true);
          { assert !linked(logs[0]); }
          Keep(logs, linked, true);
        }
      case Some(e) =>
        calc {
          EntryLogs(ValidLogs(pins, logs, r));
          EntryLogs([e] + rest);
          { EntryLogsCons(e, rest); }
          [e.log] + EntryLogs(rest);
          [logs[0]] + Keep(logs[1..], linked, true);
          { assert linked(logs[0]); }
          Keep(logs, linked, true);
        }
    }
  }

  /** Helper: EntryLogs of a path with one more entry in front. */
  lemma EntryLogsCons(e: Entry, rest: seq<Entry>)
    ensures EntryLogs([e] + rest) == [e.log] + EntryLogs(rest)
  {
  }

  /** In a table without double bookings and with unique ids, every entry
      marked current names the same site. */
  lemma CurrentEntriesShareOneSite(pins: seq<Pin>, logs: seq<Log>, r: Id, e1: Entry, e2: Entry)
    requires AtMostOneActive(pins) && Distinct(pins, PinKey)
    requires e1 in ValidLogs(pins, logs, r) && e2 in ValidLogs(pins, logs, r)
    requires e1.isCurrent && e2.isCurrent
    ensures e1.log.pinId == e2.log.pinId
  {
    var k1 := FindPin(pins, e1.log.pinId).value;
    var k2 := FindPin(pins, e2.log.pinId).value;
    assert ActiveHolder(pins[k1]) == Some(r) && ActiveHolder(pins[k2]) == Some(r);
  }

  /** The rows before sorting: each entry with its position in the path
      plus one, the number `drawPath` gives its marker. */
  function Numbered(path: seq<Entry>): (rows: seq<Row>)
    ensures |rows| == |path|
    ensures forall k :: 0 <= k < |rows| ==> rows[k] == Row(k + 1, path[k])
  {
    seq(|path|, k requires 0 <= k < |path| => Row(k + 1, path[k]))
  }

  /** The sort key of the list, `b.date - a.date`: newest first. */
  function NewestFirst(row: Row): int {
    -row.entry.log.date
  }

  /** Numbers strictly increase along `rows`. */
  predicate Ascending(rows: seq<Row>) {
    forall i, j :: 0 <= i < j < |rows| ==> rows[i].number < rows[j].number
  }

  /** Filtering keeps numbers increasing. */
  lemma {:induction false} KeepAscending<K>(rows: seq<Row>, key: Row -> K, k: K)
    requires Ascending(rows)
    ensures Ascending(Keep(rows, key, k))
  {
    if rows != [] {
      KeepAscending(rows[1..], key, k);
      var rest := Keep(rows[1..], key, k);
      if key(rows[0]) == k {
        var s := [rows[0]] + rest;
        forall j | 0 < j < |s| ensures s[0].number < s[j].number {
          assert s[j] in rows[1..];
        }
        assert Ascending(s) by {
          forall i, j | 0 <= i < j < |s| ensures s[i].number < s[j].number {
            if i > 0 {
              assert s[i] == rest[i - 1] && s[j] == rest[j - 1];
            }
          }
        }
      }
    }
  }

  /** The list as rendered: the numbered path, newest first, rows of equal
      date in path order. */
  function ListRows(path: seq<Entry>): (rows: seq<Row>)
    ensures multiset(rows) == multiset(Numbered(path))
    ensures forall i, j :: 0 <= i < j < |rows| ==> rows[i].entry.log.date >= rows[j].entry.log.date
  {
    var rows := SortBy(Numbered(path), NewestFirst);
    assert forall i, j :: 0 <= i < j < |rows| ==> NewestFirst(rows[i]) <= NewestFirst(rows[j]);
    rows
  }

  /** Every row's number leads back to its entry: the marker `drawPath`
      numbers `row.number` sits at the row's site. */
  lemma RowNumbersMatchMarkers(path: seq<Entry>, row: Row)
    requires row in ListRows(path)
    ensures 1 <= row.number <= |path| && path[row.number - 1] == row.entry
  {
    var n := Numbered(path);
    assert row in multiset(ListRows(path));
    assert row in multiset(n);
    var k :| 0 <= k < |n| && n[k] == row;
  }

  /** The sort is stable: the rows of any one date keep their path order. */
  lemma ListRowsStable(path: seq<Entry>, date: int)
    ensures Keep(ListRows(path), NewestFirst, -date) == Keep(Numbered(path), NewestFirst, -date)
  {
    assert ListRows(path) == SortBy(Numbered(path), NewestFirst);
    SortNumberedStable(path, date);
  }

  /** The list is the only newest-first arrangement of the numbered path
      that keeps the rows of each date in path order. */
  lemma ListRowsIsTheOnlyListing(path: seq<Entry>, rows: seq<Row>)
    requires SortedBy(rows, NewestFirst)
    requires forall k :: Keep(rows, NewestFirst, k) == Keep(Numbered(path), NewestFirst, k)
    ensures rows == ListRows(path)
  {
    SortByIsTheStableSort(Numbered(path), rows, NewestFirst);
  }

  lemma SortNumberedStable(path: seq<Entry>, date: int)
    ensures Keep(SortBy(Numbered(path), NewestFirst), NewestFirst, -date) == Keep(Numbered(path), NewestFirst, -date)
  {
    SortByStable(Numbered(path), NewestFirst, -date);
  }

  /** Rows of equal date are listed in ascending number, so ties read in
      the order the path visits them. */
  lemma TiesInPathOrder(path: seq<Entry>, date: int)
    ensures Ascending(Keep(ListRows(path), NewestFirst, -date))
  {
    ListRowsStable(path, date);
    KeepAscending(Numbered(path), NewestFirst, -date);
  }

  /** What the sidebar shows: "no records" with no path, or the list and
      the path the markers are drawn along. */
  datatype Trajectory = NoRecords | Shown(rows: seq<Row>, path: seq<Entry>)

  /** `showTrajectory`, data part, on the rep's date-ordered logs: "no
      records" exactly when no log of the rep names an existing site;
      otherwise the path holds exactly those logs, oldest first, and the
      list holds one numbered row per path entry, newest first. */
  function ShowTrajectory(pins: seq<Pin>, logs: seq<Log>, r: Id): (t: Trajectory)
    ensures t.NoRecords? <==> forall l :: l in logs && l.repId == r ==> FindPin(pins, l.pinId).None?
    ensures t.Shown? ==>
      forall l :: l in EntryLogs(t.path) <==> l in logs && l.repId == r && FindPin(pins, l.pinId).Some?
    ensures t.Shown? ==> SortedBy(EntryLogs(t.path), LogDate)
    ensures t.Shown? ==> multiset(t.rows) == multiset(Numbered(t.path))
    ensures t.Shown? ==> forall i, j :: 0 <= i < j < |t.rows| ==> t.rows[i].entry.log.date >= t.rows[j].entry.log.date
  {
    var path := ValidLogs(pins, RepLogs(logs, r), r);
    TrajectoryPathIsLinkedLogs(pins, logs, r);
    if path == [] then NoRecords else Shown(ListRows(path), path)
  }

  /** The path drawn for a rep is empty exactly when no log of the rep
      names an existing site; otherwise it holds exactly those logs,
      oldest first. */
  lemma {:induction false} TrajectoryPathIsLinkedLogs(pins: seq<Pin>, logs: seq<Log>, r: Id)
    ensures var path := ValidLogs(pins, RepLogs(logs, r), r);
      path == [] <==> forall l :: l in logs && l.repId == r ==> FindPin(pins, l.pinId).None?
    ensures var path := ValidLogs(pins, RepLogs(logs, r), r);
      forall l :: l in EntryLogs(path) <==> l in logs && l.repId == r && FindPin(pins, l.pinId).Some?
    ensures SortedBy(EntryLogs(ValidLogs(pins, RepLogs(logs, r), r)), LogDate)
  {
    var mine := RepLogs(logs, r);
    var path := ValidLogs(pins, mine, r);
    ValidLogsAreLinkedLogs(pins, mine, r);
    KeepSorted(mine, LogDate, LinkedTo(pins), true);
    var linked := Keep(mine, LinkedTo(pins), true);
    assert forall l :: l in linked <==> l in logs && l.repId == r && FindPin(pins, l.pinId).Some?;
    if path == [] {
      assert linked == [];
    } else {
      assert EntryLogs(path)[0] in linked;
    }
  }
}
