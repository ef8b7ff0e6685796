# Site assignment core of a field-sales CRM

This project models the core of a field-sales CRM web app. In the app, sales
representatives ("reps", called "contacts" in the `src/` build) are
assigned to sites ("pins") on a map. The app keeps one active site per rep.
It logs every assignment, and it shows a rep's trajectory through the sites
they worked at.

The model covers these parts:

- **The store** (`store.js`). It is a class, `Store.Store`, whose three
  collections (`reps`, `pins`, `logs`) are `seq` fields. Every mutator
  reassigns them. A counter `nextId` stands for the id generator. The
  invariant `Valid` says that ids are fresh and unique and that rep names
  and site names are unique. Every mutator keeps it.
- **The site controller of the `features/` build** (`features/PinManager.js`).
  `PinFlow.PinManager` is a class over the store. It covers the
  availability check, the edit with its Correction and Handover paths,
  restoration of a released rep's previous site, completion, deletion and
  form submission.
- **The site controller of the `src/` build**
  (`src/components/Pin/PinManager.js`). `ContactPinFlow.ContactPinManager`
  is the same flow with contact/title names. It has no Correction prompt,
  no log pruning and no restoration.
- **Search** (both `SearchManager.js` files). This covers the local part of
  `performSearch` and the data preparation of `showTrajectory`: join each
  log to its site, drop logs whose site is gone, mark the current site,
  sort newest first (stably), and number each row by its position in the
  path.

Each controller method is proved against a pure *outcome function*
(`Flow.CheckOutcome`, `Flow.EditOutcome`, `Flow.DeleteOutcome`, …). The
outcome function gives the verdict and the three collections afterwards,
as functions of the collections before. The properties are lemmas about
these functions:

- A site is active exactly when it has a rep (`Consistent`).
- No rep is active on two sites (`AtMostOneActive`).
- Every flow keeps both of these invariants.
- A conflict completed by the availability check stays completed when the
  later edit fails.
- Restoration gives up when the latest candidate's site was deleted.
- The two builds agree wherever their code agrees.

Each answer to a `confirm()` dialog is a boolean parameter. A `TypeError`
from reading a field of a missing record (`rep.name`, `pin.siteName`,
`this.selectedLocation.address`) is modelled as `Err(MissingRecord)`, with
nothing written after that point.

## Model

| member | source | states |
|---|---|---|
| Domain.Assigned | store.js:172-173 | The site keeps every field but rep and status (id, name, address, location, photo, notes, creation time), becomes active under the given rep, and status agrees with rep |
| Domain.Unassigned | store.js:186-188 | The site keeps every field but rep and status, becomes 'new' with no rep, and is active for nobody |
| Domain.Completed | features/PinManager.js:256 | The site keeps every field but rep and status, becomes 'complete' with no rep, and is active for nobody |
| Domain.UnassignedIdempotent | store.js:186-188 | Releasing an already released site leaves the same site |
| Domain.HolderIsUnique | store.js:37-39 | In a table without double bookings, a rep active at one index is active at no other |
| Domain.ReleaseKeepsAssignments | store.js:180-192 | Overwriting a site with one active for nobody keeps both invariants |
| Domain.AssignKeepsAssignments | store.js:167-178 | Assigning a rep who is active nowhere else keeps both invariants |
| Domain.RemoveKeepsAssignments | store.js:152-160 | Removing a site keeps both invariants |
| Domain.AppendKeepsAssignments | store.js:101-115 | Appending a consistent site whose rep is active nowhere keeps both invariants |
| Domain.RelabelKeepsAssignments | store.js:135-140 | Rewriting a site without touching rep or status keeps each invariant |
| Seqs.Keep | store.js:213 | The result holds exactly the elements with the key, and is no longer than the input |
| Seqs.Drop | store.js:227 | The result holds exactly the elements without the key, and is no longer than the input |
| Seqs.KeepAppend | store.js:213 | Filtering a concatenation is the concatenation of the filtered parts (order preserved) |
| Seqs.DropAppend | store.js:234 | Removing from a concatenation is the concatenation of the pruned parts (order preserved) |
| Seqs.KeepDropPartition | store.js:234 | What the filter keeps and what it removes make up the input exactly, as multisets |
| Seqs.DropAll | store.js:234 | Removing by a key that every element has leaves nothing |
| Seqs.KeepLastOf | store.js:213 | The last element of a sequence is the last one kept by the filter on its own key |
| Seqs.KeepDropLastOf | features/PinManager.js:303-304 | When every element after index j has key k and element j does not, element j is the last one left after keeping its own date and removing key k |
| Seqs.DropKeepsDistinct | store.js:72-76 | Removing elements keeps any key unique |
| Seqs.RemoveKeepsDistinct | store.js:157 | Splicing out one element keeps any key unique |
| Sorting.SortBy | store.js:214 | The result is a permutation of the input and is sorted by the key |
| Sorting.InsertByFacts | store.js:214 | Inserting adds exactly one element and keeps a sorted sequence sorted |
| Sorting.InsertByStable | store.js:214 | Inserting into a sorted sequence keeps elements of equal key in their order, with the new one last |
| Sorting.SortByStable | store.js:214 | For every key, the elements with that key come out in their input order (a stable sort) |
| Sorting.KeepSorted | store.js:212-214 | Filtering a sorted sequence leaves it sorted |
| Sorting.SortedLastIsGreatest | store.js:220-222 | The last element of a sorted non-empty sequence has the greatest key |
| Sorting.SortedStableUnique | store.js:214 | Two sorted sequences that agree on the order within every key are equal |
| Sorting.SortByIsTheStableSort | store.js:214 | Any sorted arrangement that keeps equal keys in input order is SortBy's result: the stable sort is unique |
| Phone.Digits | store.js:80 | The result is all digits and no longer than the input |
| Phone.DigitsAppend | store.js:80 | Stripping non-digits distributes over concatenation |
| Phone.DigitsOfDigits | store.js:80 | Stripping a digit string changes nothing |
| Phone.DashedKeepsDigits | store.js:81-82 | The ddd-dddd-dddd layout of eleven digits has the dashed shape and carries exactly those digits |
| Phone.FormatPhone | store.js:78-85 | "" stays ""; the output's digits are the input's digits cut to eleven; with eleven or more digits the output has the dashed shape, otherwise it is the bare digits |
| Phone.FormatPhoneIdempotent | store.js:78-85 | Normalising a normalised phone changes nothing |
| Store.FindRep | store.js:33 | The index found holds the id and no earlier rep does; None means no rep has the id |
| Store.FindPin | store.js:92 | The index found holds the id and no earlier site does; None means no site has the id |
| Store.ActivePinOf | store.js:37-39 | The first site where the rep is active; None exactly when the rep is active nowhere |
| Store.RepLogs | store.js:211-215 | Exactly the rep's logs, as a multiset, in non-decreasing date order |
| Store.RepLogsKeepsInsertionOrder | store.js:211-215 | Logs with equal dates keep the order they were written in |
| Store.LatestLog | store.js:219-223 | None exactly when the rep has no log; otherwise one of the rep's logs with the greatest date, and among the rep's logs of that date the one written last |
| Store.RepLogsLastIsLastWritten | store.js:211-223 | The last of the rep's date-ordered logs is, among the rep's logs of its date, the one written last |
| Store.TieBreakOfLast | store.js:214 | When a sorted sequence and the written history agree on the order of one date, the sorted sequence's last element ends that date in the history |
| Store.Patched | store.js:135-146 | Id, address, location and creation time are kept; the name is the decided one; photo, notes, rep and status are written when supplied and kept otherwise |
| Store.NewPin | store.js:101-112 | Carries the given id, name, rep, address, location and notes and the current time; status agrees with the rep and is never 'complete'; a photo given as "" is stored as none, any other photo is kept |
| Store.RenameKeepsDistinct | store.js:58-63 | Keeping a rep's name, or taking a name no rep has, keeps rep names unique |
| Store.UnassignTwice | store.js:180-192 | Unassigning the same site twice leaves the table as after once: the site is still found at the same index and the second release changes nothing |
| Store.Store.constructor | store.js:10-22 | The three collections start empty and the invariant holds |
| Store.Store.FreshId | store.js:26 | Returns an id no record carries and advances the counter |
| Store.Store.GetRep | store.js:33 | The rep found has the id; None exactly when no rep has it |
| Store.Store.GetRepActivePin | store.js:37-39 | The site found is one where the rep is active; None exactly when the rep is active nowhere |
| Store.Store.GetPin | store.js:92 | The site found has the id; None exactly when no site has it |
| Store.Store.GetRepLogs | store.js:211-215 | Exactly the rep's logs, each as often as stored, in non-decreasing date order, logs of one date in the order written |
| Store.Store.GetRepLatestLog | store.js:219-223 | None exactly when the rep has no log; otherwise one of the rep's logs with the greatest date, the last written among that date |
| Store.Store.AddRep | store.js:41-50 | Fails exactly on a taken name, changing nothing; otherwise appends one rep with a fresh id and a normalised phone |
| Store.Store.UpdateRep | store.js:52-70 | Unknown id → RepNotFound; rename onto a taken name → DuplicateRepName, nothing changed; otherwise only that rep changes, keeping a value given as "" |
| Store.Store.DeleteRep | store.js:72-76 | Removes every rep with the id, the rest in order; sites and logs untouched |
| Store.Store.LogActivity | store.js:199-208 | Appends exactly one log with a fresh id, dated now |
| Store.Store.AddPin | store.js:94-123 | Fails exactly on a taken site name; otherwise appends the new site with a fresh id, plus one log exactly when a rep is given |
| Store.Store.UpdatePin | store.js:125-150 | Unknown id or rename onto a taken name fails with nothing written; otherwise only the found site is patched and no log is written |
| Store.Store.DeletePin | store.js:152-160 | Reports whether the id existed and splices out the first site with it; logs untouched |
| Store.Store.AssignRep | store.js:167-178 | Only that site becomes active under the rep, and exactly one log is appended |
| Store.Store.UnassignRep | store.js:180-192 | Only that site becomes 'new' with no rep; the former rep is returned and no log is written |
| Store.Store.DeleteLog | store.js:225-229 | Removes every log with the id, the rest in order |
| Store.Store.DeleteLogByRepAndPin | store.js:231-236 | Removes every log linking that rep to that site, the rest in order |
| Flow.Conflict | features/PinManager.js:250-252 | A conflict is a site where the rep is active that is not the edited one; there is none without a rep |
| Flow.ConflictIsBusyElsewhere | features/PinManager.js:249-263 | In a table without double bookings: no conflict exactly when the rep is free apart from the edited site, and completing the conflict leaves the rep active nowhere |
| Flow.LastOtherSite | features/PinManager.js:303-304 | The last log naming another site: every later log names the ignored site |
| Flow.RestoreCandidate | features/PinManager.js:301-306 | A log of the rep for another site; None exactly when all the rep's logs name the ignored site |
| Flow.RestoreCandidateIsLatest | features/PinManager.js:301-306 | The candidate is dated no earlier than any of the rep's logs for another site |
| Flow.RestoreCandidateIsLastWritten | features/PinManager.js:301-306 | Among the rep's logs for another site with the candidate's date, the candidate is the one written last |
| Flow.CandidateTieBreak | features/PinManager.js:303-304 | The last log of a sorted history not naming the ignored site is the last written, among its date, of those not naming it |
| Flow.RestoreTarget | features/PinManager.js:307-310 | The target is exactly the candidate's site when that site still exists and is not active; otherwise there is none |
| Flow.RestoreOutcome | features/PinManager.js:301-317 | Err exactly when there is a target but no rep; Ok(true) exactly on a target, an existing rep and an accept, which assigns the rep there with one log; otherwise nothing changes |
| Flow.RestoreKeepsAssignments | features/PinManager.js:301-317 | Restoring keeps status and rep in agreement, and keeps the table free of double bookings when the rep is active nowhere |
| Flow.RestoreKeepsIds | features/PinManager.js:336-337 | Restoration introduces no site id |
| Flow.RestoreGivesUpOnDeletedSite | features/PinManager.js:303-308 | Concrete history: a rep's latest other site was deleted, so nothing is restored, though an older site still exists and would be restored without the latest log |
| Flow.Edited | features/PinManager.js:267-271 | The form keeps id, rep, status, address, location and creation time; it sets notes and photo; an empty name keeps the old name |
| Flow.CompleteUpdateCompletes | features/PinManager.js:256 | The completion update applied through updatePin is the Completed transition, with no rename |
| Flow.Reassigned | features/PinManager.js:276-298 | Every field but rep and status is kept; the same rep leaves the site untouched; a different rep leaves it with that rep (or none), status agreeing |
| Flow.AssignLog | features/PinManager.js:296-297 | One log, exactly when a new and different rep is chosen |
| Flow.CheckOutcome | features/PinManager.js:249-263 | Logs never change; no conflict → proceed unchanged; with a conflict, failure exactly when the rep is missing; an existing rep and an accept → proceed with exactly the conflicting site completed; an existing rep and a decline → refusal with nothing changed |
| Flow.CheckFreesRep | features/PinManager.js:249-263 | The check keeps both invariants, and after it proceeds the rep is active at most on the edited site |
| Flow.ReleaseOutcome | features/PinManager.js:276-293 | The site loses its rep; Correction deletes exactly the rep's logs for the site; Handover deletes no log and is exactly the restoration of the released rep's previous site over the released table |
| Flow.ReleaseKeepsInvariants | features/PinManager.js:276-293 | Releasing keeps both invariants and leaves another rep's freedom as it was |
| Flow.EditOutcome | features/PinManager.js:265-299 | Unknown site → PinNotFound with nothing changed; renaming onto a taken name → DuplicateSiteName with nothing changed; any failure other than a missing record changes nothing |
| Flow.RepChangeOutcome | features/PinManager.js:273-298 | An unchanged rep changes nothing; failures can only be a missing record |
| Flow.RepChangeKeepsInvariants | features/PinManager.js:273-298 | The rep change keeps status and rep in agreement, and keeps the table free of double bookings when the new rep is active nowhere else |
| Flow.EditKeepsAssignments | features/PinManager.js:265-299 | The edit keeps both invariants when the new rep is free apart from this site |
| Flow.EditRepChange | features/PinManager.js:265-299 | After a successful edit the site has the new rep; an unchanged rep only rewrites name, notes and photo; Correction leaves the logs pruned of the old rep's logs for the site plus the new one; Handover runs the restoration of the old rep over the released site, failing as it fails, and appends the new assignment log to its logs |
| Flow.EditCorrectionTables | features/PinManager.js:276-298 | On Correction the edit succeeds; every other site is unchanged, the edited one is reassigned, the old rep's logs for the site are pruned and the new assignment logged, with one id drawn per log |
| Flow.EditHandoverTables | features/PinManager.js:276-298 | On Handover a failed restoration fails the edit with restoration's tables; a successful one leaves its sites with the edited site reassigned, its logs plus the assignment log, and ids drawn after its own |
| Flow.EditWithoutRelease | features/PinManager.js:265-299 | With no rep to release, the edit succeeds; only the edited site changes (rewritten and reassigned) and only an assignment log is added |
| Flow.RepChangeAfterRelease | features/PinManager.js:294-298 | After a failed release the rep change stops there; after a successful one it reassigns the site on the released tables and appends the assignment log |
| Flow.DeleteOutcome | features/PinManager.js:327-343 | Failure exactly when the edited site is missing; deletion exactly on an edited site that exists and an accept; a failure or a decline changes nothing; a deletion removes one site, and when the site was active it is followed by the restoration of its rep's previous site over the spliced table |
| Flow.DeleteKeepsInvariants | features/PinManager.js:327-343 | Deletion keeps both invariants, removes the site's id, and removes no log; without an active rep it is exactly the splice |
| Flow.RemovedSiteFacts | features/PinManager.js:332-333 | After the splice no site carries the id, both invariants hold, and the rep the site held is active nowhere |
| Flow.AddOutcome | features/PinManager.js:134-143 | Success exactly with a location and a free name; no location → MissingRecord, a taken name → DuplicateSiteName, nothing changed; on success exactly the new site is appended, one log when a rep is given, ids drawn per record |
| Flow.AddKeepsAssignments | features/PinManager.js:134-143 | Adding keeps status and rep in agreement, and keeps the table free of double bookings when the rep is active nowhere |
| Flow.SubmitOutcome | features/PinManager.js:122-152 | A quiet return (Ok(false)) happens exactly when a conflict with an existing rep is declined, with nothing changed |
| Flow.SaveOutcome | features/PinManager.js:132-145 | The save never reports a refusal; an edit leaves EditOutcome's tables and fails exactly when it fails; an add is AddOutcome, succeeding exactly with a location and a free name |
| Flow.SaveKeepsAssignments | features/PinManager.js:132-145 | The save keeps both invariants when the rep is free apart from the edited site |
| Flow.SubmitKeepsAssignments | features/PinManager.js:122-152 | Submission keeps both invariants: no form flow introduces a double booking |
| Flow.ConflictCompletionPersists | features/PinManager.js:129-133 | When the edit fails on a duplicate name after an accepted conflict, the conflicting site stays completed; renaming onto a name taken in the completed table is such a failure |
| Flow.ConflictCompletionReachable | features/PinManager.js:122-133 | Concrete history: the rep's conflicting site is completed and the rename onto that site's name fails with DuplicateSiteName, the completion kept |
| PinFlow.PinManager.constructor | features/PinManager.js:24-27 | The form starts outside edit mode, with no site, location or photo |
| PinFlow.PinManager.CheckRepAvailability | features/PinManager.js:249-263 | Verdict and new store are those of CheckOutcome (an accepted conflict completes exactly the conflicting site); reps untouched |
| PinFlow.PinManager.CheckAndRestorePreviousSite | features/PinManager.js:301-317 | Verdict and new store are those of RestoreOutcome: the rep is reassigned, with one log, exactly when the latest other-site log names an existing idle site, the rep exists and the user accepts |
| PinFlow.PinManager.CompletePin | features/PinManager.js:319-325 | On accept, the found site is completed; an unknown id fails; no log or counter changes; both invariants are kept |
| PinFlow.PinManager.HandlePinUpdate | features/PinManager.js:265-299 | Verdict and new store are those of EditOutcome |
| PinFlow.PinManager.ChangeRep | features/PinManager.js:273-298 | Verdict and new store are those of RepChangeOutcome |
| PinFlow.PinManager.ReleaseChangedRep | features/PinManager.js:276-293 | Verdict and new store are those of ReleaseOutcome |
| PinFlow.PinManager.HandleSubmit | features/PinManager.js:122-152 | Verdict and new store are those of SubmitOutcome, and both invariants are kept |
| PinFlow.PinManager.SaveSite | features/PinManager.js:132-145 | Verdict and new store are those of SaveOutcome |
| PinFlow.PinManager.HandleDelete | features/PinManager.js:327-343 | Verdict and new store are those of DeleteOutcome, with the restoration's failure ignored; both invariants are kept |
| ContactFlow.ContactEditOutcome | src/components/Pin/PinManager.js:387-406 | Unknown site → PinNotFound; a rename onto a taken title → DuplicateSiteName with nothing changed, whether or not the contact changes (the updatePin guard of store.js:129-133 runs first); success exactly when the site exists and the title is free; a failure changes nothing; no log is removed and at most one is added |
| ContactFlow.ContactEditReassigns | src/components/Pin/PinManager.js:387-406 | A successful edit leaves the site with the new contact and logs exactly the new assignment |
| ContactFlow.ContactEditKeepsAssignments | src/components/Pin/PinManager.js:387-406 | The edit keeps both invariants when the new contact is free apart from this site |
| ContactFlow.ContactEditAgreesWithoutRepChange | src/components/Pin/PinManager.js:387-406 | With the contact unchanged, the two builds' edits give the same result |
| ContactFlow.ContactEditKeepsCorrectionLogs | src/components/Pin/PinManager.js:398-400 | On a contact change both builds leave the same sites; pruning the old contact's logs for the site from the `src/` history gives the Correction history |
| ContactFlow.ContactSubmitOutcome | src/components/Pin/PinManager.js:229-259 | A quiet return happens exactly when a conflict with an existing contact is declined; no log is ever removed |
| ContactFlow.ContactSaveOutcome | src/components/Pin/PinManager.js:239-252 | The save never reports a refusal and removes no log; an edit leaves ContactEditOutcome's tables and fails exactly when it fails; an add is AddOutcome, succeeding exactly with a location and a free title |
| ContactFlow.ContactSubmitKeepsAssignments | src/components/Pin/PinManager.js:229-259 | Submission keeps both invariants |
| ContactFlow.CompleteOutcome | src/components/Pin/PinManager.js:408-418 | Success exactly on an accept and an existing site, which becomes Completed with every other site unchanged; logs never change |
| ContactFlow.CompleteKeepsAssignments | src/components/Pin/PinManager.js:408-418 | Completion keeps both invariants and leaves the site 'complete' with no contact |
| ContactFlow.ContactDeleteOutcome | src/components/Pin/PinManager.js:420-434 | Failure exactly when the edited site is missing; deletion exactly on an accept, removing one site; logs never change |
| ContactFlow.ContactDeleteIsDeclinedRestore | src/components/Pin/PinManager.js:420-434 | The `src/` deletion equals the `features/` deletion with restoration declined |
| ContactFlow.ContactDeleteKeepsInvariants | src/components/Pin/PinManager.js:420-434 | Deletion keeps both invariants |
| ContactPinFlow.ContactPinManager.constructor | src/components/Pin/PinManager.js:27-30 | The form starts outside edit mode, with no site, location or photo |
| ContactPinFlow.ContactPinManager.CheckContactAvailability | src/components/Pin/PinManager.js:371-385 | Verdict and new store are those of CheckOutcome (an accepted conflict completes exactly the conflicting site); after a go-ahead the contact is active at most on the edited site |
| ContactPinFlow.ContactPinManager.HandlePinUpdate | src/components/Pin/PinManager.js:387-406 | Verdict and new store are those of ContactEditOutcome |
| ContactPinFlow.ContactPinManager.HandleSubmit | src/components/Pin/PinManager.js:229-259 | Verdict and new store are those of ContactSubmitOutcome, and both invariants are kept |
| ContactPinFlow.ContactPinManager.SaveSite | src/components/Pin/PinManager.js:239-252 | Verdict and new store are those of ContactSaveOutcome |
| ContactPinFlow.ContactPinManager.CompletePin | src/components/Pin/PinManager.js:408-418 | Verdict and new store are those of CompleteOutcome, and both invariants are kept |
| ContactPinFlow.ContactPinManager.HandleDelete | src/components/Pin/PinManager.js:420-434 | Verdict and new store are those of ContactDeleteOutcome, and both invariants are kept |
| Search.Includes | features/SearchManager.js:103 | True exactly when the query occurs in the string at some position |
| Search.ShiftOccurrence | features/SearchManager.js:103 | A query that does not start the string occurs in it exactly when it occurs in its tail |
| Search.PerformSearch | features/SearchManager.js:93-106 | Hidden exactly on an empty query; otherwise exactly the reps whose name, and the sites whose name or address, contain the query |
| Search.SearchKeepsStoreOrder | features/SearchManager.js:103 | The rep results for a concatenated table are the results for each part, in order |
| Search.IncludesOnlyWithin | src/components/Search/SearchManager.js:160-164 | A query longer than the field never matches it, so a field read as '' matches no non-empty query |
| Search.Join | features/SearchManager.js:280-291 | An entry exactly when the log's site exists; it carries the log and site name, and is current exactly when the rep is active there |
| Search.ValidLogs | features/SearchManager.js:280-292 | Every entry comes from one of the logs and is its join |
| Search.ValidLogsAreLinkedLogs | features/SearchManager.js:280-292 | The path's logs are exactly the logs whose site exists, in log order |
| Search.EntryLogsCons | features/SearchManager.js:280-292 | The logs of a path with one more entry in front are that entry's log followed by the path's logs |
| Search.CurrentEntriesShareOneSite | features/SearchManager.js:283 | In a table without double bookings, all entries marked current point at one site |
| Search.Numbered | features/SearchManager.js:305-312 | Row k carries number k + 1 and the k-th path entry |
| Search.KeepAscending | features/SearchManager.js:305 | Filtering rows with ascending numbers keeps them ascending |
| Search.ListRows | features/SearchManager.js:295 | The list is a permutation of the numbered path, with dates non-increasing |
| Search.RowNumbersMatchMarkers | map_renderer.js:200 | Every listed row's number is its entry's position in the path plus one, as on its marker |
| Search.ListRowsIsTheOnlyListing | features/SearchManager.js:295 | Any newest-first arrangement of the numbered path that keeps the rows of each date in path order is the list |
| Search.SortNumberedStable | features/SearchManager.js:295 | The sort keeps rows of equal date in path order |
| Search.ListRowsStable | features/SearchManager.js:295 | Rows of equal date appear in the list in path order |
| Search.TiesInPathOrder | features/SearchManager.js:295 | Rows of equal date appear with ascending numbers |
| Search.ShowTrajectory | src/components/Search/SearchManager.js:345-368 | "No records" exactly when no log of the rep names an existing site; otherwise the path holds exactly those logs in date order, and the list is a permutation of the numbered path, newest first |
| Search.TrajectoryPathIsLinkedLogs | features/SearchManager.js:244-301 | The joined path of the rep's date-ordered logs is empty exactly when no log of the rep names an existing site, holds exactly those logs, and is in date order |

## Left out

- Storage (`localStorage`, JSON round trips) is left out. Each store operation works directly on the three collections.
- The uuid generator (time plus randomness) is modelled as the counter `nextId`. Freshness is proved, not taken for granted.
- ISO date strings and `new Date()` are modelled as an integer `now` passed in by the caller. Dates compare as integers.
- The DOM, toasts, alerts, map markers, geocoding, image compression and `openPinForm` are left out. The values the form would supply are parameters: the trimmed site name, notes, the rep selection, and the answers to `confirm`.
- `String.prototype.trim` on the site name is left out. The model receives the name already trimmed.
- `async`/`await` is modelled as running in sequence. The one call that is not awaited, restoration in the `features/` `handleDelete`, runs to completion, and its failure is not reported. No interleaving with other events is modelled.
- Strings are sequences of characters, compared exactly. Unicode normalisation and locale behaviour are left out.
- A field missing from a record, which the `src/` search reads as `''`, cannot occur in the model, because every record has every field. `Search.IncludesOnlyWithin` states what such a field would match.
- The `src/` controllers' own store (a remote database behind `getContact`, `getContactActivePin` and `getContactLogs`) is not part of this model. `ContactPinFlow.ContactPinManager` runs against the `store.js` model, with the contact names read as rep names.
- Both SearchManager files share one search model. Their local filters and their trajectory preparation are the same apart from names.
- The remote part of `performSearch` (geocoding) and the drawing of the trajectory are left out.
- Latitude and longitude are real numbers kept together as a `Location`. No arithmetic is done on them.
