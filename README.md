# MissionLine events API — a Dafny model

MissionLine tracks search-and-rescue events. Each event has a roster of member sign-ins,
which are attendance intervals with optional miles, and a set of radio calls. This project
models the events API controller (`EventsController`) and proves properties of the model.
It covers these operations:

- **Merge** two duplicate events:
  - the source event's calls move to the destination;
  - the two rosters are reconciled: they are ordered by member and time in, and every
    sign-in that overlaps the one last accepted for the same member is folded into it;
  - the destination's blank texts and missing closing time are taken from the source;
  - the source event is deleted.
- **Close** an event: refused while a member is still signed in.
- **Reopen** an event: unconditional.
- **Create or update** an event, with all validation errors collected together.
- **List the active events**: open events, or events closed less than two days ago, the most
  recently opened first.

Modules:

- `Wrappers`: the `Option` type, which stands for C#'s nullable values and references.
- `Queries`: LINQ's `Where` (`Filter`) and its stable `OrderBy`/`ThenBy` (`SortBy`, an
  insertion sort). The module proves that sorting permutes its input, yields a sorted
  result and is stable, and that filtering keeps the order and the multiplicity of what it
  keeps.
- `Roster`: the reconciliation scan.
  - It is specified as a fold. `Step` visits one sign-in; `Coalesce` applies it to a whole
    ordered list; `MergedRoster` orders the union of both rosters and folds it.
  - It is also implemented as the source's loop (`MergeRosters`). The loop edits the
    destination roster in place: absorbed destination records are removed, surviving source
    records are added and the absorbing record is updated. Its postcondition ties the result
    to the fold.
- `Events`:
  - the `SarEvent` class, whose fields the controller updates;
  - the `EventStore` class, which holds the events table, the sign-in table grouped by
    owning event, and the calls table;
  - the operations above, the validation rules and the active-event listing.

Behaviour of the source that the model reproduces as written:

- **Miles are not summed.** The expression `lastSignin.Miles ?? 0 + thisSignin.Miles ?? 0`
  parses as `last ?? ((0 + cand) ?? 0)`. An absorbing sign-in therefore keeps its own miles
  if it has any, and otherwise takes the candidate's (`Roster.MilesAfterAbsorb`).
- **Touching intervals merge.** A sign-in that starts exactly when the last accepted one
  ends is absorbed.
- **Open sign-ins.** An absorbing sign-in that is still open takes the candidate's time
  out, even if the candidate has ended.
- **Merge returns an empty result.** It builds the merged projection, then returns a
  fresh, empty `SubmitResult` (`src/Website/Api/EventsController.cs:191`). The model's
  `Merge` returns `SubmitResult([], None)`.
- **No not-found errors.** Merge, Close and Reopen look the event up with
  `SingleOrDefaultAsync` and dereference the result without checking for null, so a
  missing event ends in a null-reference exception. The update path of SaveEvent looks it
  up with `Single` (`src/Website/Api/EventsController.cs:276`), which throws
  `InvalidOperationException` when there is no such event. No operation reports a missing
  event as an error result. The model therefore makes the existence of the event a
  precondition of each method.
- **Validation bounds follow the server's zone.** The bounds 2000-01-01 and 2100-01-01 are
  built from a `DateTime` without a zone, so they are midnight in the server's zone. The
  model takes that zone's UTC offset as the parameter `offset` of `MinDate` and `MaxDate`.

Times are instants in seconds. The organisation's time-zone conversion (`ToOrgTime`) is
the parameter `toOrg`, and the current time (`DateTimeOffset.UtcNow`) is the parameter
`now`.

## Model

| member | source | states |
|---|---|---|
| Queries.Filter | src/Website/Api/EventsController.cs:60 | the result holds exactly the elements of the input that satisfy the predicate, and is no longer than the input |
| Queries.FilterCount | src/Website/Api/EventsController.cs:60 | filtering keeps every occurrence of a value that satisfies the predicate and no occurrence of one that does not |
| Queries.FilterConcat | src/Website/Api/EventsController.cs:60 | filtering distributes over concatenation, so the kept elements stay in their input order |
| Queries.SortBy | src/Website/Api/EventsController.cs:134 | the sort's output is a permutation of its input |
| Queries.SortBySorted | src/Website/Api/EventsController.cs:134 | for a total preorder, the sort's output is sorted |
| Queries.SortByStable | src/Website/Api/EventsController.cs:134 | the sort is stable, as `OrderBy`/`ThenBy` are: for any key, the values with that key appear in the output in exactly their input order |
| Roster.SortSignIns | src/Website/Api/EventsController.cs:134 | the combined roster ordered by member, then by time in, is a permutation of the concatenation of the two rosters; it is sorted by that key; and sign-ins with equal member and time in keep their input order |
| Roster.TiesSourceFirst | src/Website/Api/EventsController.cs:134 | among sign-ins with the same member and time in, the scan visits the source event's first, in their order, and then the destination's; this decides which of them survives |
| Roster.MilesAfterAbsorb | src/Website/Api/EventsController.cs:147-148 | the miles after an absorption are the absorbing sign-in's miles if it has any, otherwise the candidate's: the first non-null value, never a sum; null exactly when both are null |
| Roster.Step | src/Website/Api/EventsController.cs:139-160 | one iteration of the scan: the visited sign-in is absorbed into the last accepted one, or else appended as the new last accepted one |
| Roster.StepShape | src/Website/Api/EventsController.cs:139-160 | a step changes at most the last accepted sign-in; it keeps the length exactly when the last accepted sign-in absorbs the visited one, and otherwise appends the visited one unchanged; the last accepted sign-in is then for the visited member |
| Roster.Coalesce | src/Website/Api/EventsController.cs:136-161 | the scan over a whole list keeps no more sign-ins than it visits, and at least one when the list is not empty |
| Roster.MergedRoster | src/Website/Api/EventsController.cs:134-161 | the reconciled roster of a merge is no longer than the two rosters together, and is empty exactly when both are |
| Roster.Absorb | src/Website/Api/EventsController.cs:141-148 | absorbing keeps the id, member, event and time in; the result is open exactly when the candidate is open; when both have ended it ends at the later time out; an open absorbing sign-in takes the candidate's time out; miles as in MilesAfterAbsorb |
| Roster.SurvivesIff | src/Website/Api/EventsController.cs:136-161 | a sign-in of the scan is kept exactly when it is the first one, or when the sign-in last accepted before it is for another member or has ended strictly before it begins; otherwise its id disappears from the result |
| Roster.FirstOfMemberSurvives | src/Website/Api/EventsController.cs:139 | the first sign-in of each member in scan order always survives the reconciliation |
| Roster.CoalesceSettled | src/Website/Api/EventsController.cs:136-161 | after the scan, consecutive sign-ins of the same member do not overlap: the earlier one has ended strictly before the later one begins |
| Roster.CoalesceSorted | src/Website/Api/EventsController.cs:134-161 | the scan of a list ordered by member and time in stays ordered by member and time in |
| Roster.SettledFixpoint | src/Website/Api/EventsController.cs:136-161 | a roster whose consecutive same-member sign-ins are already disjoint passes through the scan unchanged |
| Roster.CoalesceIdempotent | src/Website/Api/EventsController.cs:136-161 | reconciling an already reconciled roster changes nothing |
| Roster.MergeEmptyIsIdentity | src/Website/Api/EventsController.cs:134-161 | merging an empty roster into a roster held in scan order and already reconciled leaves it unchanged, as a sequence |
| Roster.MergedRosterOrdered | src/Website/Api/EventsController.cs:134-161 | the reconciled roster is in scan order and its consecutive same-member sign-ins are disjoint |
| Roster.ApartInOrder | src/Website/Api/EventsController.cs:139-141 | in an ordered, reconciled roster of well-timed sign-ins, of two different sign-ins of one member, the one that begins no later has ended strictly before the other begins |
| Roster.RemergeSettled | src/Website/Api/EventsController.cs:134-161 | the records of a reconciled, well-timed roster, held in any order, are reconciled again once re-ordered by member and time in |
| Roster.RemergeEmpty | src/Website/Api/EventsController.cs:134-161 | merging an empty roster into a roster that holds the records of a reconciled, well-timed roster, in any order, keeps exactly its records |
| Roster.MergedRosterMembers | src/Website/Api/EventsController.cs:134-161 | the merged roster has a sign-in for exactly the members who signed in to either event: nobody is lost and nobody is added |
| Roster.MergedRosterIds | src/Website/Api/EventsController.cs:134-161 | every sign-in the merge keeps is a record of one of the two rosters |
| Roster.WithoutId | src/Website/Api/EventsController.cs:151 | removing a sign-in from the destination roster keeps exactly the other records, with their ids still distinct |
| Roster.ReplaceByIdMembers | src/Website/Api/EventsController.cs:145-148 | updating the carried sign-in in place replaces exactly the record with its id and keeps the roster's set of ids and their distinctness |
| Roster.MergeRosters | src/Website/Api/EventsController.cs:134-161 | the loop that edits the destination roster ends with exactly the sign-ins that the reconciliation keeps, each once, with their final time out and miles |
| Events.PreferDestination | src/Website/Api/EventsController.cs:163-178 | a non-blank destination text is kept; a blank one takes the source's value; the result is blank exactly when both are blank |
| Events.MergeDetails | src/Website/Api/EventsController.cs:163-182 | the merged fields keep the destination's name and opening time; each of the four texts is the destination's value unless that is blank, in which case it is the source's value; each text is blank exactly when both are blank; the destination's closing time wins, and the source's is used only when the destination has none; the result is open exactly when both events are open |
| Events.MergeDetailsIdempotent | src/Website/Api/EventsController.cs:163-182 | merging the same source's fields a second time changes nothing |
| Events.MergeDetailsKeepsFilled | src/Website/Api/EventsController.cs:163-182 | a destination whose four texts are all non-blank and which has a closing time keeps every field whatever the source; merging an event's fields into themselves changes nothing |
| Events.SarEvent.AbsorbDetails | src/Website/Api/EventsController.cs:163-182 | the destination event's new fields are the MergeDetails of the source's fields and its own old fields |
| Events.Reassigned | src/Website/Api/EventsController.cs:129-132 | reassignment keeps the number of calls |
| Events.ReassignedMovesCalls | src/Website/Api/EventsController.cs:129-132 | reassignment keeps every call's id, leaves no call on the source event, moves every call of the source to the destination and leaves every other call as it was |
| Events.ReassignedOwners | src/Website/Api/EventsController.cs:129-132 | after reassignment every call belongs to an event other than the deleted source |
| Events.EventStore.ReassignCalls | src/Website/Api/EventsController.cs:129-132 | the loop over the calls table leaves it equal to its reassigned form and changes nothing else |
| Events.Adopt | src/Website/Api/EventsController.cs:156-158 | once saved, every sign-in of the merged roster belongs to the destination event; records, ids and members are otherwise unchanged |
| Events.MergeKeepsRosters | src/Website/Api/EventsController.cs:134-184 | replacing the two rosters by one destination roster drawn from their records keeps the sign-in table well formed: each record is under the event it names, and ids are unique within and across events |
| Events.AdoptKeepsOrder | src/Website/Api/EventsController.cs:156-158 | re-parenting the merged roster to the destination keeps it in scan order and reconciled |
| Events.RemergeEmptyAfterMerge | src/Website/Api/EventsController.cs:134-184 | a destination roster holding exactly the records a merge left there, in any order, keeps exactly those records when an event with an empty roster is merged into it, provided every sign-in ended no earlier than it began |
| Events.MergeSignIns | src/Website/Api/EventsController.cs:134-184 | after the merge the sign-in table has no roster for the source; the destination's roster holds exactly the reconciled sign-ins, re-parented to it; every other roster is unchanged; the table stays well formed |
| Events.EventStore.Merge | src/Website/Api/EventsController.cs:115-192 | a merge deletes the source event; reassigns its calls; makes the destination roster exactly the reconciled roster of both events; merges the fields by MergeDetails; leaves every other event and roster unchanged; keeps the store consistent; returns an empty result |
| Events.OpenCount | src/Website/Api/EventsController.cs:81 | the number of open sign-ins is positive exactly when some sign-in has no time out |
| Events.EventStore.Close | src/Website/Api/EventsController.cs:76-96 | closing succeeds exactly when every sign-in of the event has a time out, and then the closing time is the current time in the organisation's zone; otherwise the only error is the "signed out" message and the event is unchanged |
| Events.EventStore.Reopen | src/Website/Api/EventsController.cs:100-111 | reopening clears the closing time, changes no other field and returns an empty result |
| Events.ValidationErrors | src/Website/Api/EventsController.cs:237-257 | there are no errors exactly when the event is acceptable; each error is reported exactly when its condition holds (name blank; opening out of range; closing out of range; closing in range but before opening); there are at most three errors, all about name, opened or closed |
| Events.OneClosedError | src/Website/Api/EventsController.cs:247-257 | at most one error is reported about the closing time |
| Events.CollectErrors | src/Website/Api/EventsController.cs:236-257 | appending the errors check by check yields exactly ValidationErrors |
| Events.EventStore.SaveEvent | src/Website/Api/EventsController.cs:234-289 | the errors are exactly ValidationErrors; with any error nothing is stored and no data is returned; otherwise either a new event is created with the submitted name, the converted times, no texts and an empty roster, or the existing event gets the submitted name and the converted times with its texts, its roster and every other event unchanged; the returned data is the event's projection |
| Events.SarEvent.Entry | src/Website/Api/EventsController.cs:206-212 | the projection: the event's id, name, opening and closing times |
| Events.IsWhiteSpace | src/Website/Api/EventsController.cs:237 | the characters `char.IsWhiteSpace` accepts: the Unicode space separators, the line and paragraph separators, and U+0009 to U+000D and U+0085 |
| Events.IsNullOrWhiteSpace | src/Website/Api/EventsController.cs:237 | a text is blank when it is null or all of its characters are white space, including the empty text |
| Events.MinDate | src/Website/Api/EventsController.cs:25 | the lower bound is 2000-01-01 00:00 in the server's zone, as an instant |
| Events.MaxDate | src/Website/Api/EventsController.cs:26 | the upper bound is 2100-01-01 00:00 in the server's zone, as an instant |
| Events.IsActive | src/Website/Api/EventsController.cs:60 | an event is listed as active when it is open or was closed after the cutoff, two days before now converted to the organisation's zone |
| Events.SarEvent.constructor | src/Website/Api/EventsController.cs:266-271 | a new event has the given name and times and no texts |
| Events.ActiveEvents | src/Website/Api/EventsController.cs:56-62 | the listing holds exactly the events that are open or were closed after the cutoff two days before now; it is a permutation of the filtered rows, ordered with the most recently opened first |

## Left out

- Entity Framework, `async`/`await`, the `using` scopes and `SaveChangesAsync` are not
  modelled: each operation is one atomic change of the store.
- The push-hub notifications (`updatedEvent`, `removedEvent`) are left out; they are
  external I/O.
- `ToOrgTime` and `DateTimeOffset.UtcNow` are the parameters `toOrg` and `now`. The
  server's UTC offset is the parameter `offset`.
- Events.EventStore.Merge: requires the two ids to be distinct. With equal ids the source
  would load one entity twice and then delete it; that case is not modelled.
- Events.EventStore.Merge, Close, Reopen, SaveEvent: a missing event is a precondition,
  because the code dereferences a null reference rather than returning an error.
- Sign-ins are values, not shared objects. The in-place update of the carried sign-in is
  modelled by replacing the record with its id in the destination roster, so aliasing
  between the two rosters is not captured.
- Events.EventStore.Merge: the destination roster is stated by membership, not order,
  because an entity collection has no order.
- The foreign-key fix-up that Entity Framework performs on save (sign-ins added to the
  destination take its id) is written out explicitly as `Adopt`.
- Absorbed source sign-ins stay on the deleted event and go with it (cascade delete); the
  model drops the source's roster from the sign-in table.
- Events.RemergeEmptyAfterMerge: assumes every sign-in that has ended ended no earlier than
  it began; the source does not enforce this, and without it a re-merge can absorb a
  record.
- Events.ActiveEvents: the database's order among events with equal opening times is
  unspecified; the model keeps their input order.
- Events.EventStore.SaveEvent: the id a new event receives is the parameter `newId`, which
  the database would assign.
- The compilation of the projection expression (`proj.Compile()`) is not modelled; the
  projection is `SarEvent.Entry`.
- The `Get` endpoints, `Post`/`Put` wrappers and the constructors only delegate to the
  modelled operations or to infrastructure, and are not part of this model.
- `roster-service.js`, `TestMemberSource.cs`, `HomeController.cs` and `TwilioRequest.cs`
  are not part of this model.
