# builder-flare-world — a Dafny model of the RSVP core

builder-flare-world is a small event-invitation application. An organiser creates
an event and shares its link. Guests confirm their presence on that link, alone or
as a family. The organiser sees the list on an admin page. A master admin sees
every event.

This project models the part of the program with real decision logic, in Dafny:

* **The guest-name matcher** of `confirmGuest` (module `NameMatcher`). It decides
  whether a new name is
  * an exact duplicate;
  * a lone first name that collides with a stored name ("type your full name");
  * a two-word name too close to a stored one ("add more detail");
  * or acceptable.
* **The per-name loop of `confirmFamily`** (`NameMatcher.FamilyRun`), with its
  partial-success accounting and the rows it inserts.
* **The two tables and the route handlers that change them** (module `Events`,
  class `Store`). A `Store` holds the events, the confirmations and the
  auto-increment counters. The route handlers are its methods:
  * create, update and delete an event;
  * clear an event's list;
  * the admin read;
  * confirm one guest;
  * confirm a family.
* **The client pages' own logic:**
  * the admin page's grouping of confirmations into families, their colours and
    numbering, and the CSV export (`AdminPage`);
  * the confirmation page's family-name list, its blank filter, its countdown
    text, the "similar name" error detector and the name indicator
    (`ConfirmationPage`);
  * the master admin page's list updates after a delete or an edit, its edit
    request and its confirmation total (`MasterAdminPage`).

`Seqs` holds `filter`/`map` over sequences and their lemmas. `Text` holds the
JavaScript string operations the program uses: `trim`, `split`, `join`,
`toLowerCase`, `substring`, `includes` and number formatting.

Points where the program's two paths, or its strings, behave in ways worth stating:

* **Family path and full names.** On the single-guest path
  (`server/routes/events.ts:183-192`) a similar name shares the first name and
  differs in full name. The family loop (`server/routes/events.ts:320-330`) compares
  only the first name. So, under a case-sensitive (binary) collation, which is the
  model's plain string equality, a one-word name whose only stored match differs
  from it by letter case is rejected on the family path and accepted on the
  single-guest path (`NameMatcher.FamilyPathIsStricterOnOneWord`). With MySQL's
  default case-insensitive collation the exact-match queries
  (`server/routes/events.ts:161-167` and `:310-313`) already match such a name, and
  both paths report it as already confirmed; that case is outside the model.
* **Splitting names.** Names are split on a single space character
  (`split(" ")`), not on any whitespace.
* **Second words.** The second-word comparison takes `substring(0, 3)` of each
  lower-cased second word and also requires both first words to be equal. A
  second word that is empty (two spaces in a row) is falsy and never matches.

## Model

| member | source | states |
|---|---|---|
| Text.Trim | server/routes/events.ts:136 | the trimmed name has no JavaScript whitespace at either end, is no longer than the input, and is empty exactly when the input is all whitespace |
| Text.TrimIsSlice | server/routes/events.ts:136 | the trimmed name is the slice of the input between a whitespace-only prefix and a whitespace-only suffix |
| Text.TrimIdempotent | client/pages/Confirmation.tsx:96 | trimming a name the page already trimmed changes nothing, so the server's second `trim()` (events.ts:164) sees the page's name |
| Text.Lower | server/routes/events.ts:175 | `toLowerCase()` keeps the length and lower-cases each character on its own |
| Text.Split | server/routes/events.ts:175-176 | `split` yields at least one piece and no piece contains the separator |
| Text.JoinSplit | server/routes/events.ts:176 | joining the pieces of `split(" ")` with the separator gives back the name, so word splitting loses nothing |
| Text.SplitMany | client/pages/Confirmation.tsx:516 | a string splits into two or more pieces exactly when it contains the separator |
| Text.LowerSplit | server/routes/events.ts:208-210 | lower-casing and then splitting equals splitting and then lower-casing each word |
| Text.Prefix | server/routes/events.ts:217 | `substring(0, n)` is a prefix of length `min(n, length)` |
| Text.JoinContains | server/routes/events.ts:352 | a list joined with a separator contains each of its items |
| Text.NatToString | server/routes/events.ts:363 | the decimal rendering of a count is a non-empty run of digits |
| Text.DecimalRoundTrip | server/routes/events.ts:363 | reading a rendered count back gives the count |
| NameMatcher.ExactMatches | server/routes/events.ts:161-167 | the exact-name query returns rows exactly when the name is stored for the event |
| NameMatcher.Words | server/routes/events.ts:176 | a name always has at least one word |
| NameMatcher.SimilarNames | server/routes/events.ts:183-192 | a stored name is similar exactly when its lower-cased first word equals the candidate's and its trimmed lower-cased full name differs |
| NameMatcher.JudgeGuest | server/routes/events.ts:161-229 | duplicate exactly when stored; "full name" exactly when not stored, one word and some similar name (naming the first one); "more detail" exactly when two words and a similar name is very close (naming the first stored row that is both); with three or more words only duplicate or accept |
| NameMatcher.VeryCloseMeaning | server/routes/events.ts:206-218 | for a two-word candidate, "very close" means: same lower-cased first word, both second words non-empty, and equal three-character lower-cased prefixes |
| NameMatcher.SimilarOfParts | server/routes/events.ts:183-192 | "f s1" is similar to a stored "f s2" exactly when the second words differ ignoring case |
| NameMatcher.TwoWordRule | server/routes/events.ts:205-229 | against a stored "f s2" (s1 and s2 different, no spaces), the candidate "f s1" asks for more detail exactly when both second words are non-empty, differ once lower-cased, and have equal three-letter lower-cased prefixes; otherwise it is accepted |
| NameMatcher.SecondWordPrefixRejects | server/routes/events.ts:205-229 | "João Silva" against a stored "João Silveira" asks for more detail, naming "João Silveira" |
| NameMatcher.SecondWordPrefixAccepts | server/routes/events.ts:205-229 | "João Silva" against a stored "João Santos" is accepted |
| NameMatcher.ValidNames | server/routes/events.ts:269-272 | the valid names are at most as many as the entries, each trimmed and non-empty |
| NameMatcher.ValidNamesAppend | server/routes/events.ts:269-272 | the filter works entry by entry: the valid names of two lists concatenated are the two results concatenated |
| NameMatcher.FamilyRunStep | server/routes/events.ts:308-338 | one more loop iteration judges the next name against the stored names plus the names inserted so far in this call |
| NameMatcher.RecordAddsOne | server/routes/events.ts:315-337 | each iteration files its name in exactly one of inserted, already confirmed, similar |
| NameMatcher.FamilyRunAccounting | server/routes/events.ts:299-338 | after the loop, inserted, already-confirmed and similar names together are the valid names, counting repeats |
| NameMatcher.FamilyRunInsertsFresh | server/routes/events.ts:308-338 | every inserted name is one of the call's names, was not stored before, and no name is inserted twice |
| NameMatcher.RepeatedNameInOneCall | server/routes/events.ts:308-318 | a name that the stored rows would let in, given twice in one call, is inserted once and reported once as already confirmed |
| NameMatcher.LoneFirstNameTakenBy | server/routes/events.ts:320-330 | a one-word family name whose first name is stored as "first last" is counted as similar and not inserted |
| NameMatcher.FamilyPathIsStricterOnOneWord | server/routes/events.ts:320-330 | under a case-sensitive (binary) collation, the model's plain equality: "Ana" against a stored "ana" is accepted on the single-guest path and rejected as similar on the family path; with MySQL's default case-insensitive collation both paths would instead report it as already confirmed |
| NameMatcher.FamilyPathHasNoTwoWordRule | server/routes/events.ts:320-336 | "João Silva" against a stored "João Silveira" is inserted on the family path |
| Events.OrNull | server/routes/events.ts:55-58 | an optional field is stored as NULL exactly when it is missing or empty, and as given otherwise |
| Events.EventFromRequest | server/routes/events.ts:45-61 | the stored event carries the request's title, date and location, its id and link code, and each optional field as given or NULL, never empty |
| Events.FindByCode | server/routes/events.ts:148-159 | the event lookup by link code fails exactly when no event has that code, and otherwise returns an event with that code |
| Events.NamesOfMember | server/routes/events.ts:178-181 | a name is among an event's stored names exactly when some confirmation of that event carries it |
| Events.NamesOfBatch | server/routes/events.ts:332-336 | after a family call's inserts, the event's names are the old names followed by the inserted names |
| Events.BatchRowsAt | server/routes/events.ts:332-336 | the k-th row a family call inserts has the next id in turn, the event, the k-th inserted name and the call's batch id |
| Events.BatchStep | server/routes/events.ts:308-337 | one iteration on the table: the name is judged against the old names plus this call's inserts, and the table grows by that name's row exactly when it is inserted |
| Events.GuestDecision | server/routes/events.ts:131-229 | `confirmGuest`'s answer: name required exactly when the name is missing or blank; event not found exactly when the name is given and the code is unknown; otherwise the matcher's verdict on the trimmed name, duplicate exactly when it is stored |
| Events.FamilyDecision | server/routes/events.ts:256-297 | `confirmFamily`'s answer: list required exactly when missing or empty; "at least one valid name" exactly when every entry is blank; event not found exactly when a valid name exists and the code is unknown |
| Events.FamilyOutcomeFacts | server/routes/events.ts:340-377 | the call succeeds exactly when no name was similar and one was inserted; its count is the number inserted and equals the total exactly when every valid name was inserted; with nothing inserted and nothing similar it lists the already-confirmed names |
| Events.AllAlreadyListsEveryName | server/routes/events.ts:349-355 | the "already confirmed" message contains every name it reports |
| Events.AllConfirmedFormExactly | server/routes/events.ts:357-369 | the success message takes the "all confirmed" form exactly when the count equals the number of valid names |
| Events.RejectedCallKeepsInserts | server/routes/events.ts:308-347 | with a stored "first last", the call ["other otherLast", "first"] inserts its first name, then meets "first" as similar and answers with a failure about it: the insert is not rolled back |
| Events.ReplaceEvent | server/routes/events.ts:586-599 | the UPDATE rewrites the fields of the event with that id, keeping its link code, and leaves every other event alone |
| Events.ReplaceEventKeepsKeys | server/routes/events.ts:586-599 | the UPDATE changes neither any event id nor any link code |
| Events.Store.constructor | server/db.ts:22-85 | the two tables start empty, with their counters, and satisfy the table invariant |
| Events.Store.Insert | server/routes/events.ts:231-235 | an INSERT appends one row with the next id and keeps the table invariant: ids below the counter, each row for an existing event with a trimmed name, no name twice per event |
| Events.Store.CreateEvent | server/routes/events.ts:25-76 | missing title, date or location leaves the tables unchanged with "fields required"; otherwise exactly one event is appended with the next id, the given link code and the request's fields |
| Events.Store.UpdateEvent | server/routes/events.ts:548-612 | missing fields or an unknown id leave the tables unchanged with the matching error; otherwise the event's fields are replaced, the confirmations are untouched and the saved event is returned |
| Events.Store.DeleteEvent | server/routes/events.ts:502-534 | an unknown id changes nothing; otherwise the event and all its confirmations are removed and nothing else |
| Events.Store.ClearConfirmations | server/routes/events.ts:626-655 | an unknown id changes nothing; otherwise exactly that event's confirmations are removed |
| Events.Store.GetAdminEvent | server/routes/events.ts:391-422 | an unknown code answers "not found"; otherwise the event and its rows are returned in table order as (id, name) views, and the total is their number |
| Events.Store.ConfirmGuest | server/routes/events.ts:131-242 | the answer is `GuestDecision` on the old tables; exactly one row (the trimmed name, no batch id) is appended when it is "accept", and nothing changes otherwise |
| Events.Store.ConfirmMember | server/routes/events.ts:308-337 | one loop iteration: the verdict is the family rule on the event's names, and one row with the batch id is appended exactly when the verdict is insert |
| Events.Store.FamilyStep | server/routes/events.ts:308-337 | one loop iteration, stated on the batch: the table stays the old rows followed by this call's rows |
| Events.Store.ConfirmNames | server/routes/events.ts:299-338 | the loop appends exactly the rows of `FamilyRun`'s inserted names under one batch id and returns its tally |
| Events.Store.ConfirmFamily | server/routes/events.ts:256-377 | the answer is `FamilyDecision` on the old tables, and the table grows by exactly `FamilyInserts` |
| Events.FamilyInsertsShape | server/routes/events.ts:332-336 | a family call's rows all belong to its event, carry its batch id and hold distinct trimmed names not stored before |
| Events.DeleteLeavesNoTrace | server/routes/events.ts:522-528 | after the delete, no event has the id or the link code, and the event has no stored names |
| Events.ClearKeepsOtherEvents | server/routes/events.ts:646-649 | clearing one event's list leaves every other event's confirmations as they were |
| Events.ClearTwice | server/routes/events.ts:646-649 | clearing is idempotent, and afterwards the event has no confirmation |
| AdminPage.BatchIds | client/pages/Admin.tsx:171-173 | the family keys are truthy batch ids |
| AdminPage.GroupConfirmations | client/pages/Admin.tsx:166-179 | the `forEach` yields the batch ids in order of first appearance, each mapped to its rows in list order, and the individual rows in list order |
| AdminPage.GroupingAddsIndividual | client/pages/Admin.tsx:176-177 | a row without a truthy batch id only extends the individual list |
| AdminPage.GroupingAddsMember | client/pages/Admin.tsx:171-175 | a row with a batch id extends its group, creating the group and its key the first time |
| AdminPage.BatchIdsMember | client/pages/Admin.tsx:171-175 | a batch id is a key exactly when some row carries it |
| AdminPage.BatchIdsDistinct | client/pages/Admin.tsx:172-173 | no batch id is a key twice |
| AdminPage.GroupsAreFamilies | client/pages/Admin.tsx:171-175 | every group is non-empty, and its rows come from the list and carry its id |
| AdminPage.PartitionCount | client/pages/Admin.tsx:166-179 | every row is in exactly one family group or the individual list |
| AdminPage.FamilyGroupsArray | client/pages/Admin.tsx:191-196 | the array lists the groups in key order with their rows, numbered from 1 |
| AdminPage.ColorsDiffer | client/pages/Admin.tsx:181-189 | the six badge classes are pairwise different |
| AdminPage.SameColorIff | client/pages/Admin.tsx:191-196 | two families get the same badge class exactly when their positions agree modulo 6 |
| AdminPage.TotalMembersCount | client/pages/Admin.tsx:413 | the families hold as many guests as the rows filed under their keys |
| AdminPage.IndividualNumber | client/pages/Admin.tsx:413 | an individual's number comes after every family member |
| AdminPage.IndividualNumbersFollowFamilies | client/pages/Admin.tsx:413 | individuals are numbered after all family members, in increasing order so no two share a number, within the list size, and the last one gets the list size |
| AdminPage.CsvLinePair | client/pages/Admin.tsx:77 | a two-field line is the name, a comma and the time |
| AdminPage.CsvSplitsIntoLines | client/pages/Admin.tsx:64-77 | the export splits into the header line and then one line per confirmation, in list order, when no field holds a newline |
| AdminPage.CsvFields | client/pages/Admin.tsx:77 | a line splits back into its two fields exactly when neither holds a comma; otherwise into more than two |
| AdminPage.RowOfView | server/routes/events.ts:410-413 | a row as the admin read returns it has no batch id |
| AdminPage.NoFamiliesFromServer | client/pages/Admin.tsx:166-179 | on the rows the admin read returns, the page forms no family group and lists every row individually |
| AdminPage.RowOf | client/pages/Admin.tsx:170-171 | a row carrying the stored columns has the stored id, name and batch id |
| AdminPage.BatchRowsSelected | server/routes/events.ts:332-336 | among an event's stored rows, those under a family call's fresh batch id are exactly the rows that call inserted |
| AdminPage.FamilyCallFormsOneGroup | client/pages/Admin.tsx:166-179 | with the batch id selected, a family call's rows form one group holding its names, in call order under the model's insertion-order read |
| ConfirmationPage.AddFamilyMember | client/pages/Confirmation.tsx:189-191 | adding appends one empty entry and keeps the others |
| ConfirmationPage.RemoveFamilyMember | client/pages/Confirmation.tsx:193-198 | with more than two entries and an index in range, the entry at the index is removed and the rest keep their order; otherwise the list is unchanged; never fewer than two entries |
| ConfirmationPage.RemoveTakesOneEntry | client/pages/Confirmation.tsx:193-198 | a removal takes out exactly the entry at the index |
| ConfirmationPage.RemoveUndoesAdd | client/pages/Confirmation.tsx:189-198 | removing the entry just added gives back the list |
| ConfirmationPage.EditsKeepTwoEntries | client/pages/Confirmation.tsx:189-198 | any run of add and remove clicks keeps a list of two or more entries at two or more |
| ConfirmationPage.FormNeverBelowTwo | client/pages/Confirmation.tsx:49 | starting from (or reset to, line 169) two empty entries, the form always shows at least two |
| ConfirmationPage.UpdateFamilyName | client/pages/Confirmation.tsx:200-204 | the entry at the index becomes the value and every other entry is kept |
| ConfirmationPage.ClientFilterIsServerFilter | client/pages/Confirmation.tsx:136-139 | the page's trim-and-drop-empty filter is the server's `validNames` filter on the same entries |
| ConfirmationPage.ServerKeepsSentNames | server/routes/events.ts:269-272 | names the page sends, already trimmed and non-empty, all pass the server's filter unchanged |
| ConfirmationPage.BlankFormIff | client/pages/Confirmation.tsx:136-141 | the filtered list is empty exactly when every entry is blank |
| ConfirmationPage.FamilySubmit | client/pages/Confirmation.tsx:136-155 | the page refuses with "add at least one name" exactly when every entry is blank, and otherwise sends the non-empty filtered list |
| ConfirmationPage.SentFamilyPassesServerChecks | client/pages/Confirmation.tsx:153-155 | a list the page sends never meets the server's "list required" or "no valid name" answers |
| ConfirmationPage.DaysTextPlural | client/pages/Confirmation.tsx:272-273 | a past event's text says "dias" exactly when it is not one day past |
| ConfirmationPage.DaysTextMarks | client/pages/Confirmation.tsx:271-281 | the text opens with "M" for the past, "O" for today and "F" for the future, and "Faltam" exactly from two days on |
| ConfirmationPage.NumberThenText | client/pages/Confirmation.tsx:273-279 | a rendered number followed by text not starting with a digit determines the number |
| ConfirmationPage.DaysTextInjective | client/pages/Confirmation.tsx:271-281 | different day counts give different texts |
| ConfirmationPage.PastTextsDiffer | client/pages/Confirmation.tsx:272-273 | different past day counts give different texts |
| ConfirmationPage.LeadsWithAlreadyExists | client/pages/Confirmation.tsx:104-107 | a message that starts with "Já existe" contains it |
| ConfirmationPage.SimilarityMessagesMatch | server/routes/events.ts:195-227 | both similarity messages contain "Já existe" and "nome completo" |
| ConfirmationPage.SimilarErrorIff | client/pages/Confirmation.tsx:103-108 | the page's substring test flags a `confirmGuest` answer exactly when the answer is "full name" or "more detail" |
| ConfirmationPage.OtherAnswersNotFlagged | client/pages/Confirmation.tsx:103-108 | no other answer (missing name, unknown event, duplicate, success) is flagged |
| ConfirmationPage.HasNoCapitalJ | client/pages/Confirmation.tsx:104-107 | a message without the letter "J" is never flagged |
| ConfirmationPage.NameIndicator | client/pages/Confirmation.tsx:512-530 | no indicator exactly when the trimmed name is empty |
| ConfirmationPage.FullNameIffSpace | client/pages/Confirmation.tsx:512-530 | for a non-blank name, the green "full name" indicator shows exactly when the trimmed name contains a space |
| ConfirmationPage.FullNameRequestOnlyWhenYellow | client/pages/Confirmation.tsx:512-530 | whenever the server would ask this name for a full name, the page was already showing the yellow "add surname" indicator |
| MasterAdminPage.AfterDelete | client/pages/MasterAdmin.tsx:119 | after a delete the list keeps exactly the entries with another id |
| MasterAdminPage.OneEntryPerId | client/pages/MasterAdmin.tsx:119 | with distinct ids, an id in the list is held by exactly one entry |
| MasterAdminPage.DeleteKeepsCount | client/pages/MasterAdmin.tsx:114-121 | deleting a listed event drops exactly one entry, and `(total \|\| 1) - 1` is the new length; an unlisted id keeps the list |
| MasterAdminPage.DeleteMatchesReload | client/pages/MasterAdmin.tsx:114-121 | the locally updated list equals what a reload after the server's delete would return |
| MasterAdminPage.AfterEdit | client/pages/MasterAdmin.tsx:184-197 | after an edit the entry with that id holds the saved event and keeps its count; every other entry is kept |
| MasterAdminPage.EditMatchesReload | client/pages/MasterAdmin.tsx:184-197 | the locally merged list equals what a reload after the server's update would return |
| MasterAdminPage.OrUndefined | client/pages/MasterAdmin.tsx:168-171 | `x \|\| undefined` omits a field exactly when it is empty |
| MasterAdminPage.UpdateRefusedIff | client/pages/MasterAdmin.tsx:164-172 | the server refuses the edit request exactly when the form's title or location is empty |
| MasterAdminPage.DateTimeRoundTrip | client/pages/MasterAdmin.tsx:166 | when neither the form's date nor its time contains "T", the request's `date + "T" + time` splits back into them |
| MasterAdminPage.UnchangedFormSavesSameEvent | client/pages/MasterAdmin.tsx:143-172 | saving an untouched form stores the same event, with only the date-time rewritten from the form |
| MasterAdminPage.SumTotalsSnoc | client/pages/MasterAdmin.tsx:353 | the running sum adds each entry's count |
| MasterAdminPage.SumCountsAttached | server/routes/events.ts:471-480 | summing the per-event counts of the left join counts each confirmation attached to a listed event once |
| MasterAdminPage.TotalIsConfirmationCount | client/pages/MasterAdmin.tsx:353 | on a valid store, the page's total equals the number of stored confirmations |

## Left out

- Timestamps and ordering: `confirmed_at`, `created_at` and the `ORDER BY ... DESC` clauses are not modelled. Rows are kept in insertion order, and the admin read returns them in that order.
- `last_confirmation` in the master admin query is not modelled.
- Date arithmetic and time zones are not modelled. This covers `calculateDaysRemaining`, `getEventStatus` and `toLocaleString`. The day count, the form's date and time strings, and the CSV's rendering of the confirmation time are parameters.
- `DaysRemainingText` takes an integer day count. The page's `Math.abs` of a non-integer count is not modelled.
- `masterAdminLogin` and the master password check are not modelled. Access control is outside the model.
- `getEventByCode` is not modelled separately. It performs the same event lookup as `Events.FindByCode`.
- The database engine is not modelled: connection pooling, SQL collation, foreign-key cascades and the table definitions in `server/db.ts`. Name comparisons are exact string equality. A case-insensitive collation would make the store's equality looser than the model's; under it a name differing from a stored one only by letter case is an exact match on both paths, so `NameMatcher.FamilyPathIsStricterOnOneWord` describes the binary-collation case only.
- `toLowerCase` covers ASCII and Latin-1 letters only. Other Unicode case mappings are not modelled.
- Text.Prefix: strings are sequences of Unicode code points, while JavaScript's `substring` and `length` count UTF-16 code units. For characters outside the Basic Multilingual Plane (emoji, for instance) the three-character prefix of the two-word rule can differ from the program's, which may cut a surrogate pair.
- The random link code and the family batch id (`Date.now()` and `Math.random()`) are parameters of the operations that use them.
- The model gives every confirmation a batch id column, which the INSERT at server/routes/events.ts:333-336 writes. The table definition in server/db.ts:78-85 does not declare that column; schema migration is not modelled.
- Requests run one after another. Concurrent requests and their interleavings are not modelled.
- HTTP status codes, thrown store errors (the 500 answers) and the response envelopes beyond `success` and `message` are not modelled.
- The pages' rendering (JSX), `fetch`, `alert`, `confirm`, the confetti and the clipboard are not modelled.
- ConfirmationPage.UpdateFamilyName: requires an index inside the list. The page only passes such indices; JavaScript would extend the array for a larger one.
- MasterAdminPage.AfterEdit: the `{...event, ...result.event}` spread is modelled as replacing the event's fields while keeping its count, because the saved event carries every event column.
- AdminPage.CsvSplitsIntoLines: the early return when the page holds no confirmations is not modelled. The export starts from a loaded list.

## Findings

| source | as written | input that shows it | evidently intended | confidence | as-written member | corrected member |
|---|---|---|---|---|---|---|
| server/routes/events.ts:410-413 | the admin read selects `id, guest_name, confirmed_at`, without `family_batch_id`, so the page's grouping (client/pages/Admin.tsx:170-179) never sees a batch id and lists every guest individually | any event with a family confirmation, e.g. `confirmFamily` with ["Ana Souza", "Pedro Souza"] followed by the admin read | the read selects the batch id, so the rows of one family call form one numbered, coloured group; the group lists the call's names in the order the read returns them, which is insertion order in this model and newest first (`ORDER BY confirmed_at DESC`) in the program | not executed | AdminPage.NoFamiliesFromServer | AdminPage.FamilyCallFormsOneGroup |
