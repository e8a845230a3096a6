# Verified model of the Asana SCIM directory and its license protocol

This project models, in Dafny 4.11, the stateful part of the baton-asana connector and proves
properties of it:

- the in-memory SCIM test server: a map of users and a map of teams, changed by create, PUT, PATCH,
  delete, invitation, addUser and removeUser requests (`Server`, `Directory`, `Runs`, and the PATCH
  semantics in `UserPatch`, `TeamPatch` and `MemberLists`);
- the SCIM client: completion of a user before a request, patch construction, lookups by name
  (`Client`, `Normalize`, `Filter`);
- the connector: license Grant and Revoke (`License`), run one after another and interleaved step
  by step with each other and with other requests (`Interleaving`, `Overlap`), account creation (`Account`), what a sync reports and how it pages
  through a list (`Sync`, `Paging`), and the allowed-workspaces cache with concurrent readers
  (`Workspace`).

`Outcomes` says of each request what it stores, field by field, and with which status it is
answered. `Text` models the Go string and integer functions in use, `Scim` the entities, and `Provisioning`
ties license runs and the test data to the invariants of `Runs`.

The server, the connector types and the user handed to the client by pointer are classes whose
methods follow the source's control flow. Each method is proved against a function on values, and
the theorems are lemmas about those functions. A loop over a Go map takes the next key by an
arbitrary choice, so what is proved of it holds for every iteration order.

Run `dafny verify dfyconfig.toml` to check the project.

## What the proofs found

Where the code does less than its documentation or its neighbours suggest, the model follows the
code; a lemma gives the failing input and another the exact condition under which the code does
what it should.

- A lookup by user name or display name works exactly for names that contain no `eq` and neither
  begin nor end with a double quote (`RoundTrip`, `LookupFinds`, `LookupMisses`,
  `QuotedNameFindsAnother`).
- Creating or inviting a user overwrites another one exactly when the decimal of the number of users
  plus one is in use (`CreationTakesNextId`); after deletions from a store with the ids 1 to n that
  is so unless this very id was among the deleted ones (`CreateAfterDeletions`).
- addUser followed by removeUser with the same text restores the team only if both resolve to the
  same id; removeUser never looks up a name that begins with the digit 1 (`AddThenRemoveSameText`).
- The client's PUT appends the enterprise schema when it is already listed, so it is then stored
  twice (`EnterpriseSchemaOnPut`).
- PUT, PATCH of `userName` and invitations do not check that the name is free (`OneStepNames`).
- A team PATCH is idempotent on the set of members, but on their order exactly when it replaces the
  list or re-adds no removed member before it adds a new one (`PatchTwiceSameMembers`,
  `PatchTwiceSameList`, `PatchTwiceCanReorder`). It leaves a repeated id exactly when the last
  replacement list repeats one that is not removed afterwards (`DuplicatesExactly`).
- Two Grants on one user that overlap can downgrade an enterprise license (`OverlapCanDowngrade`);
  the write of a view-only Grant does so exactly when an enterprise Grant has written since its read
  and no other write has changed the type (`DowngradeExactly`).
- An unlocked reader of the workspace cache can see a proper prefix of it (`EarlyReaderSeesNothing`).
  It sees the whole list exactly when nothing is left to append and the fetch, if still out, brings
  nothing (`ReadSeesAllExactly`); after loading every call does (`AfterLoading`). A failed first
  fetch leaves the cache empty for good without an error to later calls (`Snapshots`).

## Model

| member | source | states |
|---|---|---|
| Text.AtoiItoa | pkg/connector/enterprise_users.go:175-203 | printing a number as a page token and parsing it gives the number back, over the whole 64-bit range |
| Text.DecimalInjective | cmd/baton-asana-scim-test/main.go:1224 | different counts print as different ids |
| Text.SplitIs | cmd/baton-asana-scim-test/main.go:1159-1160 | the parts of a split, joined again, are the text, and none contains the separator |
| Text.TrimIs | cmd/baton-asana-scim-test/main.go:1161-1162 | trimming cuts the longest run at either end |
| TeamPatch.MemberIdsAreFold | cmd/baton-asana-scim-test/main.go:1614-1697 | for every operation list and JSON value the member-id set after a team PATCH is the fold of union, difference and replacement |
| TeamPatch.MemberForms | cmd/baton-asana-scim-test/main.go:1614-1690 | what one operation on the members does to each id, in the terms of the request body |
| TeamPatch.OtherForms | cmd/baton-asana-scim-test/main.go:1691-1697 | any other operation does nothing but replace the display name by a text |
| TeamPatch.LastOperationDecides | cmd/baton-asana-scim-test/main.go:1614-1697 | for each id, the last operation that names it (or replaces the list) decides membership, else it is as before |
| TeamPatch.FirstNewOrder | cmd/baton-asana-scim-test/main.go:1617-1647 | `add` appends exactly the first occurrences of the ids that are new, in request order |
| TeamPatch.WithoutOrder | cmd/baton-asana-scim-test/main.go:1648-1667 | `remove` keeps exactly the other members, in their order |
| TeamPatch.IllTypedActsAsAbsent | cmd/baton-asana-scim-test/main.go:1614-1697 | ill-typed entries, unknown operations and unknown paths act as if they were not in the request |
| TeamPatch.AddThenRemoveRestores | cmd/baton-asana-scim-test/main.go:1617-1667 | adding and then removing the same entries restores the team exactly when none of them was a member |
| TeamPatch.NoDuplicatesKept | cmd/baton-asana-scim-test/main.go:1614-1697 | a PATCH whose replacement lists repeat no id keeps the member list free of duplicates |
| TeamPatch.ReplaceKeepsRepeats | cmd/baton-asana-scim-test/main.go:1668-1690 | a replacement yields a duplicate-free list exactly when the request names no id twice |
| TeamPatch.OtherTeamFields | cmd/baton-asana-scim-test/main.go:1614-1699 | id, schemas and resource type never change; the display name is that of the last well-typed replacement |
| MemberLists.PatchedList | cmd/baton-asana-scim-test/main.go:1614-1697 | the exact list after any PATCH: what the request never removes of the last replacement list (or the old list), in order, then the appended members |
| MemberLists.PatchedMembers | cmd/baton-asana-scim-test/main.go:1633-1640 | every member after a PATCH is an old entry, or has no type and shows the formatted name of the user it stands for (nothing for an unknown id); after a replacement every one does the latter |
| MemberLists.OldMembersStay | cmd/baton-asana-scim-test/main.go:1614-1667 | an old entry that no operation removes stays, unchanged |
| MemberLists.Places | cmd/baton-asana-scim-test/main.go:1617-1667 | the appended members stand in the order in which the request adds them for good, each at the first such place |
| MemberLists.DuplicatesExactly | cmd/baton-asana-scim-test/main.go:1614-1697 | the list repeats no id exactly when the last replacement list (or the old list) repeats none but later removed ones |
| MemberLists.TwoRuns | cmd/baton-asana-scim-test/main.go:1614-1697 | the second time, the appended members that the request also removes move to the end, and nothing else changes |
| MemberLists.PatchTwiceSameMembers | cmd/baton-asana-scim-test/main.go:1614-1697 | sending a PATCH twice leaves the same member set as once |
| MemberLists.PatchTwiceSameList | cmd/baton-asana-scim-test/main.go:1614-1697 | it leaves the same team, order included, exactly when it replaces the members or re-adds no removed id before the first addition of a new one |
| MemberLists.PatchTwiceCanReorder | cmd/baton-asana-scim-test/main.go:1614-1697 | a concrete PATCH that changes the order the second time, on every team without the added user |
| UserPatch.LastWriterWins | cmd/baton-asana-scim-test/main.go:1342-1423 | each patchable field ends with the last well-typed write in path or object form, else its old value |
| UserPatch.PathForms | cmd/baton-asana-scim-test/main.go:1387-1418 | which field each of the seven paths sets, and that a value of the wrong type is ignored |
| UserPatch.ObjectForm | cmd/baton-asana-scim-test/main.go:1346-1385 | which field each key of an object value sets |
| UserPatch.OtherFormsIgnored | cmd/baton-asana-scim-test/main.go:1342-1420 | every other operation leaves the user as it is |
| UserPatch.RestUntouched | cmd/baton-asana-scim-test/main.go:1342-1423 | id, schemas, emails, given and family name, addresses and phone numbers never change |
| UserPatch.ObjectFormIsPathForm | cmd/baton-asana-scim-test/main.go:1346-1418 | a path-less replace equals the single-path replaces its keys translate to, in any order of the keys |
| UserPatch.PatchTwice | cmd/baton-asana-scim-test/main.go:1342-1423 | sending a user PATCH twice is the same as once |
| Normalize.SchemaCounts | pkg/asana/scim.go:103-172 | how often the enterprise schema is listed after each of the three completions and after encoding |
| Normalize.EnterpriseSchemaOnCreate | pkg/asana/scim.go:103-120 | create through client and server lists the schema for extension data, once if the input had it at most once |
| Normalize.EnterpriseSchemaOnPut | pkg/asana/scim.go:155-172 | PUT through client and server lists it too, but with one copy more than an input with extension data had |
| Normalize.HasSchema | cmd/baton-asana-scim-test/main.go:1234-1240 | the search loop answers whether the schema is listed |
| Normalize.EnsureSchemas | cmd/baton-asana-scim-test/main.go:1227-1244 | computes the schema completion |
| Normalize.SplitNameRejoins | cmd/baton-asana-scim-test/main.go:1251-1260 | splitting a formatted name loses no text and cuts at the first space |
| Normalize.SetPrimaryType | cmd/baton-asana-scim-test/main.go:1262-1273 | exactly the first primary address gets type "work", if it has none |
| Normalize.FixedPoints | cmd/baton-asana-scim-test/main.go:1227-1278 | creation changes nothing but the id exactly for complete users |
| Normalize.CreateIdempotent | cmd/baton-asana-scim-test/main.go:1227-1278 | creation normalisation is idempotent and its results are complete |
| Normalize.CreateOnlyFillsGaps | cmd/baton-asana-scim-test/main.go:1227-1278 | whatever a request says is stored unchanged; only gaps are filled |
| Directory.InvitedIsComplete | cmd/baton-asana-scim-test/main.go:719-765 | an invited user needs no completion exactly when the address yields a first or last name |
| Directory.PresentIsWithout | cmd/baton-asana-scim-test/main.go:608-636 | the membership report keeps the team's order and drops exactly the users that are gone |
| Directory.LimitIs | cmd/baton-asana-scim-test/main.go:636-642 | the limit is the number in the parameter if positive, else 50 |
| Runs.OneEntryChanges | cmd/baton-asana-scim-test/main.go:1199-1701 | every request changes at most one entry of one map |
| Runs.StepKeepsWellFormed | cmd/baton-asana-scim-test/main.go:1199-1701 | every request keeps keys equal to ids and teams of type Group |
| Runs.StaysWellFormed | cmd/baton-asana-scim-test/main.go:1199-1701 | the same after every run of requests |
| Runs.IdsStayContiguous | cmd/baton-asana-scim-test/main.go:1551-1563 | after every run the team ids are the decimals 1..n and the next id is unused; the same for users while none is deleted |
| Runs.CreationTakesNextId | cmd/baton-asana-scim-test/main.go:1223-1280 | in every store an accepted creation or invitation writes the entry of the decimal of the number of users plus one, overwriting exactly when that is a key |
| Runs.CreateAfterDeletions | cmd/baton-asana-scim-test/main.go:721-765 | after any deletions from ids 1 to n, which id the next created or invited user gets, and that it overwrites a user exactly when that id was not deleted |
| Runs.OneStepNames | cmd/baton-asana-scim-test/main.go:1199-1441 | distinct non-empty user names survive a request exactly when PUT, PATCH and invite use a free non-empty name |
| Runs.NamesStayDistinct | cmd/baton-asana-scim-test/main.go:1199-1441 | user names stay non-empty and distinct after every run of such requests, overwriting creations included |
| Runs.QuietRunIsNameSafe | cmd/baton-asana-scim-test/main.go:1199-1441 | runs without PUT, invite and writes to userName need no such check |
| Runs.TeamsStayDuplicateFree | cmd/baton-asana-scim-test/main.go:1527-1701 | no team ever lists a user twice on runs whose own lists do not |
| Runs.AddThenRemoveUser | cmd/baton-asana-scim-test/main.go:463-568 | adding an absent user and removing restores the store exactly when both requests resolve to one id |
| Runs.AddThenRemoveSameText | cmd/baton-asana-scim-test/main.go:463-552 | when both requests carry the same text: the exact condition on that text |
| Runs.RestAndScimAgree | cmd/baton-asana-scim-test/main.go:483-568 | addUser and removeUser do what a SCIM PATCH with that one id does |
| Runs.ReportIsProjection | cmd/baton-asana-scim-test/main.go:594-661 | the report is the order-preserving projection on existing users, each shown with its names, cut to the limit, with an offset exactly when something was cut |
| Runs.StaysAbsent | cmd/baton-asana-scim-test/main.go:1427-1441 | an absent id stays absent all through a run exactly when no accepted creation or invitation allocates it |
| Runs.DeletedIsNotReported | cmd/baton-asana-scim-test/main.go:616-642 | a deleted user is in no later report, until the id is allocated again, although member lists keep it |
| Filter.ParsePrint | cmd/baton-asana-scim-test/main.go:1154-1169 | the server reads a printed filter as the name without outer quotes, or as nothing if the name contains `eq` |
| Filter.RoundTrip | pkg/asana/scim.go:268-279 | printing and parsing gives the name back exactly for names without `eq` and without outer quotes |
| Filter.LookupFinds | pkg/asana/scim.go:268-279 | for such names a lookup finds an entry of that name exactly when there is one |
| Filter.LookupMisses | pkg/asana/scim.go:517-528 | for every other name it misses even the only entry of that name |
| Filter.QuotedNameFindsAnother | pkg/asana/scim.go:517-528 | a name in quotes finds the entry of the name without them |
| Server.FindByName | cmd/baton-asana-scim-test/main.go:1216-1221 | in any iteration order the loop finds a user of that name if there is one |
| Server.FindTeamByName | cmd/baton-asana-scim-test/main.go:1544-1549 | the same for teams |
| Server.ListAll | cmd/baton-asana-scim-test/main.go:1171-1174 | in any iteration order every entry is listed once |
| Server.AddEach | cmd/baton-asana-scim-test/main.go:1620-1646 | the add loop computes the old list followed by the new ids' members |
| Server.RemoveEach | cmd/baton-asana-scim-test/main.go:1651-1666 | the remove loops compute one filter |
| Server.CollectEach | cmd/baton-asana-scim-test/main.go:1672-1690 | the replacement loop computes the new list |
| Server.ReplaceEachKey | cmd/baton-asana-scim-test/main.go:1348-1385 | the loop over an object value gives the same user in every key order |
| Server.ScimTestServer.GetUsers | cmd/baton-asana-scim-test/main.go:1146-1184 | all users once without a filter, otherwise at most one match of the parsed name |
| Server.ScimTestServer.GetTeams | cmd/baton-asana-scim-test/main.go:1474-1512 | the same for teams |
| Server.ScimTestServer.CreateUser | cmd/baton-asana-scim-test/main.go:1199-1282 | the new store and reply: refused for an empty or taken name, else the completed user under the next id |
| Server.ScimTestServer.PutUser | cmd/baton-asana-scim-test/main.go:1284-1324 | the new store and reply of a PUT |
| Server.ScimTestServer.PatchUser | cmd/baton-asana-scim-test/main.go:1326-1425 | the new store and reply of a user PATCH |
| Server.ScimTestServer.DeleteUser | cmd/baton-asana-scim-test/main.go:1427-1441 | the user's entry is removed and nothing else changes |
| Server.ScimTestServer.AddUserToWorkspace | cmd/baton-asana-scim-test/main.go:672-794 | an address creates an enterprise user under the next id, an id is only checked |
| Server.ScimTestServer.CreateTeam | cmd/baton-asana-scim-test/main.go:1527-1565 | the new store and reply of a team creation |
| Server.ScimTestServer.PutTeam | cmd/baton-asana-scim-test/main.go:1567-1596 | the new store and reply of a team PUT |
| Server.ScimTestServer.PatchTeam | cmd/baton-asana-scim-test/main.go:1598-1701 | the new store and reply of a team PATCH |
| Server.ScimTestServer.AddUserToTeam | cmd/baton-asana-scim-test/main.go:425-502 | adds what the request resolves to, once |
| Server.ScimTestServer.RemoveUserFromTeam | cmd/baton-asana-scim-test/main.go:504-572 | removes every entry of what the request resolves to |
| Server.ScimTestServer.TeamMemberships | cmd/baton-asana-scim-test/main.go:575-664 | computes the membership page |
| Client.CreateScimUser | pkg/asana/scim.go:97-146 | completes the caller's user in place and sends it |
| Client.UpdateScimUser | pkg/asana/scim.go:149-198 | the same for PUT, with the repeated schema |
| Client.GetScimUserByUsername | pkg/asana/scim.go:268-280 | finds a user of that name exactly when there is one, for every name a filter can carry |
| Client.GetScimTeamByDisplayName | pkg/asana/scim.go:517-529 | the same for teams |
| Client.SyncUsers | cmd/baton-asana-scim-test/main.go:1170-1181 | against the test server one page holds every user's resource once and there is no next page |
| Sync.EnterpriseUserResource | pkg/connector/enterprise_users.go:25-156 | computes the resource of a user |
| Sync.ResourceFields | pkg/connector/enterprise_users.go:37-149 | enabled exactly for an active user, its display name and id, and for each profile entry the field it shows and when it is absent |
| Sync.ResourceKeys | pkg/connector/enterprise_users.go:37-122 | the profile has no other entries |
| Sync.PrimarySelection | pkg/connector/enterprise_users.go:26-117 | which email, address and phone number the resource carries |
| Sync.ReportsUserType | pkg/connector/enterprise_users.go:218-268 | a sync reports a license exactly when it is a known one and the user's type, in one grant for that user |
| Sync.List | pkg/connector/enterprise_users.go:162-212 | one page from the token and the server's answer; nothing without a parent, and an error when the server fails |
| Paging.NextStart | pkg/connector/enterprise_users.go:172-204 | the next token is empty exactly at the end, and otherwise points past the items served |
| Paging.OverflowRestarts | pkg/connector/enterprise_users.go:199-204 | when the next index passes the largest integer, the token leads back to the first page |
| Paging.WalkFrom | pkg/connector/enterprise_users.go:172-209 | from any token the walk yields exactly the rest of the list, in order, with at most one call an item |
| Paging.FullWalk | pkg/connector/enterprise_users.go:172-209 | from the empty token every item comes exactly once, in order, in at most n calls |
| License.LicenseConnector.Grant | pkg/connector/license.go:94-143 | Grant is one read, decide and patch step against the server |
| License.LicenseConnector.Revoke | pkg/connector/license.go:146-193 | the same for Revoke |
| License.PatchEffect | pkg/asana/scim.go:283-319 | the client's patches change exactly the type or the active flag |
| License.ApplyIsEffect | pkg/connector/license.go:119-190 | an operation changes the one user named as the license table says, and nobody else |
| License.GrantAnswers | pkg/connector/license.go:94-143 | the answer of every Grant and the store it leaves, from the user read and the license |
| License.RevokeAnswers | pkg/connector/license.go:146-193 | the answer of every Revoke and the store it leaves |
| License.RunIsPerUser | pkg/connector/license.go:119-190 | a run of operations is, for each user, the run of that user's operations |
| License.OrdersAgree | pkg/connector/license.go:119-190 | operations on different users commute |
| License.FinalType | pkg/connector/license.go:125-190 | the final type is enterprise exactly when the last enterprise operation was a Grant, or there was none and it was from the start |
| License.FinalActive | pkg/connector/license.go:169-190 | a user ends active exactly when active before and never revoked view-only while that was the type; nothing else changes |
| License.SyncAgrees | pkg/connector/license.go:125-171 | already-exists and already-revoked are answered exactly when the sync reports, or does not report, the license |
| License.SyncFollows | pkg/connector/license.go:125-192 | after Grant the reported license ranks at least as high; after Revoke enterprise is gone, view-only stays reported and the user is inactive |
| Interleaving.ScheduleSettles | pkg/connector/license.go:119-190 | at every point of an interleaving without overlap, the store with all pending patches applied is that of the sequential run so far, and every pending operation still sees the user it read |
| Interleaving.NonOverlappingIsSequential | pkg/connector/license.go:119-190 | any interleaving of license operations with each other and with requests on other users and on teams ends in the store of the sequential run |
| Interleaving.PerUserOrderSuffices | pkg/connector/license.go:119-190 | license operations alone: if each user's operations keep their order, in the store of the given list |
| Interleaving.OrderIsRearrangement | pkg/connector/license.go:119-190 | the read order names every started operation once |
| Interleaving.NonOverlappingDecisions | pkg/connector/license.go:125-142 | without overlap every operation decides as in the sequential run, and no view-only Grant overwrites enterprise |
| Overlap.OverlapCanDowngrade | pkg/connector/license.go:125-142 | with overlap a view-only Grant can overwrite an enterprise Grant |
| Overlap.DowngradeExactly | pkg/connector/license.go:125-142 | the write of a view-only Grant overwrites enterprise exactly when since its read an enterprise Grant has written and no later write has changed the type |
| Overlap.AnyInterleaving | pkg/connector/license.go:119-190 | on every interleaving of license operations known types stay known, no user becomes active, nothing else changes |
| Outcomes.CreateUserAnswers | cmd/baton-asana-scim-test/main.go:1207-1282 | each status of a user creation, exactly when it is answered, and the one entry a success writes |
| Outcomes.CreatedUser | cmd/baton-asana-scim-test/main.go:1223-1280 | the created user field by field: what is given is kept, and what schemas, names, email type and license (enterprise, so reported) are filled with |
| Outcomes.ClientCompletes | pkg/asana/scim.go:103-172 | the client changes nothing but the schemas, and how |
| Outcomes.PutUserAnswers | cmd/baton-asana-scim-test/main.go:1288-1323 | a PUT stores the request's user, with the old id and completed schemas, or answers 404 |
| Outcomes.PatchUserAnswers | cmd/baton-asana-scim-test/main.go:1330-1424 | a PATCH stores and answers the patched user, or answers 404 |
| Outcomes.PatchedUser | cmd/baton-asana-scim-test/main.go:1342-1423 | each field of the stored user is the last well-typed value written to it, or as it was |
| Outcomes.PatchUserKeeps | cmd/baton-asana-scim-test/main.go:1342-1423 | the fields of the stored user that no PATCH changes |
| Outcomes.DeleteUserAnswers | cmd/baton-asana-scim-test/main.go:1427-1441 | exactly the one entry goes, or 404 |
| Outcomes.InviteAnswers | cmd/baton-asana-scim-test/main.go:705-794 | each answer of an invitation and the active enterprise user it stores |
| Outcomes.InvitedNames | cmd/baton-asana-scim-test/main.go:722-736 | the names are the first two words, parted by dots, before the `@` |
| Outcomes.InvitedFormatted | cmd/baton-asana-scim-test/main.go:738-741 | the formatted name joins them, or is the address |
| Outcomes.CapitalizeIs | cmd/baton-asana-scim-test/main.go:728-734 | a name gets its first ASCII letter in upper case; a longer first character is destroyed |
| Outcomes.CreateTeamAnswers | cmd/baton-asana-scim-test/main.go:1527-1565 | each status of a team creation, and the stored team with the request's name and members |
| Outcomes.PutTeamAnswers | cmd/baton-asana-scim-test/main.go:1567-1596 | a PUT stores the request's team under the old id, or answers 404 |
| Outcomes.PatchTeamAnswers | cmd/baton-asana-scim-test/main.go:1598-1701 | the status of a team PATCH, and what of the stored team can change |
| Outcomes.AddToTeamAnswers | cmd/baton-asana-scim-test/main.go:463-502 | whom addUser resolves to, and that a new member is last and shown by name; else 404 |
| Outcomes.RemoveFromTeamAnswers | cmd/baton-asana-scim-test/main.go:540-572 | whom removeUser resolves to, and that exactly its entries go |
| Outcomes.MembershipsAnswers | cmd/baton-asana-scim-test/main.go:594-603 | 404 exactly for an unknown team |
| Provisioning.LicenseRunIsRequestRun | pkg/asana/scim.go:283-319 | every license run is a run of PATCH requests that rename and delete nobody |
| Provisioning.LicenseRunsKeepSound | pkg/connector/license.go:119-190 | license runs keep all store invariants |
| Provisioning.TestDataIsSound | cmd/baton-asana-scim-test/main.go:858-979 | the initial test data satisfies all store invariants |
| Provisioning.TestDataReports | cmd/baton-asana-scim-test/main.go:858-979 | what a first sync reports of the test data, and that its member entries show their users |
| Account.CreateAccount | pkg/connector/enterprise_users.go:282-391 | exactly when an account is created; the stored user and the resource, field by field, in terms of the profile |
| Account.NewAccountFields | pkg/connector/enterprise_users.go:319-358 | the same for the built user: active, with the email as name and only address, the given names joined, and the license |
| Account.NothingToComplete | pkg/connector/enterprise_users.go:319-358 | the client's and the server's completion change nothing in the built user |
| Account.NewAccountIsReported | pkg/connector/enterprise_users.go:352-358 | a new account is reported with the requested known license, by default view-only |
| Workspace.WorkspaceConnector.LoadAllowedWorkspaces | pkg/connector/workspace.go:76-115 | a filled cache is kept; an empty one is filled for good with the allowed ids, or with nothing on failure |
| Workspace.WorkspaceConnector.List | pkg/connector/workspace.go:117-139 | lists the cached workspaces in order without refetching, or fails as a whole |
| Workspace.AllowedOrder | pkg/connector/workspace.go:98-113 | the allowed ids are those of the non-guest records, or of all for a service account, in order |
| Workspace.InvariantHolds | pkg/connector/workspace.go:76-136 | the mutex and the cache contents are consistent in every reachable state of any number of calls |
| Workspace.FetchedOnce | pkg/connector/workspace.go:76-115 | any interleaving fetches at most once, and the loaded cache never changes again |
| Workspace.Snapshots | pkg/connector/workspace.go:117-136 | every snapshot is a prefix of the final list, the whole of it after waiting for the mutex; after a failed fetch only one call sees the error |
| Workspace.ReadSeesAllExactly | pkg/connector/workspace.go:94-136 | an unlocked read sees the whole final list exactly when nothing is left to append and a fetch still out will bring nothing |
| Workspace.AfterLoading | pkg/connector/workspace.go:117-136 | once loading is over every later call goes over exactly the final list, and none fails |
| Workspace.EarlyReaderSeesNothing | pkg/connector/workspace.go:117-136 | a schedule in which an unlocked reader goes over an empty list |

## Left out

- HTTP transport, headers, tokens, URL building, JSON encoding and status texts: a request is a
  method call with a decoded body, a reply a status code and a body, and the only failures are the
  ones the handlers decide on.
- Extraction of ids from paths: the handlers start with the id as a parameter. The addUser and
  removeUser handlers take the third path segment (main.go:432-438), so end-to-end routing is not
  claimed.
- The pagination bag of the SDK: it stores and returns the token string.
- removeUser on a workspace and the other read-only REST listings: they change nothing.
- REST offset paging of the test server, which ignores its offset parameter.
- Workspace.InvariantHolds: a read of the unlocked slice field is one step, so torn reads of a slice
  header, which the Go memory model permits, are not modelled.
- Paging.FullWalk: for lists shorter than the largest 64-bit integer; at that length the index past
  the end would overflow.
- Workspace and team role selection, entitlement lists, validation, error formatting, logging,
  configuration and the static meta endpoints: each is settled by reading one branch.
