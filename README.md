# BuddyPress group membership, modelled in Dafny

This project models the relationship engine of the BuddyPress Groups
component. For every (user, group) pair, the engine keeps:

- a confirmed membership row, with a role (member, mod or admin) and a banned flag;
- an invitation, which is a draft until it is sent;
- a membership request.

The `groups_*` functions and the `BP_Groups_Member` methods move a pair
between these states. The behaviour modelled is the behaviour the
component's PHPUnit suite asserts
(`tests/phpunit/testcases/groups/class-bp-groups-member.php`); the
implementation files are not part of this model.

Layout:

- `membership.dfy` (module `Membership`) holds the rows. It has a table of
  three maps keyed by the pair, the per-pair `Slice` view and the consistency
  invariant. It also has the derived facts: member, banned, admin, mod, the
  set of admins and the member count.
- `permissions.dfy` (module `Permissions`) is `bp_groups_user_can_send_invites`
  as a pure function of the group's invite status, the user's row and the
  site-admin flag.
- `transitions.dfy` (module `Transitions`) defines every operation as a pure
  function of the old table. A single-pair operation returns the new table
  with an outcome (`Ok` or `Fail(error)`), and its contract says which rows of
  the pair change and that no other pair changes. Sending a group's
  invitations, accepting all its requests and deleting a user always succeed
  and return only the new table; their contracts say what happens to each
  pair they touch and that every other pair keeps its rows.
- `store.dfy` (module `Store`) holds `MembershipStore`, a class whose three map
  fields hold the rows. It has one method per `groups_*` function and
  `BP_Groups_Member` method. Each method edits the fields in place, so sending
  invitations, accepting all requests and deleting a user are loops. Each
  method ensures that its new state and outcome equal the transition function
  applied to the old state. The methods that stand for a library function
  also ensure that the table stays consistent; the loop steps they call
  (`Confirm`, `SendEach`, `SendDraft`, `InstallForSoleAdmin`,
  `InstallIfSoleAdmin`, `RemoveUserRows`) state only their new state.
- `lifecycle.dfy` (module `Lifecycle`) proves properties of the transitions.
  Every transition keeps the table consistent. Every group keeps an active
  admin in three cases:
  - from any table, through leaving, promoting, banning and removing an
    invitation or a request;
  - from a consistent table, through inviting, requesting, accepting,
    joining, sending invitations and accepting all requests;
  - through user deletion, when a replacement other than the deleted user
    is given.

  Leaving changes the member count, and leaving or deleting a second time
  changes nothing. Joining is idempotent. An invitation
  combined with a request confirms the pair. User deletion hands a group over
  to the replacement admin.
- `queries.dfy` (module `Queries`) holds the read-only listings. These are
  admin-of, mod-of, banned-of, recently-joined, the user's invitations, the
  invitation count and the group's invitees. The admin-of, mod-of,
  banned-of and recently-joined listings take the case-insensitive name
  search and the exclusion list. The user's invitations take only the
  exclusion list. The invitation count and the group's invitees take
  neither.
- `scenarios.dfy` (module `Scenarios`) replays several test cases on the store
  and on the deletion fixture.

Ids are natural numbers, and 0 stands for "no user" or "no group". The site
administrator flag and the replacement admin are inputs.

## Model

| member | source | states |
|---|---|---|
| Membership.TableExt | tests/phpunit/testcases/groups/class-bp-groups-member.php:414-659 | two tables that agree on every pair's rows are equal, which is how "the other rows are left intact" becomes table equality |
| Membership.MemberCount | tests/phpunit/testcases/groups/class-bp-groups-member.php:748-866 | the count is the number of users who are active members of the group; so it is 0 exactly when there is none, and at least 1 when some user is one |
| Permissions.CanSendInvites | tests/phpunit/testcases/groups/class-bp-groups-member.php:208-246 | a site admin may always invite; anyone else may invite exactly when they are an unbanned member whose role the invite status admits, and an unset status admits every member |
| Permissions.UserCanSendInvites | tests/phpunit/testcases/groups/class-bp-groups-member.php:253-257 | an unknown group or a user who is not a member gets false unless the user is a site admin; for a member the answer is the role test of the group's status |
| Permissions.CanSendInvitesMonotone | tests/phpunit/testcases/groups/class-bp-groups-member.php:208-246 | a higher role keeps any permission a lower role has, and a looser status keeps any permission a stricter one grants |
| Permissions.PermissionMatrix | tests/phpunit/testcases/groups/class-bp-groups-member.php:208-246 | the test's table: non-members never, site admins always, admins under every status, members and mods under unset status, members and mods under members status, mods but not members under mods status, neither mods nor members under admins status |
| Transitions.Confirm | tests/phpunit/testcases/groups/class-bp-groups-member.php:1124-1148 | a confirmed pair holds a regular member row and no invitation or request, and no other pair changes |
| Transitions.InviteUser | tests/phpunit/testcases/groups/class-bp-groups-member.php:1265-1322 | the outcome is InvalidArgument exactly when an id is 0, and Ok exactly when the ids are valid and the pair has no confirmed row; on Ok the pair holds a draft or sent invitation from the inviter, or is confirmed when a sent invitation meets a pending request; only that pair changes |
| Transitions.DraftsOf | tests/phpunit/testcases/groups/class-bp-groups-member.php:1066-1089 | exactly the group's draft invitations, restricted to one inviter when one is given |
| Transitions.SendDrafts | tests/phpunit/testcases/groups/class-bp-groups-member.php:1066-1089 | each sent draft becomes a sent invitation, or confirms the pair when it also requested membership; no other pair changes |
| Transitions.SendInvites | tests/phpunit/testcases/groups/class-bp-groups-member.php:1066-1089 | each of the group's drafts (from that inviter when one is given) becomes a sent invitation, or confirms the pair as a regular member with no pending rows when it also requested membership; every other pair keeps its rows; afterwards no such draft is left |
| Transitions.AcceptInvite | tests/phpunit/testcases/groups/class-bp-groups-member.php:1124-1190 | succeeds exactly for a member or a holder of a sent invitation, and otherwise fails with NotFound and changes nothing; afterwards the user is a member with no invitation or request left |
| Transitions.RemoveInvite | tests/phpunit/testcases/groups/class-bp-groups-member.php:414-480 | rejecting: the pair's invitation, draft or sent, is gone; its membership and request are kept; no other pair changes; Ok exactly when there was an invitation, NotFound otherwise |
| Transitions.DeleteInvite | tests/phpunit/testcases/groups/class-bp-groups-member.php:487-659 | deleting or withdrawing an invitation always succeeds; the pair's invitation is gone, its membership and request are kept, no other pair changes, and with no invitation the table is unchanged |
| Transitions.SendRequest | tests/phpunit/testcases/groups/class-bp-groups-member.php:1363-1375 | InvalidArgument exactly for a 0 id; Ok exactly when there is no confirmed row; a holder of a sent invitation is confirmed, otherwise a request is pending; sending the same request again changes nothing |
| Transitions.AcceptRequest | tests/phpunit/testcases/groups/class-bp-groups-member.php:1399-1440 | succeeds exactly when a request is pending, and then the user is a regular member with no pending rows; otherwise NotFound and nothing changes |
| Transitions.RemoveRequest | tests/phpunit/testcases/groups/class-bp-groups-member.php:274-337 | rejecting: the pair's request is gone; its membership and invitation are kept; no other pair changes; Ok exactly when there was a request, NotFound otherwise |
| Transitions.DeleteRequest | tests/phpunit/testcases/groups/class-bp-groups-member.php:344-407 | deleting a request always succeeds; the pair's request is gone, its membership and invitation are kept, no other pair changes, and with no request the table is unchanged |
| Transitions.RequestsOf | tests/phpunit/testcases/groups/class-bp-groups-member.php:1479-1504 | exactly the pairs holding a request for the group |
| Transitions.ConfirmAll | tests/phpunit/testcases/groups/class-bp-groups-member.php:1479-1504 | every listed pair is a regular member with no pending rows; every other pair is unchanged |
| Transitions.AcceptAllRequests | tests/phpunit/testcases/groups/class-bp-groups-member.php:1479-1504 | every requester is confirmed, no other pair changes, and the group has no request left |
| Transitions.Join | tests/phpunit/testcases/groups/class-bp-groups-member.php:665-742 | succeeds exactly for valid ids and a user who is not banned; afterwards the user is a member with no invitation or request; an existing member keeps their role |
| Transitions.Leave | tests/phpunit/testcases/groups/class-bp-groups-member.php:748-866 | fails with LastAdmin exactly when the user is the only active admin, changing nothing; otherwise succeeds and the user's row is gone; a user with no row leaves as a no-op |
| Transitions.Promote | tests/phpunit/testcases/groups/class-bp-groups-member.php:52-96 | succeeds exactly for an unbanned member, unless that member is the only admin being made a mod; the row then carries the new role |
| Transitions.Ban | tests/phpunit/testcases/groups/class-bp-groups-member.php:98-119 | succeeds exactly for a confirmed row that is not an active admin; the row is then banned and no longer counts as a member |
| Transitions.SoleAdminGroups | tests/phpunit/testcases/groups/class-bp-groups-member.php:1598-1635 | exactly the groups of which the user is the only active admin |
| Transitions.InstallAdmins | tests/phpunit/testcases/groups/class-bp-groups-member.php:1625-1628 | the replacement is an active admin of each listed group with no pending rows there; no other pair changes |
| Transitions.RemoveUser | tests/phpunit/testcases/groups/class-bp-groups-member.php:1598-1635 | the user holds no row in any group; every other user's rows are unchanged |
| Transitions.DeleteAllForUser | tests/phpunit/testcases/groups/class-bp-groups-member.php:1598-1635 | after deletion the user holds no row in any group; in each group the user administered alone, a replacement other than the user is an active admin with no pending rows; the replacement's other rows and every other user's rows are unchanged |
| Lifecycle.InviteUserKeepsConsistent | tests/phpunit/testcases/groups/class-bp-groups-member.php:1198-1222 | inviting keeps the table consistent: a confirmed pair has no pending rows, and a sent invitation never waits beside a request |
| Lifecycle.AcceptInviteKeepsConsistent | tests/phpunit/testcases/groups/class-bp-groups-member.php:1124-1190 | accepting an invitation keeps the table consistent |
| Lifecycle.RemoveInviteKeepsConsistent | tests/phpunit/testcases/groups/class-bp-groups-member.php:414-659 | rejecting, deleting or withdrawing an invitation keeps the table consistent |
| Lifecycle.SendRequestKeepsConsistent | tests/phpunit/testcases/groups/class-bp-groups-member.php:1448-1472 | requesting membership keeps the table consistent |
| Lifecycle.AcceptRequestKeepsConsistent | tests/phpunit/testcases/groups/class-bp-groups-member.php:1399-1440 | accepting a request keeps the table consistent |
| Lifecycle.RemoveRequestKeepsConsistent | tests/phpunit/testcases/groups/class-bp-groups-member.php:274-407 | rejecting or deleting a request keeps the table consistent |
| Lifecycle.JoinKeepsConsistent | tests/phpunit/testcases/groups/class-bp-groups-member.php:706-742 | joining keeps the table consistent |
| Lifecycle.LeaveKeepsConsistent | tests/phpunit/testcases/groups/class-bp-groups-member.php:748-866 | leaving keeps the table consistent |
| Lifecycle.PromoteKeepsConsistent | tests/phpunit/testcases/groups/class-bp-groups-member.php:52-96 | promoting keeps the table consistent |
| Lifecycle.BanKeepsConsistent | tests/phpunit/testcases/groups/class-bp-groups-member.php:98-119 | banning keeps the table consistent |
| Lifecycle.SendDraftsKeepsConsistent | tests/phpunit/testcases/groups/class-bp-groups-member.php:1066-1089 | sending any set of drafts keeps the table consistent |
| Lifecycle.SendInvitesKeepsConsistent | tests/phpunit/testcases/groups/class-bp-groups-member.php:1066-1089 | sending a group's invitations keeps the table consistent |
| Lifecycle.AcceptAllKeepsConsistent | tests/phpunit/testcases/groups/class-bp-groups-member.php:1479-1504 | accepting every request keeps the table consistent |
| Lifecycle.DeleteAllKeepsConsistent | tests/phpunit/testcases/groups/class-bp-groups-member.php:1598-1635 | deleting a user keeps the table consistent |
| Lifecycle.SliceIsConsistent | tests/phpunit/testcases/groups/class-bp-groups-member.php:706-742 | in a consistent table every pair's rows are consistent on their own |
| Lifecycle.ConsistentBySlices | tests/phpunit/testcases/groups/class-bp-groups-member.php:706-742 | a table whose pairs are each consistent is consistent |
| Lifecycle.SlicewiseConsistent | tests/phpunit/testcases/groups/class-bp-groups-member.php:706-742 | a change confined to one pair keeps consistency when that pair's new rows are consistent |
| Lifecycle.FellowAdmin | tests/phpunit/testcases/groups/class-bp-groups-member.php:850-866 | an admin who is not the only admin has another active admin beside them |
| Lifecycle.KeepsAdminsOnePair | tests/phpunit/testcases/groups/class-bp-groups-member.php:830-866 | a change to one pair that does not remove the only admin leaves every group that had an admin with one |
| Lifecycle.MemberOperationsKeepAdmins | tests/phpunit/testcases/groups/class-bp-groups-member.php:830-866 | from any table, leaving, promoting, banning and rejecting or deleting an invitation or a request never leave a group without an active admin |
| Lifecycle.PendingOperationsKeepAdmins | tests/phpunit/testcases/groups/class-bp-groups-member.php:1124-1472 | on a consistent table, inviting, requesting, accepting an invitation or a request and joining never leave a group without an active admin |
| Lifecycle.AdminsPersist | tests/phpunit/testcases/groups/class-bp-groups-member.php:830-866 | when every active admin row survives a change, every group that had an admin still has one |
| Lifecycle.BulkOperationsKeepAdmins | tests/phpunit/testcases/groups/class-bp-groups-member.php:1066-1504 | on a consistent table, sending drafts, sending a group's invitations and accepting all its requests never leave a group without an active admin |
| Lifecycle.RemovalsLeaveOtherRowsIntact | tests/phpunit/testcases/groups/class-bp-groups-member.php:274-659 | rejecting or deleting a request keeps the membership and the invitation; rejecting, deleting or uninviting keeps the membership and the request; nothing else changes |
| Lifecycle.RepeatedRemovalsAreNoOps | tests/phpunit/testcases/groups/class-bp-groups-member.php:748-866 | leaving a second time, and deleting an invitation or a request a second time, succeeds and changes nothing |
| Lifecycle.LeaveDropsCountByOne | tests/phpunit/testcases/groups/class-bp-groups-member.php:748-824 | a member who is not the only admin leaves, and the member count drops by exactly one |
| Lifecycle.SoleAdminCannotLeave | tests/phpunit/testcases/groups/class-bp-groups-member.php:830-844 | the only admin's leave fails with LastAdmin, and the table and member count stay as they were |
| Lifecycle.OneOfSeveralAdminsLeaves | tests/phpunit/testcases/groups/class-bp-groups-member.php:850-866 | with two admins one may leave; the count drops by one and the group still has an admin |
| Lifecycle.JoinIdempotent | tests/phpunit/testcases/groups/class-bp-groups-member.php:694-700 | joining again succeeds and changes nothing |
| Lifecycle.InviteThenRequestConfirms | tests/phpunit/testcases/groups/class-bp-groups-member.php:1198-1222 | a sent invitation followed by a request makes the user a member |
| Lifecycle.RequestThenInviteConfirms | tests/phpunit/testcases/groups/class-bp-groups-member.php:1448-1472 | a request followed by a sent invitation makes the user a member with no pending rows |
| Lifecycle.DraftRequestThenSend | tests/phpunit/testcases/groups/class-bp-groups-member.php:1155-1190 | a draft and a request wait side by side; sending the draft confirms the user; a later accept leaves no request |
| Lifecycle.AcceptAllAddsRequesters | tests/phpunit/testcases/groups/class-bp-groups-member.php:1479-1504 | accepting all requests makes the group's members exactly the old members plus the requesters |
| Lifecycle.InstallAdminsAdmins | tests/phpunit/testcases/groups/class-bp-groups-member.php:1625-1628 | installing the replacement adds exactly the replacement to the admins of each listed group |
| Lifecycle.RemoveUserAdmins | tests/phpunit/testcases/groups/class-bp-groups-member.php:1630-1634 | deleting a user's rows removes exactly that user from each group's admins |
| Lifecycle.DeleteAllAdmins | tests/phpunit/testcases/groups/class-bp-groups-member.php:1598-1635 | after deletion each group's admins are its other admins, plus the replacement in the groups the user administered alone |
| Lifecycle.DeleteAllKeepsAdmins | tests/phpunit/testcases/groups/class-bp-groups-member.php:1598-1635 | with a replacement other than the deleted user, no group that had an admin is left without one |
| Queries.Lower | tests/phpunit/testcases/groups/class-bp-groups-member.php:52-73 | lower-casing keeps the length, leaves no upper-case ASCII letter, turns each upper-case letter into its lower-case partner and keeps every other character |
| Queries.LowerIdempotent | tests/phpunit/testcases/groups/class-bp-groups-member.php:52-73 | lower-casing an already lower-cased name changes nothing |
| Queries.SearchIgnoresCase | tests/phpunit/testcases/groups/class-bp-groups-member.php:52-73 | lower-casing the name or the term does not change whether the name matches |
| Queries.MatchesSearch | tests/phpunit/testcases/groups/class-bp-groups-member.php:34-73 | a name matches a term exactly when at some offset every character of the term equals the name's character there, ignoring ASCII case |
| Queries.Contains | tests/phpunit/testcases/groups/class-bp-groups-member.php:34-119 | the left-to-right scan answers true exactly when the term occurs at some offset of the text |
| Queries.EmptySearchMatchesAll | tests/phpunit/testcases/groups/class-bp-groups-member.php:873-902 | the empty search term matches every group name |
| Queries.SearchExamples | tests/phpunit/testcases/groups/class-bp-groups-member.php:34-119 | 'Rite' matches 'Diet Rite' and not 'Tab'; 'eps' matches 'Pepsi' and not 'RC Cola'; case does not matter |
| Queries.UserGroups | tests/phpunit/testcases/groups/class-bp-groups-member.php:34-150 | a group is listed exactly when it exists, is in the view, has a name matching the term and is not excluded |
| Queries.EntryId | tests/phpunit/testcases/groups/class-bp-groups-member.php:121-150 | an integer entry stands for its absolute value and a non-numeric entry stands for 0 |
| Queries.ExcludedIds | tests/phpunit/testcases/groups/class-bp-groups-member.php:949-978 | the excluded ids are exactly the ids of the list's entries, and there are no more of them than entries |
| Queries.InviteCount | tests/phpunit/testcases/groups/class-bp-groups-member.php:985-1034 | the count is the number of existing groups that have sent the user an invitation, drafts not counted; so it is at most the number of groups, and 0 exactly when no group has sent one |
| Queries.GetIsAdminOf | tests/phpunit/testcases/groups/class-bp-groups-member.php:52-73 | a group is listed exactly when it exists, the user is an active admin of it, its name matches and it is not excluded |
| Queries.GetIsModOf | tests/phpunit/testcases/groups/class-bp-groups-member.php:75-96 | the same, for active mods |
| Queries.GetIsBannedOf | tests/phpunit/testcases/groups/class-bp-groups-member.php:98-119 | the same, for banned rows |
| Queries.GetRecentlyJoined | tests/phpunit/testcases/groups/class-bp-groups-member.php:34-50 | the same, for active members of any role |
| Queries.InvitesForUser | tests/phpunit/testcases/groups/class-bp-groups-member.php:873-978 | a group is listed exactly when it exists, sent the user an invitation (drafts do not count) and is not excluded |
| Queries.EmptySearchMatchesAllNames | tests/phpunit/testcases/groups/class-bp-groups-member.php:873-902 | every group's name matches the empty term |
| Queries.InvitesForGroup | tests/phpunit/testcases/groups/class-bp-groups-member.php:1330-1356 | exactly the users the inviter invited to the group, with sent invitations by default and drafts on request |
| Queries.SearchNarrows | tests/phpunit/testcases/groups/class-bp-groups-member.php:34-119 | a searched listing is the unsearched listing restricted to the groups whose name matches |
| Queries.ExclusionTotal | tests/phpunit/testcases/groups/class-bp-groups-member.php:949-978 | exclusion removes exactly the excluded ids from the listing, and the total drops by the number of listed groups excluded |
| Queries.TextEntriesIgnored | tests/phpunit/testcases/groups/class-bp-groups-member.php:121-150 | a non-numeric entry of the exclusion list excludes no group |
| Queries.DraftNotCounted | tests/phpunit/testcases/groups/class-bp-groups-member.php:1019-1035 | a draft shows in the any-invitation check, is not a sent invitation and leaves the invitation count unchanged |
| Queries.SendingCountsDraft | tests/phpunit/testcases/groups/class-bp-groups-member.php:985-1012 | sending a group's draft adds that group to the user's invitations and raises the count by one |
| Queries.NoUnsentAfterSending | tests/phpunit/testcases/groups/class-bp-groups-member.php:1330-1356 | after the inviter's invitations are sent, none of that inviter's invitations to the group is a draft |
| Queries.SentInviteListedForGroup | tests/phpunit/testcases/groups/class-bp-groups-member.php:1330-1356 | a new sent invitation is listed by default and not among the drafts |
| Queries.TransitionsShowInListings | tests/phpunit/testcases/groups/class-bp-groups-member.php:34-119 | promoting to admin shows in admin-of; banning shows in banned-of and removes the group from recently-joined; joining shows in recently-joined |
| Store.MembershipStore.constructor | tests/phpunit/testcases/groups/class-bp-groups-member.php:21-27 | a new store holds no rows and is consistent |
| Store.MembershipStore.Confirm | tests/phpunit/testcases/groups/class-bp-groups-member.php:1124-1148 | the fields hold the table Transitions.Confirm yields |
| Store.MembershipStore.InviteUser | tests/phpunit/testcases/groups/class-bp-groups-member.php:1042-1059 | new state and outcome are those of Transitions.InviteUser; the store stays consistent |
| Store.MembershipStore.SendInvites | tests/phpunit/testcases/groups/class-bp-groups-member.php:1066-1089 | sends the drafts one at a time and ends in the state of Transitions.SendInvites; the store stays consistent |
| Store.MembershipStore.SendEach | tests/phpunit/testcases/groups/class-bp-groups-member.php:1080-1088 | the loop over the drafts ends in Transitions.SendDrafts of the starting state |
| Store.MembershipStore.SendDraft | tests/phpunit/testcases/groups/class-bp-groups-member.php:1080-1088 | sending one more draft moves from SendDrafts of the drafts sent so far to SendDrafts of those plus this one |
| Store.MembershipStore.AcceptInvite | tests/phpunit/testcases/groups/class-bp-groups-member.php:1124-1190 | new state and outcome are those of Transitions.AcceptInvite; the store stays consistent |
| Store.MembershipStore.DeleteInvite | tests/phpunit/testcases/groups/class-bp-groups-member.php:487-586 | new state and outcome are those of Transitions.DeleteInvite: always Ok, a no-op without an invitation; the store stays consistent |
| Store.MembershipStore.RejectInvite | tests/phpunit/testcases/groups/class-bp-groups-member.php:414-480 | new state and outcome are those of Transitions.RemoveInvite: NotFound without an invitation; the store stays consistent |
| Store.MembershipStore.UninviteUser | tests/phpunit/testcases/groups/class-bp-groups-member.php:593-659 | new state and outcome are those of Transitions.DeleteInvite: always Ok, a no-op without an invitation; the store stays consistent |
| Store.MembershipStore.SendMembershipRequest | tests/phpunit/testcases/groups/class-bp-groups-member.php:1363-1375 | new state and outcome are those of Transitions.SendRequest; the store stays consistent |
| Store.MembershipStore.AcceptMembershipRequest | tests/phpunit/testcases/groups/class-bp-groups-member.php:1399-1440 | new state and outcome are those of Transitions.AcceptRequest |
| Store.MembershipStore.DeleteMembershipRequest | tests/phpunit/testcases/groups/class-bp-groups-member.php:344-407 | new state and outcome are those of Transitions.DeleteRequest: always Ok, a no-op without a request; the store stays consistent |
| Store.MembershipStore.RejectMembershipRequest | tests/phpunit/testcases/groups/class-bp-groups-member.php:274-337 | new state and outcome are those of Transitions.RemoveRequest: NotFound without a request; the store stays consistent |
| Store.MembershipStore.AcceptAllPendingRequests | tests/phpunit/testcases/groups/class-bp-groups-member.php:1479-1504 | accepts the group's requests one at a time and ends in the state of Transitions.AcceptAllRequests |
| Store.MembershipStore.JoinGroup | tests/phpunit/testcases/groups/class-bp-groups-member.php:665-742 | new state and outcome are those of Transitions.Join |
| Store.MembershipStore.LeaveGroup | tests/phpunit/testcases/groups/class-bp-groups-member.php:748-866 | new state and outcome are those of Transitions.Leave: LastAdmin for the only admin, otherwise Ok, a no-op for a user with no row; the store stays consistent |
| Store.MembershipStore.Promote | tests/phpunit/testcases/groups/class-bp-groups-member.php:64-67 | new state and outcome are those of Transitions.Promote |
| Store.MembershipStore.Ban | tests/phpunit/testcases/groups/class-bp-groups-member.php:110-113 | new state and outcome are those of Transitions.Ban |
| Store.MembershipStore.DeleteAllForUser | tests/phpunit/testcases/groups/class-bp-groups-member.php:1598-1635 | walks the user's groups and then deletes the user's rows, ending in the state of Transitions.DeleteAllForUser |
| Store.MembershipStore.InstallForSoleAdmin | tests/phpunit/testcases/groups/class-bp-groups-member.php:1625-1628 | the walk over the user's groups ends in InstallAdmins over exactly the groups the user administered alone |
| Store.MembershipStore.InstallIfSoleAdmin | tests/phpunit/testcases/groups/class-bp-groups-member.php:1625-1628 | one step of the walk adds the group to the installed ones exactly when the user was its only admin |
| Store.MembershipStore.RemoveUserRows | tests/phpunit/testcases/groups/class-bp-groups-member.php:1630-1634 | the fields hold Transitions.RemoveUser of the old state |
| Transitions.SendDraftsStep | tests/phpunit/testcases/groups/class-bp-groups-member.php:1080-1088 | sending one more draft is one confirm or one flip to sent on top of the drafts sent so far |
| Transitions.ConfirmAllStep | tests/phpunit/testcases/groups/class-bp-groups-member.php:1479-1504 | confirming one more pair is one confirm on top of the pairs confirmed so far |
| Transitions.InstallAdminsStep | tests/phpunit/testcases/groups/class-bp-groups-member.php:1625-1628 | installing the replacement in one more group is one row edit on top of the installs so far, and leaves that group's other rows untouched |
| Scenarios.FixtureAdmins | tests/phpunit/testcases/groups/class-bp-groups-member.php:1598-1623 | the deletion test's groups have the admins the test sets up |
| Scenarios.DeletionInstallsReplacement | tests/phpunit/testcases/groups/class-bp-groups-member.php:1625-1628 | the group the deleted user administered alone gets the site administrator as its one admin |
| Scenarios.DeletionKeepsFellowAdmin | tests/phpunit/testcases/groups/class-bp-groups-member.php:1630-1631 | the group the deleted user shared keeps only the other admin |
| Scenarios.DeletionLeavesMemberGroup | tests/phpunit/testcases/groups/class-bp-groups-member.php:1633-1634 | the group where the deleted user was a plain member keeps its admin |

## Left out

- Timestamps (`date_modified`, the "recently joined" order), result ordering and pagination are not modelled. Listings are sets, and a listing's `total` is the size of its set.
- Each pair holds at most one invitation. Inviting again replaces the inviter, and a sent invitation never goes back to draft. The library can store several invitation rows for one pair (one per inviter); the model cannot.
- Transitions.Promote, Transitions.Ban, Transitions.DeleteInvite (withdrawing an invitation), Transitions.AcceptRequest, Transitions.RemoveRequest and Transitions.DeleteRequest: the acting user's authorisation is not checked, and there is no Unauthorized error. None of these operations takes an actor, and the tests never exercise a refusal.
- Transitions.InviteUser: does not check that the inviter may send invitations. The test calls it for users with the right role only. Permissions.UserCanSendInvites is the separate check.
- Group status (public, private, hidden) is not modelled, so a membership request is accepted for any group.
- Demoting, unbanning and removing a member by an admin are not modelled. The tests do not exercise them.
- Transitions.Promote: a banned row is refused (Banned), and making the only admin a mod is refused (LastAdmin). The tests do not pin these cases down.
- Transitions.Ban: an active admin cannot be banned (AdminProtected), and a banned row loses the mod role. The tests do not pin these cases down.
- Transitions.Join: a banned user is refused. The tests do not pin this case down.
- `groups_delete_all_group_invites`, `get_all_for_group`, `total_group_count`, `get_memberships_by_id`, the `user` property and the group mod or admin lookups with bad ids are not modelled. Their tests (1229-1258, 155-168, 1510-1593) are outside the modelled engine.
- The current user is not read from ambient state. Every operation takes the user explicitly.
- URL-based group context and permalink settings are not modelled.
- SQL storage, caching, group meta, notifications and the `BP_Core_User` object are not modelled.
- Deprecated argument shapes of `groups_send_invites` and `groups_send_membership_request` are not modelled.
- The site administrator lookup in `delete_all_for_user` is an input (the replacement). A replacement equal to the deleted user is installed and then deleted again.
- Transitions.DeleteAllForUser: with no replacement (`None`), a group whose only active admin was the deleted user is left without an admin. The test always has a site administrator to install, so Lifecycle.DeleteAllKeepsAdmins is stated for a replacement other than the deleted user only.
- Queries.InvitesForGroup: lists only sent invitations unless drafts are asked for. The test's only invitation is already sent, so it cannot tell this default from listing every invitation.
- Name search folds ASCII letters only, with no Unicode case folding or collation.
- The exclusion list takes integers (their absolute value) and non-numeric strings (which stand for 0). Numeric strings are given as integers.
- Transitions.AcceptInvite: succeeds, and only clears pending rows, for a user who is already a member but holds no invitation. The tests never accept an invitation that does not exist, so this choice is not pinned down.
