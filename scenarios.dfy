/** Concrete runs of the store, following the repository's test cases step
    by step; each assertion is the check the test makes. */
module Scenarios {
  import opened Membership
  import Transitions
  import Store
  import Lifecycle

  /** Joining a group removes the joiner's outstanding sent invitation. */
  method JoinCleansUpInvites() {
    var s := new Store.MembershipStore();
    var o := s.JoinGroup(1, 10);
    o := s.Promote(1, 10, Transitions.ToAdmin);
    o := s.InviteUser(2, 10, 1, true);
    assert HasInvite(s.Rows(), 2, 10, SentOnly);
    o := s.JoinGroup(2, 10);
    assert o == Ok;
    assert IsMember(s.Rows(), 2, 10);
    assert !HasInvite(s.Rows(), 2, 10, AnyInvite);
  }

  /** A sent invitation followed by a request from the invitee makes a member. */
  method SentInvitePlusRequest() {
    var s := new Store.MembershipStore();
    var o := s.JoinGroup(1, 10);
    o := s.Promote(1, 10, Transitions.ToAdmin);
    o := s.InviteUser(2, 10, 1, true);
    o := s.SendMembershipRequest(2, 10, "");
    assert o == Ok;
    assert IsMember(s.Rows(), 2, 10);
    assert !HasRequest(s.Rows(), 2, 10) && !HasInvite(s.Rows(), 2, 10, AnyInvite);
  }

  /** The only admin cannot leave; a plain member can, and the count drops by one. */
  method LeaveGroupRuns() {
    var s := new Store.MembershipStore();
    var o := s.JoinGroup(1, 10);
    o := s.Promote(1, 10, Transitions.ToAdmin);
    o := s.JoinGroup(2, 10);
    assert AdminSet(s.Rows(), 10) == {Pair(1, 10)};
    o := s.LeaveGroup(1, 10);
    assert o == Fail(LastAdmin);
    assert IsAdmin(s.Rows(), 1, 10);
    o := s.LeaveGroup(2, 10);
    assert o == Ok;
    assert !IsMember(s.Rows(), 2, 10);
  }

  const ActiveAdmin := Member(Admin, false)

  /** The table of the deletion test: user 4 administers groups 20 and 21;
      user 7 is the only admin of group 30, a second admin of group 20 and a
      plain member of group 21. */
  function DeletionFixture(): Table {
    Table(
      map[Pair(4, 20) := ActiveAdmin, Pair(4, 21) := ActiveAdmin,
          Pair(7, 30) := ActiveAdmin, Pair(7, 20) := ActiveAdmin, Pair(7, 21) := NewMember],
      map[], map[])
  }

  /** The fixture's admins, group by group. */
  lemma FixtureAdmins()
    ensures AdminSet(DeletionFixture(), 30) == {Pair(7, 30)}
    ensures AdminSet(DeletionFixture(), 20) == {Pair(4, 20), Pair(7, 20)}
    ensures AdminSet(DeletionFixture(), 21) == {Pair(4, 21)}
  {
    var t := DeletionFixture();
    forall q | q in AdminSet(t, 30) ensures q == Pair(7, 30) {}
    forall q | q in AdminSet(t, 20) ensures q == Pair(4, 20) || q == Pair(7, 20) {}
    forall q | q in AdminSet(t, 21) ensures q == Pair(4, 21) {}
  }

  // Deleting user 7 with the site administrator (user 1) as replacement.

  /** User 1 takes over group 30, which user 7 administered alone. */
  lemma {:induction false} DeletionInstallsReplacement(t: Table)
    requires t == DeletionFixture()
    ensures AdminSet(Transitions.DeleteAllForUser(t, 7, Some(1)), 30) == {Pair(1, 30)}
  {
    FixtureAdmins();
    Lifecycle.DeleteAllAdmins(t, 7, Some(1), 30);
    assert SoleAdmin(t, 7, 30);
  }

  /** Group 20, which user 7 administered with user 4, keeps user 4 alone. */
  lemma {:induction false} DeletionKeepsFellowAdmin(t: Table)
    requires t == DeletionFixture()
    ensures AdminSet(Transitions.DeleteAllForUser(t, 7, Some(1)), 20) == {Pair(4, 20)}
  {
    FixtureAdmins();
    Lifecycle.DeleteAllAdmins(t, 7, Some(1), 20);
    assert !SoleAdmin(t, 7, 20);
  }

  /** Group 21, where user 7 was a plain member, keeps its admin. */
  lemma {:induction false} DeletionLeavesMemberGroup(t: Table)
    requires t == DeletionFixture()
    ensures AdminSet(Transitions.DeleteAllForUser(t, 7, Some(1)), 21) == {Pair(4, 21)}
  {
    FixtureAdmins();
    Lifecycle.DeleteAllAdmins(t, 7, Some(1), 21);
    assert !SoleAdmin(t, 7, 21);
  }
}
