/** The membership store: the three row tables held in place and updated by
    the group functions and BP_Groups_Member methods. Each method performs
    the matching transition of module Transitions step by step and keeps
    the table consistent. */
module Store {
  import opened Membership
  import Transitions
  import Lifecycle

  class MembershipStore {
    var members: map<Pair, Member>
    var invites: map<Pair, Invite>
    var requests: map<Pair, Request>

    /** The store's current rows as a value. */
    function Rows(): Table
      reads this
    {
      Table(members, invites, requests)
    }

    ghost predicate Valid()
      reads this
    {
      Consistent(Rows())
    }

    /** A store without rows. */
    constructor ()
      ensures Valid()
      ensures Rows() == Table(map[], map[], map[])
    {
      members := map[];
      invites := map[];
      requests := map[];
    }

    /** Confirms the pair as a regular member, dropping its pending rows. */
    method Confirm(p: Pair)
      modifies this
      ensures Rows() == Transitions.Confirm(old(Rows()), p)
    {
      members := members[p := NewMember];
      invites := invites - {p};
      requests := requests - {p};
    }

    // ------------------------------------------------------------ invitations

    /** groups_invite_user */
    method InviteUser(u: UserId, g: GroupId, inviter: UserId, sendNow: bool) returns (outcome: Outcome)
      requires Valid()
      modifies this
      ensures Valid()
      ensures Transitions.Step(Rows(), outcome) == Transitions.InviteUser(old(Rows()), u, g, inviter, sendNow)
    {
      Lifecycle.InviteUserKeepsConsistent(Rows(), u, g, inviter, sendNow);
      var p := Pair(u, g);
      if u == 0 || g == 0 || inviter == 0 {
        return Fail(InvalidArgument);
      }
      if p in members {
        return Fail(if members[p].banned then Banned else AlreadyMember);
      }
      var sent := sendNow || (p in invites && invites[p].sent);
      if sent && p in requests {
        Confirm(p);
      } else {
        invites := invites[p := Invite(inviter, sent)];
      }
      outcome := Ok;
    }

    /** groups_send_invites: sends the group's drafts one at a time. */
    method SendInvites(g: GroupId, inviter: Option<UserId>)
      requires Valid()
      modifies this
      ensures Valid()
      ensures Rows() == Transitions.SendInvites(old(Rows()), g, inviter)
    {
      Lifecycle.SendInvitesKeepsConsistent(Rows(), g, inviter);
      var drafts := Transitions.DraftsOf(Rows(), g, inviter);
      assert Transitions.SendInvites(Rows(), g, inviter) == Transitions.SendDrafts(Rows(), drafts);
      SendEach(Rows(), drafts);
    }

    /** Sends each draft in `drafts`, one at a time. */
    method SendEach(ghost t0: Table, drafts: set<Pair>)
      requires forall q :: q in drafts ==> q in t0.invites
      requires Rows() == t0
      modifies this
      ensures Rows() == Transitions.SendDrafts(t0, drafts)
    {
      var todo := drafts;
      TableExt(t0, Transitions.SendDrafts(t0, {}));
      while todo != {}
        invariant todo <= drafts
        invariant Rows() == Transitions.SendDrafts(t0, drafts - todo)
        decreases todo
      {
        var p :| p in todo;
        SendDraft(t0, drafts - todo, p);
        assert drafts - (todo - {p}) == (drafts - todo) + {p};
        todo := todo - {p};
      }
      assert drafts - todo == drafts;
    }

    /** Sends one draft: it confirms the pair when the pair also requested
        membership, and becomes a sent invitation otherwise. */
    method SendDraft(ghost t0: Table, ghost d: set<Pair>, p: Pair)
      requires forall q :: q in d ==> q in t0.invites
      requires p in t0.invites && p !in d
      requires Rows() == Transitions.SendDrafts(t0, d)
      modifies this
      ensures Rows() == Transitions.SendDrafts(t0, d + {p})
    {
      Transitions.SendDraftsStep(t0, d, p);
      if p in requests {
        Confirm(p);
      } else {
        invites := invites[p := invites[p].(sent := true)];
      }
    }

    /** groups_accept_invite */
    method AcceptInvite(u: UserId, g: GroupId) returns (outcome: Outcome)
      requires Valid()
      modifies this
      ensures Valid()
      ensures Transitions.Step(Rows(), outcome) == Transitions.AcceptInvite(old(Rows()), u, g)
    {
      Lifecycle.AcceptInviteKeepsConsistent(Rows(), u, g);
      var p := Pair(u, g);
      if p in members && !members[p].banned {
        invites := invites - {p};
        requests := requests - {p};
        outcome := Ok;
      } else if p in invites && invites[p].sent {
        Confirm(p);
        outcome := Ok;
      } else {
        outcome := Fail(NotFound);
      }
    }

    /** groups_delete_invite: removes the pair's invitation, draft or sent;
        with none there it changes nothing and still succeeds. */
    method DeleteInvite(u: UserId, g: GroupId) returns (outcome: Outcome)
      requires Valid()
      modifies this
      ensures Valid()
      ensures Transitions.Step(Rows(), outcome) == Transitions.DeleteInvite(old(Rows()), u, g)
    {
      Lifecycle.RemoveInviteKeepsConsistent(Rows(), u, g);
      invites := invites - {Pair(u, g)};
      outcome := Ok;
    }

    /** groups_reject_invite: the invitee declines; the invitation is
        deleted, and NotFound reports that there was none. */
    method RejectInvite(u: UserId, g: GroupId) returns (outcome: Outcome)
      requires Valid()
      modifies this
      ensures Valid()
      ensures Transitions.Step(Rows(), outcome) == Transitions.RemoveInvite(old(Rows()), u, g)
    {
      Lifecycle.RemoveInviteKeepsConsistent(Rows(), u, g);
      var p := Pair(u, g);
      outcome := if p in invites then Ok else Fail(NotFound);
      invites := invites - {p};
    }

    /** groups_uninvite_user: the inviter withdraws; the same as deleting the invitation. */
    method UninviteUser(u: UserId, g: GroupId) returns (outcome: Outcome)
      requires Valid()
      modifies this
      ensures Valid()
      ensures Transitions.Step(Rows(), outcome) == Transitions.DeleteInvite(old(Rows()), u, g)
    {
      outcome := DeleteInvite(u, g);
    }

    // ------------------------------------------------------------ requests

    /** groups_send_membership_request */
    method SendMembershipRequest(u: UserId, g: GroupId, message: string) returns (outcome: Outcome)
      requires Valid()
      modifies this
      ensures Valid()
      ensures Transitions.Step(Rows(), outcome) == Transitions.SendRequest(old(Rows()), u, g, message)
    {
      Lifecycle.SendRequestKeepsConsistent(Rows(), u, g, message);
      var p := Pair(u, g);
      if u == 0 || g == 0 {
        return Fail(InvalidArgument);
      }
      if p in members {
        return Fail(if members[p].banned then Banned else AlreadyMember);
      }
      if p in invites && invites[p].sent {
        Confirm(p);
      } else if p !in requests {
        requests := requests[p := Request(message)];
      }
      outcome := Ok;
    }

    /** groups_accept_membership_request */
    method AcceptMembershipRequest(u: UserId, g: GroupId) returns (outcome: Outcome)
      requires Valid()
      modifies this
      ensures Valid()
      ensures Transitions.Step(Rows(), outcome) == Transitions.AcceptRequest(old(Rows()), u, g)
    {
      Lifecycle.AcceptRequestKeepsConsistent(Rows(), u, g);
      var p := Pair(u, g);
      if p in requests {
        Confirm(p);
        outcome := Ok;
      } else {
        outcome := Fail(NotFound);
      }
    }

    /** groups_delete_membership_request: removes the pair's request; with
        none there it changes nothing and still succeeds. */
    method DeleteMembershipRequest(u: UserId, g: GroupId) returns (outcome: Outcome)
      requires Valid()
      modifies this
      ensures Valid()
      ensures Transitions.Step(Rows(), outcome) == Transitions.DeleteRequest(old(Rows()), u, g)
    {
      Lifecycle.RemoveRequestKeepsConsistent(Rows(), u, g);
      requests := requests - {Pair(u, g)};
      outcome := Ok;
    }

    /** groups_reject_membership_request: an admin declines; the request is deleted. */
    method RejectMembershipRequest(u: UserId, g: GroupId) returns (outcome: Outcome)
      requires Valid()
      modifies this
      ensures Valid()
      ensures Transitions.Step(Rows(), outcome) == Transitions.RemoveRequest(old(Rows()), u, g)
    {
      Lifecycle.RemoveRequestKeepsConsistent(Rows(), u, g);
      var p := Pair(u, g);
      outcome := if p in requests then Ok else Fail(NotFound);
      requests := requests - {p};
    }

    /** groups_accept_all_pending_membership_requests: accepts each pending
        request of the group in turn. */
    method AcceptAllPendingRequests(g: GroupId)
      requires Valid()
      modifies this
      ensures Valid()
      ensures Rows() == Transitions.AcceptAllRequests(old(Rows()), g)
    {
      ghost var t0 := Rows();
      var pending := Transitions.RequestsOf(Rows(), g);
      var todo := pending;
      TableExt(t0, Transitions.ConfirmAll(t0, {}));
      while todo != {}
        invariant Valid()
        invariant todo <= pending
        invariant Rows() == Transitions.ConfirmAll(t0, pending - todo)
        decreases todo
      {
        var p :| p in todo;
        Transitions.ConfirmAllStep(t0, pending - todo, p);
        var accepted := AcceptMembershipRequest(p.user, p.group);
        assert pending - (todo - {p}) == (pending - todo) + {p};
        todo := todo - {p};
      }
      assert pending - todo == pending;
    }

    // ------------------------------------------------------------ membership

    /** groups_join_group: the pair's pending rows go first, then the user
        is confirmed unless already confirmed. */
    method JoinGroup(u: UserId, g: GroupId) returns (outcome: Outcome)
      requires Valid()
      modifies this
      ensures Valid()
      ensures Transitions.Step(Rows(), outcome) == Transitions.Join(old(Rows()), u, g)
    {
      Lifecycle.JoinKeepsConsistent(Rows(), u, g);
      var p := Pair(u, g);
      if u == 0 || g == 0 {
        return Fail(InvalidArgument);
      }
      if p in members && members[p].banned {
        return Fail(Banned);
      }
      invites := invites - {p};
      requests := requests - {p};
      if p !in members {
        members := members[p := NewMember];
      }
      outcome := Ok;
    }

    /** groups_leave_group */
    method LeaveGroup(u: UserId, g: GroupId) returns (outcome: Outcome)
      requires Valid()
      modifies this
      ensures Valid()
      ensures Transitions.Step(Rows(), outcome) == Transitions.Leave(old(Rows()), u, g)
    {
      Lifecycle.LeaveKeepsConsistent(Rows(), u, g);
      var p := Pair(u, g);
      if IsAdmin(Rows(), u, g) && |AdminSet(Rows(), g)| < 2 {
        return Fail(LastAdmin);
      }
      if p !in members {
        return Ok;
      }
      members := members - {p};
      outcome := Ok;
    }

    /** BP_Groups_Member::promote */
    method Promote(u: UserId, g: GroupId, to: Transitions.Promotion) returns (outcome: Outcome)
      requires Valid()
      modifies this
      ensures Valid()
      ensures Transitions.Step(Rows(), outcome) == Transitions.Promote(old(Rows()), u, g, to)
    {
      Lifecycle.PromoteKeepsConsistent(Rows(), u, g, to);
      var p := Pair(u, g);
      if p !in members {
        return Fail(NotFound);
      }
      if members[p].banned {
        return Fail(Banned);
      }
      if to == Transitions.ToMod && IsAdmin(Rows(), u, g) && |AdminSet(Rows(), g)| < 2 {
        return Fail(LastAdmin);
      }
      members := members[p := Member(Transitions.RoleOf(to), false)];
      outcome := Ok;
    }

    /** BP_Groups_Member::ban */
    method Ban(u: UserId, g: GroupId) returns (outcome: Outcome)
      requires Valid()
      modifies this
      ensures Valid()
      ensures Transitions.Step(Rows(), outcome) == Transitions.Ban(old(Rows()), u, g)
    {
      Lifecycle.BanKeepsConsistent(Rows(), u, g);
      var p := Pair(u, g);
      if p !in members {
        return Fail(NotFound);
      }
      if members[p] == Member(Admin, false) {
        return Fail(AdminProtected);
      }
      members := members[p := Member(Regular, true)];
      outcome := Ok;
    }

    // ------------------------------------------------------------ user deletion

    /** BP_Groups_Member::delete_all_for_user: walks the user's groups,
        installing the replacement as admin wherever the user is the only
        active admin, then deletes every row of the user. */
    method DeleteAllForUser(u: UserId, replacement: Option<UserId>)
      requires Valid()
      modifies this
      ensures Valid()
      ensures Rows() == Transitions.DeleteAllForUser(old(Rows()), u, replacement)
    {
      Lifecycle.DeleteAllKeepsConsistent(Rows(), u, replacement);
      if replacement.Some? {
        InstallForSoleAdmin(Rows(), u, replacement.value);
      }
      RemoveUserRows(u);
    }

    /** Walks the groups `u` belongs to and installs `r` as an admin of each
        one that `u` is the only active admin of. */
    method InstallForSoleAdmin(ghost t0: Table, u: UserId, r: UserId)
      requires Rows() == t0
      modifies this
      ensures Rows() == Transitions.InstallAdmins(t0, Transitions.SoleAdminGroups(t0, u), r)
    {
      ghost var sole := Transitions.SoleAdminGroups(t0, u);
      var groupsOfUser := set p | p in members && p.user == u :: p.group;
      var todo := groupsOfUser;
      assert sole - todo == {};
      TableExt(t0, Transitions.InstallAdmins(t0, {}, r));
      while todo != {}
        invariant todo <= groupsOfUser
        invariant Rows() == Transitions.InstallAdmins(t0, sole - todo, r)
        decreases todo
      {
        var g :| g in todo;
        InstallIfSoleAdmin(t0, sole - todo, u, r, g);
        assert sole - (todo - {g}) == (sole - todo) + (if g in sole then {g} else {});
        todo := todo - {g};
      }
      assert sole - todo == sole;
    }

    /** One step of delete_all_for_user's walk: when `u` is the only active
        admin of `g`, `r` becomes an admin of `g`. */
    method InstallIfSoleAdmin(ghost t0: Table, ghost done: set<GroupId>, u: UserId, r: UserId, g: GroupId)
      requires g !in done
      requires Rows() == Transitions.InstallAdmins(t0, done, r)
      modifies this
      ensures Rows() == Transitions.InstallAdmins(t0, done + (if SoleAdmin(t0, u, g) then {g} else {}), r)
    {
      Transitions.InstallAdminsStep(t0, done, r, g);
      Lifecycle.InstallAdminsAdmins(t0, done, r, g);
      assert SliceOf(Rows(), Pair(u, g)) == SliceOf(t0, Pair(u, g));
      if IsAdmin(Rows(), u, g) && |AdminSet(Rows(), g)| < 2 {
        var p := Pair(r, g);
        members := members[p := Member(Admin, false)];
        invites := invites - {p};
        requests := requests - {p};
      } else {
        assert done + {} == done;
      }
    }

    /** Deletes every row of user `u`. */
    method RemoveUserRows(u: UserId)
      modifies this
      ensures Rows() == Transitions.RemoveUser(old(Rows()), u)
    {
      members := map p | p in members && p.user != u :: members[p];
      invites := map p | p in invites && p.user != u :: invites[p];
      requests := map p | p in requests && p.user != u :: requests[p];
    }
  }
}
