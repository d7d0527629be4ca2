/** Properties of the membership transitions: the table invariant they keep,
    the admin quorum, member counts, idempotence, and how invitations and
    requests combine into membership. */
module Lifecycle {
  import opened Membership
  import opened Transitions

  // ---------------------------------------------------------------- the table invariant

  /** Each single-pair transition keeps Consistent: a confirmed pair holds
      no pending row, and a sent invitation and a request never stay pending
      together. */
  lemma {:induction false} InviteUserKeepsConsistent(t: Table, u: UserId, g: GroupId, inviter: UserId, sendNow: bool)
    requires Consistent(t)
    ensures Consistent(InviteUser(t, u, g, inviter, sendNow).table)
  {
    SliceIsConsistent(t, Pair(u, g));
    SlicewiseConsistent(t, InviteUser(t, u, g, inviter, sendNow).table, Pair(u, g));
  }

  lemma {:induction false} AcceptInviteKeepsConsistent(t: Table, u: UserId, g: GroupId)
    requires Consistent(t)
    ensures Consistent(AcceptInvite(t, u, g).table)
  {
    SliceIsConsistent(t, Pair(u, g));
    SlicewiseConsistent(t, AcceptInvite(t, u, g).table, Pair(u, g));
  }

  lemma {:induction false} RemoveInviteKeepsConsistent(t: Table, u: UserId, g: GroupId)
    requires Consistent(t)
    ensures Consistent(RemoveInvite(t, u, g).table)
    ensures Consistent(DeleteInvite(t, u, g).table)
  {
    SliceIsConsistent(t, Pair(u, g));
    SlicewiseConsistent(t, RemoveInvite(t, u, g).table, Pair(u, g));
  }

  lemma {:induction false} SendRequestKeepsConsistent(t: Table, u: UserId, g: GroupId, message: string)
    requires Consistent(t)
    ensures Consistent(SendRequest(t, u, g, message).table)
  {
    SliceIsConsistent(t, Pair(u, g));
    SlicewiseConsistent(t, SendRequest(t, u, g, message).table, Pair(u, g));
  }

  lemma {:induction false} AcceptRequestKeepsConsistent(t: Table, u: UserId, g: GroupId)
    requires Consistent(t)
    ensures Consistent(AcceptRequest(t, u, g).table)
  {
    SliceIsConsistent(t, Pair(u, g));
    SlicewiseConsistent(t, AcceptRequest(t, u, g).table, Pair(u, g));
  }

  lemma {:induction false} RemoveRequestKeepsConsistent(t: Table, u: UserId, g: GroupId)
    requires Consistent(t)
    ensures Consistent(RemoveRequest(t, u, g).table)
    ensures Consistent(DeleteRequest(t, u, g).table)
  {
    SliceIsConsistent(t, Pair(u, g));
    SlicewiseConsistent(t, RemoveRequest(t, u, g).table, Pair(u, g));
  }

  lemma {:induction false} JoinKeepsConsistent(t: Table, u: UserId, g: GroupId)
    requires Consistent(t)
    ensures Consistent(Join(t, u, g).table)
  {
    SliceIsConsistent(t, Pair(u, g));
    SlicewiseConsistent(t, Join(t, u, g).table, Pair(u, g));
  }

  lemma {:induction false} LeaveKeepsConsistent(t: Table, u: UserId, g: GroupId)
    requires Consistent(t)
    ensures Consistent(Leave(t, u, g).table)
  {
    SliceIsConsistent(t, Pair(u, g));
    SlicewiseConsistent(t, Leave(t, u, g).table, Pair(u, g));
  }

  lemma {:induction false} PromoteKeepsConsistent(t: Table, u: UserId, g: GroupId, to: Promotion)
    requires Consistent(t)
    ensures Consistent(Promote(t, u, g, to).table)
  {
    SliceIsConsistent(t, Pair(u, g));
    SlicewiseConsistent(t, Promote(t, u, g, to).table, Pair(u, g));
  }

  lemma {:induction false} BanKeepsConsistent(t: Table, u: UserId, g: GroupId)
    requires Consistent(t)
    ensures Consistent(Ban(t, u, g).table)
  {
    SliceIsConsistent(t, Pair(u, g));
    SlicewiseConsistent(t, Ban(t, u, g).table, Pair(u, g));
  }

  /** The group-wide operations keep Consistent too. */
  lemma {:induction false} SendDraftsKeepsConsistent(t: Table, d: set<Pair>)
    requires Consistent(t)
    requires forall p :: p in d ==> p in t.invites
    ensures Consistent(SendDrafts(t, d))
  {
    var t' := SendDrafts(t, d);
    forall p ensures SliceConsistent(SliceOf(t', p)) {
      SliceIsConsistent(t, p);
    }
    ConsistentBySlices(t');
  }

  lemma {:induction false} SendInvitesKeepsConsistent(t: Table, g: GroupId, inviter: Option<UserId>)
    requires Consistent(t)
    ensures Consistent(SendInvites(t, g, inviter))
  {
    SendDraftsKeepsConsistent(t, DraftsOf(t, g, inviter));
  }

  lemma {:induction false} AcceptAllKeepsConsistent(t: Table, g: GroupId)
    requires Consistent(t)
    ensures Consistent(AcceptAllRequests(t, g))
  {
    var t' := AcceptAllRequests(t, g);
    forall p ensures SliceConsistent(SliceOf(t', p)) {
      SliceIsConsistent(t, p);
    }
    ConsistentBySlices(t');
  }

  lemma {:induction false} DeleteAllKeepsConsistent(t: Table, u: UserId, replacement: Option<UserId>)
    requires Consistent(t)
    ensures Consistent(DeleteAllForUser(t, u, replacement))
  {
    var t1 := if replacement.Some? then InstallAdmins(t, SoleAdminGroups(t, u), replacement.value) else t;
    forall p ensures SliceConsistent(SliceOf(t1, p)) {
      SliceIsConsistent(t, p);
    }
    ConsistentBySlices(t1);
    var t' := RemoveUser(t1, u);
    forall p ensures SliceConsistent(SliceOf(t', p)) {
      SliceIsConsistent(t1, p);
      if p.user == u {
        assert SliceOf(t', Pair(u, p.group)) == NoRows;
      }
    }
    ConsistentBySlices(t');
  }

  /** Consistent, stated one pair at a time. */
  predicate SliceConsistent(s: Slice) {
    && (s.member.Some? ==> s.invite.None? && s.request.None?)
    && (s.request.Some? && s.invite.Some? ==> !s.invite.value.sent)
  }

  lemma {:induction false} SliceIsConsistent(t: Table, p: Pair)
    requires Consistent(t)
    ensures SliceConsistent(SliceOf(t, p))
  {
    if p in t.members {
      assert p !in t.invites && p !in t.requests;
    }
  }

  lemma {:induction false} ConsistentBySlices(t: Table)
    requires forall p :: SliceConsistent(SliceOf(t, p))
    ensures Consistent(t)
  {
    forall p | p in t.members ensures p !in t.invites && p !in t.requests {
      assert SliceConsistent(SliceOf(t, p));
    }
    forall p | p in t.requests && p in t.invites ensures !t.invites[p].sent {
      assert SliceConsistent(SliceOf(t, p));
    }
  }

  lemma {:induction false} SlicewiseConsistent(t: Table, t': Table, p: Pair)
    requires Consistent(t)
    requires OnlyTouches(t, t', p)
    requires SliceConsistent(SliceOf(t', p))
    ensures Consistent(t')
  {
    forall q ensures SliceConsistent(SliceOf(t', q)) {
      if q != p {
        assert SliceOf(t', q) == SliceOf(t, q);
      }
    }
    ConsistentBySlices(t');
  }

  // ---------------------------------------------------------------- admin quorum

  /** No group that had an active admin is left without one. */
  ghost predicate KeepsAdmins(t: Table, t': Table) {
    forall g :: AdminSet(t, g) != {} ==> AdminSet(t', g) != {}
  }

  /** An admin that is not alone has a fellow admin. */
  lemma {:induction false} FellowAdmin(t: Table, u: UserId, g: GroupId)
    requires IsAdmin(t, u, g) && !SoleAdmin(t, u, g)
    ensures exists q :: q in AdminSet(t, g) && q != Pair(u, g)
  {
    var s := AdminSet(t, g);
    assert Pair(u, g) in s;
    RemoveOne(s, Pair(u, g));
    var q :| q in s - {Pair(u, g)};
  }

  /** If the only row that changed was not an active admin's, or still is,
      or the group keeps another admin, every group keeps an admin. */
  lemma {:induction false} KeepsAdminsOnePair(t: Table, t': Table, u: UserId, g: GroupId)
    requires OnlyTouches(t, t', Pair(u, g))
    requires IsAdmin(t, u, g) ==> IsAdmin(t', u, g) || !SoleAdmin(t, u, g)
    ensures KeepsAdmins(t, t')
  {
    forall h | AdminSet(t, h) != {} ensures AdminSet(t', h) != {} {
      var q :| q in AdminSet(t, h);
      if q != Pair(u, g) {
        assert SliceOf(t', q) == SliceOf(t, q);
        assert q in AdminSet(t', h);
      } else if IsAdmin(t', u, g) {
        assert q in AdminSet(t', h);
      } else {
        FellowAdmin(t, u, g);
        var q' :| q' in AdminSet(t, g) && q' != Pair(u, g);
        assert SliceOf(t', q') == SliceOf(t, q');
        assert q' in AdminSet(t', h);
      }
    }
  }

  /** Leaving, promoting, banning and removing an invitation or a request
      never leave a group without an active admin, from any table. */
  lemma {:induction false} MemberOperationsKeepAdmins(t: Table, u: UserId, g: GroupId, to: Promotion)
    ensures KeepsAdmins(t, Leave(t, u, g).table)
    ensures KeepsAdmins(t, Promote(t, u, g, to).table)
    ensures KeepsAdmins(t, Ban(t, u, g).table)
    ensures KeepsAdmins(t, RemoveInvite(t, u, g).table)
    ensures KeepsAdmins(t, DeleteInvite(t, u, g).table)
    ensures KeepsAdmins(t, RemoveRequest(t, u, g).table)
    ensures KeepsAdmins(t, DeleteRequest(t, u, g).table)
  {
    KeepsAdminsOnePair(t, Leave(t, u, g).table, u, g);
    KeepsAdminsOnePair(t, Promote(t, u, g, to).table, u, g);
    KeepsAdminsOnePair(t, Ban(t, u, g).table, u, g);
    KeepsAdminsOnePair(t, RemoveInvite(t, u, g).table, u, g);
    KeepsAdminsOnePair(t, DeleteInvite(t, u, g).table, u, g);
    KeepsAdminsOnePair(t, RemoveRequest(t, u, g).table, u, g);
    KeepsAdminsOnePair(t, DeleteRequest(t, u, g).table, u, g);
  }

  /** Invitations, requests, accepting either and joining never leave a
      group without an active admin: on a consistent table none of them
      overwrites an admin's row. */
  lemma {:induction false} PendingOperationsKeepAdmins(t: Table, u: UserId, g: GroupId, inviter: UserId, sendNow: bool, message: string)
    requires Consistent(t)
    ensures KeepsAdmins(t, InviteUser(t, u, g, inviter, sendNow).table)
    ensures KeepsAdmins(t, SendRequest(t, u, g, message).table)
    ensures KeepsAdmins(t, AcceptInvite(t, u, g).table)
    ensures KeepsAdmins(t, AcceptRequest(t, u, g).table)
    ensures KeepsAdmins(t, Join(t, u, g).table)
  {
    KeepsAdminsOnePair(t, InviteUser(t, u, g, inviter, sendNow).table, u, g);
    KeepsAdminsOnePair(t, SendRequest(t, u, g, message).table, u, g);
    KeepsAdminsOnePair(t, AcceptInvite(t, u, g).table, u, g);
    KeepsAdminsOnePair(t, AcceptRequest(t, u, g).table, u, g);
    KeepsAdminsOnePair(t, Join(t, u, g).table, u, g);
  }

  /** A table in which every active admin row survives keeps an admin in every group. */
  lemma {:induction false} AdminsPersist(t: Table, t': Table)
    requires forall p: Pair :: p in AdminSet(t, p.group) ==> p in AdminSet(t', p.group)
    ensures KeepsAdmins(t, t')
  {
    forall h | AdminSet(t, h) != {} ensures AdminSet(t', h) != {} {
      var q :| q in AdminSet(t, h);
      assert q in AdminSet(t', q.group);
    }
  }

  /** Sending drafts and accepting all requests confirm only pairs that had
      pending rows, which on a consistent table are never admins. */
  lemma {:induction false} BulkOperationsKeepAdmins(t: Table, g: GroupId, inviter: Option<UserId>, d: set<Pair>)
    requires Consistent(t)
    requires forall p :: p in d ==> p in t.invites
    ensures KeepsAdmins(t, SendDrafts(t, d))
    ensures KeepsAdmins(t, SendInvites(t, g, inviter))
    ensures KeepsAdmins(t, AcceptAllRequests(t, g))
  {
    var t1 := SendDrafts(t, d);
    forall p: Pair | p in AdminSet(t, p.group) ensures p in AdminSet(t1, p.group) {
      assert SliceOf(t1, p) == SliceOf(t, p);
    }
    AdminsPersist(t, t1);
    var t2 := SendInvites(t, g, inviter);
    forall p: Pair | p in AdminSet(t, p.group) ensures p in AdminSet(t2, p.group) {
      assert SliceOf(t2, p) == SliceOf(t, p);
    }
    AdminsPersist(t, t2);
    var t3 := AcceptAllRequests(t, g);
    forall p: Pair | p in AdminSet(t, p.group) ensures p in AdminSet(t3, p.group) {
      assert SliceOf(t3, p) == SliceOf(t, p);
    }
    AdminsPersist(t, t3);
  }

  // ---------------------------------------------------------------- leaving

  /** A member who is not the group's only admin leaves, and the group's
      member count drops by exactly one. */
  lemma {:induction false} LeaveDropsCountByOne(t: Table, u: UserId, g: GroupId)
    requires IsMember(t, u, g) && !SoleAdmin(t, u, g)
    ensures Leave(t, u, g).outcome == Ok
    ensures MemberCount(Leave(t, u, g).table, g) == MemberCount(t, g) - 1
  {
    var t' := Leave(t, u, g).table;
    var p := Pair(u, g);
    forall q ensures q in ActiveMembers(t', g) <==> q in ActiveMembers(t, g) - {p} {
      if q != p {
        assert SliceOf(t', q) == SliceOf(t, q);
      } else {
        assert SliceOf(t', q).member.None?;
      }
    }
    assert ActiveMembers(t', g) == ActiveMembers(t, g) - {p};
    RemoveOne(ActiveMembers(t, g), p);
  }

  /** The only admin cannot leave: the table, and so the member count, stay as they were. */
  lemma SoleAdminCannotLeave(t: Table, u: UserId, g: GroupId)
    requires IsAdmin(t, u, g) && |AdminSet(t, g)| == 1
    ensures Leave(t, u, g) == Step(t, Fail(LastAdmin))
    ensures MemberCount(Leave(t, u, g).table, g) == MemberCount(t, g)
  {
  }

  /** With two or more admins, an admin may leave, and the group still has an admin. */
  lemma {:induction false} OneOfSeveralAdminsLeaves(t: Table, u: UserId, g: GroupId)
    requires IsAdmin(t, u, g) && |AdminSet(t, g)| >= 2
    ensures Leave(t, u, g).outcome == Ok
    ensures MemberCount(Leave(t, u, g).table, g) == MemberCount(t, g) - 1
    ensures AdminSet(Leave(t, u, g).table, g) != {}
  {
    LeaveDropsCountByOne(t, u, g);
    MemberOperationsKeepAdmins(t, u, g, ToAdmin);
    assert Pair(u, g) in AdminSet(t, g);
  }

  // ---------------------------------------------------------------- removals

  /** Removing a request leaves the pair's membership and invitation as
      they were; removing an invitation, draft or sent, leaves the pair's
      membership and request as they were. Nothing else changes. */
  lemma {:induction false} RemovalsLeaveOtherRowsIntact(t: Table, u: UserId, g: GroupId)
    ensures var t' := RemoveRequest(t, u, g).table;
      && !HasRequest(t', u, g)
      && (IsMember(t', u, g) <==> IsMember(t, u, g))
      && (forall f :: HasInvite(t', u, g, f) <==> HasInvite(t, u, g, f))
      && OnlyTouches(t, t', Pair(u, g))
    ensures var t' := RemoveInvite(t, u, g).table;
      && !HasInvite(t', u, g, AnyInvite)
      && (IsMember(t', u, g) <==> IsMember(t, u, g))
      && (HasRequest(t', u, g) <==> HasRequest(t, u, g))
      && OnlyTouches(t, t', Pair(u, g))
  {
    var p := Pair(u, g);
    assert SliceOf(RemoveRequest(t, u, g).table, p).request.None?;
    assert SliceOf(RemoveInvite(t, u, g).table, p).invite.None?;
  }

  /** Leaving twice, and deleting an invitation or a request twice,
      succeeds the second time and changes nothing. */
  lemma {:induction false} RepeatedRemovalsAreNoOps(t: Table, u: UserId, g: GroupId)
    ensures var s := Leave(t, u, g);
      s.outcome == Ok ==> Leave(s.table, u, g) == Step(s.table, Ok)
    ensures var s := DeleteInvite(t, u, g); DeleteInvite(s.table, u, g) == s
    ensures var s := DeleteRequest(t, u, g); DeleteRequest(s.table, u, g) == s
  {
    var p := Pair(u, g);
    assert SliceOf(Leave(t, u, g).table, p).member.None? ==> p !in Leave(t, u, g).table.members;
    assert !HasInvite(DeleteInvite(t, u, g).table, u, g, AnyInvite);
    assert !HasRequest(DeleteRequest(t, u, g).table, u, g);
  }

  // ---------------------------------------------------------------- joining

  /** Joining twice is joining once: the second call succeeds and changes nothing. */
  lemma {:induction false} JoinIdempotent(t: Table, u: UserId, g: GroupId)
    requires Join(t, u, g).outcome == Ok
    ensures Join(Join(t, u, g).table, u, g) == Step(Join(t, u, g).table, Ok)
  {
    var t1 := Join(t, u, g).table;
    var t2 := Join(t1, u, g).table;
    forall q ensures SliceOf(t2, q) == SliceOf(t1, q) {
      if q == Pair(u, g) {
        assert !Pending(t1, q);
      }
    }
    TableExt(t2, t1);
  }

  // ---------------------------------------------------------------- invitations meet requests

  /** A sent invitation followed by a request makes the user a member. */
  lemma InviteThenRequestConfirms(t: Table, u: UserId, g: GroupId, inviter: UserId, message: string)
    requires Consistent(t)
    requires u != 0 && g != 0 && inviter != 0 && Pair(u, g) !in t.members
    ensures var t1 := InviteUser(t, u, g, inviter, true).table;
      IsMember(SendRequest(t1, u, g, message).table, u, g)
  {
  }

  /** A request followed by a sent invitation makes the user a member. */
  lemma RequestThenInviteConfirms(t: Table, u: UserId, g: GroupId, inviter: UserId, message: string)
    requires Consistent(t)
    requires u != 0 && g != 0 && inviter != 0 && Pair(u, g) !in t.members
    ensures var t1 := SendRequest(t, u, g, message).table;
      var s := InviteUser(t1, u, g, inviter, true);
      IsMember(s.table, u, g) && !Pending(s.table, Pair(u, g))
  {
  }

  /** A draft invitation and a request stay pending side by side; sending the
      draft then confirms the user, and accepting afterwards removes nothing
      more: no request is left. */
  lemma {:induction false} DraftRequestThenSend(t: Table, u: UserId, g: GroupId, inviter: UserId, message: string)
    requires Consistent(t)
    requires u != 0 && g != 0 && inviter != 0 && SliceOf(t, Pair(u, g)) == NoRows
    ensures var t1 := InviteUser(t, u, g, inviter, false).table;
      var t2 := SendRequest(t1, u, g, message).table;
      && HasInvite(t2, u, g, DraftOnly) && HasRequest(t2, u, g) && !IsMember(t2, u, g)
      && var t3 := SendInvites(t2, g, Some(inviter));
      && IsMember(t3, u, g)
      && !HasRequest(AcceptInvite(t3, u, g).table, u, g)
  {
    var p := Pair(u, g);
    var t1 := InviteUser(t, u, g, inviter, false).table;
    var t2 := SendRequest(t1, u, g, message).table;
    assert p in DraftsOf(t2, g, Some(inviter));
  }

  /** Accepting every pending request adds exactly the requesters to the
      group's members. */
  lemma {:induction false} AcceptAllAddsRequesters(t: Table, g: GroupId)
    requires Consistent(t)
    ensures ActiveMembers(AcceptAllRequests(t, g), g) == ActiveMembers(t, g) + RequestsOf(t, g)
  {
    var t' := AcceptAllRequests(t, g);
    var r := RequestsOf(t, g);
    forall q ensures q in ActiveMembers(t', g) <==> q in ActiveMembers(t, g) + r {
      if q in r {
        assert SliceOf(t', q).member == Some(NewMember);
      } else {
        assert SliceOf(t', q) == SliceOf(t, q);
      }
    }
  }

  // ---------------------------------------------------------------- deleting a user

  /** Installing `r` as admin of the groups `gs` adds exactly `r` to their admins. */
  lemma {:induction false} InstallAdminsAdmins(t: Table, gs: set<GroupId>, r: UserId, g: GroupId)
    ensures AdminSet(InstallAdmins(t, gs, r), g) == AdminSet(t, g) + (if g in gs then {Pair(r, g)} else {})
  {
    var t' := InstallAdmins(t, gs, r);
    forall q ensures q in AdminSet(t', g) <==> q in AdminSet(t, g) + (if g in gs then {Pair(r, g)} else {}) {
      if q.user == r && q.group in gs {
        assert SliceOf(t', Pair(r, q.group)).member == Some(Member(Admin, false));
      } else {
        assert SliceOf(t', q) == SliceOf(t, q);
      }
    }
  }

  /** Removing user `u` removes exactly `u` from every group's admins. */
  lemma {:induction false} RemoveUserAdmins(t: Table, u: UserId, g: GroupId)
    ensures AdminSet(RemoveUser(t, u), g) == AdminSet(t, g) - {Pair(u, g)}
  {
    var t' := RemoveUser(t, u);
    forall q ensures q in AdminSet(t', g) <==> q in AdminSet(t, g) - {Pair(u, g)} {
      if q.user == u {
        assert SliceOf(t', Pair(u, q.group)) == NoRows;
      } else {
        assert SliceOf(t', q) == SliceOf(t, q);
      }
    }
  }

  /** The admins each group has once `u` is deleted: its admins other than
      `u`, plus the replacement in the groups `u` administered alone. */
  lemma {:induction false} DeleteAllAdmins(t: Table, u: UserId, replacement: Option<UserId>, g: GroupId)
    ensures AdminSet(DeleteAllForUser(t, u, replacement), g) ==
      (AdminSet(t, g) - {Pair(u, g)})
      + (if replacement.Some? && replacement.value != u && SoleAdmin(t, u, g) then {Pair(replacement.value, g)} else {})
  {
    if replacement.Some? {
      var sole := SoleAdminGroups(t, u);
      var t1 := InstallAdmins(t, sole, replacement.value);
      InstallAdminsAdmins(t, sole, replacement.value, g);
      RemoveUserAdmins(t1, u, g);
    } else {
      RemoveUserAdmins(t, u, g);
    }
  }

  /** Deleting a user never leaves a group without an admin when a
      replacement other than that user is given. */
  lemma {:induction false} DeleteAllKeepsAdmins(t: Table, u: UserId, r: UserId)
    requires r != u
    ensures KeepsAdmins(t, DeleteAllForUser(t, u, Some(r)))
  {
    var t' := DeleteAllForUser(t, u, Some(r));
    forall g | AdminSet(t, g) != {} ensures AdminSet(t', g) != {} {
      DeleteAllAdmins(t, u, Some(r), g);
      if SoleAdmin(t, u, g) {
        assert Pair(r, g) in AdminSet(t', g);
      } else if IsAdmin(t, u, g) {
        FellowAdmin(t, u, g);
        var q :| q in AdminSet(t, g) && q != Pair(u, g);
        assert q in AdminSet(t', g);
      } else {
        var q :| q in AdminSet(t, g);
        assert q in AdminSet(t', g);
      }
    }
  }
}
