/** The transitions of a (user, group) pair between no relationship, draft
    and sent invitation, membership request, member, mod, admin and banned,
    as pure functions from the old table to the new table and an outcome.
    Store.MembershipStore performs the same transitions in place. */
module Transitions {
  import opened Membership

  datatype Step = Step(table: Table, outcome: Outcome)

  /** Every pair other than `p` keeps all its rows. */
  ghost predicate OnlyTouches(t: Table, t': Table, p: Pair) {
    forall q :: q != p ==> SliceOf(t', q) == SliceOf(t, q)
  }

  /** Confirms a pair as a regular member and collapses its pending rows. */
  function Confirm(t: Table, p: Pair): (t': Table)
    ensures SliceOf(t', p) == Slice(Some(NewMember), None, None)
    ensures OnlyTouches(t, t', p)
  {
    Table(t.members[p := NewMember], t.invites - {p}, t.requests - {p})
  }

  // ---------------------------------------------------------------- invitations

  /** groups_invite_user: records a draft invitation, or a sent one when
      `sendNow`. A zero id is rejected, and so is a user who already holds a
      confirmed row. Inviting again refreshes the pair's single invitation
      (a sent invitation never goes back to draft). A sent invitation for a
      pair that already requested membership confirms the pair. */
  function InviteUser(t: Table, u: UserId, g: GroupId, inviter: UserId, sendNow: bool): (s: Step)
    ensures s.outcome == Fail(InvalidArgument) <==> u == 0 || g == 0 || inviter == 0
    ensures s.outcome == Ok <==> u != 0 && g != 0 && inviter != 0 && Pair(u, g) !in t.members
    ensures s.outcome.Fail? ==> s.table == t
    ensures OnlyTouches(t, s.table, Pair(u, g))
    ensures s.outcome == Ok ==>
      var sent := sendNow || HasInvite(t, u, g, SentOnly);
      if sent && HasRequest(t, u, g) then
        SliceOf(s.table, Pair(u, g)) == Slice(Some(NewMember), None, None)
      else
        SliceOf(s.table, Pair(u, g)) == SliceOf(t, Pair(u, g)).(invite := Some(Invite(inviter, sent)))
  {
    var p := Pair(u, g);
    if u == 0 || g == 0 || inviter == 0 then Step(t, Fail(InvalidArgument))
    else if p in t.members then Step(t, Fail(if t.members[p].banned then Banned else AlreadyMember))
    else
      var sent := sendNow || (p in t.invites && t.invites[p].sent);
      if sent && p in t.requests then Step(Confirm(t, p), Ok)
      else Step(t.(invites := t.invites[p := Invite(inviter, sent)]), Ok)
  }

  /** The drafts of group `g` that groups_send_invites sends: all of them,
      or only those from `inviter` when one is given. */
  function DraftsOf(t: Table, g: GroupId, inviter: Option<UserId>): (d: set<Pair>)
    ensures forall p :: p in d <==>
      p.group == g && HasInvite(t, p.user, g, DraftOnly)
      && (inviter.None? || t.invites[p].inviter == inviter.value)
  {
    set p | p in t.invites && p.group == g && !t.invites[p].sent
      && (inviter.None? || t.invites[p].inviter == inviter.value)
  }

  /** Sends the drafts in `d`: one whose pair also requested membership
      confirms the pair, any other becomes a sent invitation. */
  function SendDrafts(t: Table, d: set<Pair>): (t': Table)
    requires forall p :: p in d ==> p in t.invites
    ensures forall p :: p !in d ==> SliceOf(t', p) == SliceOf(t, p)
    ensures forall p :: p in d && p in t.requests ==>
      SliceOf(t', p) == Slice(Some(NewMember), None, None)
    ensures forall p :: p in d && p !in t.requests ==>
      SliceOf(t', p) == SliceOf(t, p).(invite := Some(t.invites[p].(sent := true)))
  {
    Table(
      t.members + map p | p in d && p in t.requests :: NewMember,
      map p | p in t.invites && !(p in d && p in t.requests) ::
        if p in d then t.invites[p].(sent := true) else t.invites[p],
      t.requests - d)
  }

  /** groups_send_invites: sends every draft of the group (from one inviter when given). */
  function SendInvites(t: Table, g: GroupId, inviter: Option<UserId>): (t': Table)
    ensures forall p :: p in DraftsOf(t, g, inviter) && p in t.requests ==>
      SliceOf(t', p) == Slice(Some(NewMember), None, None)
    ensures forall p :: p in DraftsOf(t, g, inviter) && p !in t.requests ==>
      SliceOf(t', p) == SliceOf(t, p).(invite := Some(t.invites[p].(sent := true)))
    ensures forall p :: p !in DraftsOf(t, g, inviter) ==> SliceOf(t', p) == SliceOf(t, p)
    ensures DraftsOf(t', g, inviter) == {}
  {
    var d := DraftsOf(t, g, inviter);
    var t' := SendDrafts(t, d);
    assert forall p :: p in DraftsOf(t', g, inviter) ==> p in d by {
      forall p | p in DraftsOf(t', g, inviter) ensures p in d {
        assert SliceOf(t', p).invite.Some?;
      }
    }
    forall p | p in d ensures p !in DraftsOf(t', g, inviter) {
      assert SliceOf(t', p).invite.None? || SliceOf(t', p).invite.value.sent;
    }
    t'
  }

  /** groups_accept_invite: a sent invitation confirms the pair; an existing
      member just has stray pending rows removed. A draft is not acceptable. */
  function AcceptInvite(t: Table, u: UserId, g: GroupId): (s: Step)
    ensures s.outcome == Ok <==> IsMember(t, u, g) || HasInvite(t, u, g, SentOnly)
    ensures s.outcome.Fail? ==> s.outcome.error == NotFound && s.table == t
    ensures s.outcome == Ok ==> IsMember(s.table, u, g) && !Pending(s.table, Pair(u, g))
    ensures s.outcome == Ok && !IsMember(t, u, g) ==> s.table.members[Pair(u, g)] == NewMember
    ensures IsMember(t, u, g) ==> s.table.members == t.members
    ensures OnlyTouches(t, s.table, Pair(u, g))
  {
    var p := Pair(u, g);
    if IsMember(t, u, g) then Step(t.(invites := t.invites - {p}, requests := t.requests - {p}), Ok)
    else if HasInvite(t, u, g, SentOnly) then Step(Confirm(t, p), Ok)
    else Step(t, Fail(NotFound))
  }

  /** groups_reject_invite: removes the pair's invitation, draft or sent,
      and nothing else. The outcome says whether there was one. */
  function RemoveInvite(t: Table, u: UserId, g: GroupId): (s: Step)
    ensures SliceOf(s.table, Pair(u, g)) == SliceOf(t, Pair(u, g)).(invite := None)
    ensures OnlyTouches(t, s.table, Pair(u, g))
    ensures s.outcome == Ok <==> HasInvite(t, u, g, AnyInvite)
  {
    var p := Pair(u, g);
    Step(t.(invites := t.invites - {p}), if p in t.invites then Ok else Fail(NotFound))
  }

  /** groups_delete_invite and groups_uninvite_user: the same removal, but
      for a pair with no invitation it is a safe no-op, not an error. */
  function DeleteInvite(t: Table, u: UserId, g: GroupId): (s: Step)
    ensures s.outcome == Ok
    ensures SliceOf(s.table, Pair(u, g)) == SliceOf(t, Pair(u, g)).(invite := None)
    ensures OnlyTouches(t, s.table, Pair(u, g))
    ensures !HasInvite(t, u, g, AnyInvite) ==> s.table == t
  {
    var s := RemoveInvite(t, u, g);
    assert !HasInvite(t, u, g, AnyInvite) ==> t.invites - {Pair(u, g)} == t.invites;
    Step(s.table, Ok)
  }

  // ---------------------------------------------------------------- requests

  /** groups_send_membership_request: records a request. A zero id, a member
      and a banned user are rejected; an existing request is kept as it is;
      a request from a user holding a sent invitation accepts that invitation. */
  function SendRequest(t: Table, u: UserId, g: GroupId, message: string): (s: Step)
    ensures s.outcome == Fail(InvalidArgument) <==> u == 0 || g == 0
    ensures s.outcome == Ok <==> u != 0 && g != 0 && Pair(u, g) !in t.members
    ensures s.outcome.Fail? ==> s.table == t
    ensures OnlyTouches(t, s.table, Pair(u, g))
    ensures s.outcome == Ok && HasInvite(t, u, g, SentOnly) ==>
      SliceOf(s.table, Pair(u, g)) == Slice(Some(NewMember), None, None)
    ensures s.outcome == Ok && !HasInvite(t, u, g, SentOnly) ==>
      HasRequest(s.table, u, g) && Pair(u, g) !in s.table.members
      && SliceOf(s.table, Pair(u, g)).invite == SliceOf(t, Pair(u, g)).invite
    ensures HasRequest(t, u, g) && !HasInvite(t, u, g, SentOnly) ==> s.table == t
  {
    var p := Pair(u, g);
    if u == 0 || g == 0 then Step(t, Fail(InvalidArgument))
    else if p in t.members then Step(t, Fail(if t.members[p].banned then Banned else AlreadyMember))
    else if HasInvite(t, u, g, SentOnly) then Step(Confirm(t, p), Ok)
    else if p in t.requests then Step(t, Ok)
    else Step(t.(requests := t.requests[p := Request(message)]), Ok)
  }

  /** groups_accept_membership_request: a pending request confirms the pair. */
  function AcceptRequest(t: Table, u: UserId, g: GroupId): (s: Step)
    ensures s.outcome == Ok <==> HasRequest(t, u, g)
    ensures s.outcome.Fail? ==> s.outcome.error == NotFound && s.table == t
    ensures s.outcome == Ok ==> SliceOf(s.table, Pair(u, g)) == Slice(Some(NewMember), None, None)
    ensures OnlyTouches(t, s.table, Pair(u, g))
  {
    var p := Pair(u, g);
    if p in t.requests then Step(Confirm(t, p), Ok) else Step(t, Fail(NotFound))
  }

  /** groups_reject_membership_request: removes the pair's request and
      nothing else. The outcome says whether there was one. */
  function RemoveRequest(t: Table, u: UserId, g: GroupId): (s: Step)
    ensures SliceOf(s.table, Pair(u, g)) == SliceOf(t, Pair(u, g)).(request := None)
    ensures OnlyTouches(t, s.table, Pair(u, g))
    ensures s.outcome == Ok <==> HasRequest(t, u, g)
  {
    var p := Pair(u, g);
    Step(t.(requests := t.requests - {p}), if p in t.requests then Ok else Fail(NotFound))
  }

  /** groups_delete_membership_request: the same removal, but for a pair
      with no request it is a safe no-op, not an error. */
  function DeleteRequest(t: Table, u: UserId, g: GroupId): (s: Step)
    ensures s.outcome == Ok
    ensures SliceOf(s.table, Pair(u, g)) == SliceOf(t, Pair(u, g)).(request := None)
    ensures OnlyTouches(t, s.table, Pair(u, g))
    ensures !HasRequest(t, u, g) ==> s.table == t
  {
    var s := RemoveRequest(t, u, g);
    assert !HasRequest(t, u, g) ==> t.requests - {Pair(u, g)} == t.requests;
    Step(s.table, Ok)
  }

  /** The pairs holding a pending request for group `g`. */
  function RequestsOf(t: Table, g: GroupId): (r: set<Pair>)
    ensures forall p :: p in r <==> p.group == g && HasRequest(t, p.user, g)
  {
    set p | p in t.requests && p.group == g
  }

  /** Confirms every pair in `ps`. */
  function ConfirmAll(t: Table, ps: set<Pair>): (t': Table)
    ensures forall p :: p in ps ==> SliceOf(t', p) == Slice(Some(NewMember), None, None)
    ensures forall p :: p !in ps ==> SliceOf(t', p) == SliceOf(t, p)
  {
    Table(t.members + map p | p in ps :: NewMember, t.invites - ps, t.requests - ps)
  }

  /** groups_accept_all_pending_membership_requests: accepts every request of the group. */
  function AcceptAllRequests(t: Table, g: GroupId): (t': Table)
    ensures forall p :: p in RequestsOf(t, g) ==> SliceOf(t', p) == Slice(Some(NewMember), None, None)
    ensures forall p :: p !in RequestsOf(t, g) ==> SliceOf(t', p) == SliceOf(t, p)
    ensures RequestsOf(t', g) == {}
  {
    ConfirmAll(t, RequestsOf(t, g))
  }

  // ---------------------------------------------------------------- membership

  /** groups_join_group: confirms the user directly, clearing the pair's
      pending rows. Joining again succeeds and changes nothing; a banned
      user and a zero id are rejected. */
  function Join(t: Table, u: UserId, g: GroupId): (s: Step)
    ensures s.outcome == Ok <==> u != 0 && g != 0 && !IsBanned(t, u, g)
    ensures s.outcome.Fail? ==> s.table == t
    ensures s.outcome == Ok ==> IsMember(s.table, u, g) && !Pending(s.table, Pair(u, g))
    ensures s.outcome == Ok ==>
      s.table.members[Pair(u, g)] == if IsMember(t, u, g) then t.members[Pair(u, g)] else NewMember
    ensures OnlyTouches(t, s.table, Pair(u, g))
  {
    var p := Pair(u, g);
    if u == 0 || g == 0 then Step(t, Fail(InvalidArgument))
    else if IsBanned(t, u, g) then Step(t, Fail(Banned))
    else
      var cleared := t.(invites := t.invites - {p}, requests := t.requests - {p});
      if p in t.members then Step(cleared, Ok)
      else Step(cleared.(members := t.members[p := NewMember]), Ok)
  }

  /** groups_leave_group: removes the user's confirmed row, unless the user
      is the group's only active admin. Leaving a group one has no row in
      is a no-op that succeeds. */
  function Leave(t: Table, u: UserId, g: GroupId): (s: Step)
    ensures s.outcome == Fail(LastAdmin) <==> SoleAdmin(t, u, g)
    ensures s.outcome == Ok <==> !SoleAdmin(t, u, g)
    ensures s.outcome.Fail? ==> s.table == t
    ensures s.outcome == Ok ==> SliceOf(s.table, Pair(u, g)) == SliceOf(t, Pair(u, g)).(member := None)
    ensures Pair(u, g) !in t.members ==> s == Step(t, Ok)
    ensures OnlyTouches(t, s.table, Pair(u, g))
  {
    var p := Pair(u, g);
    if SoleAdmin(t, u, g) then Step(t, Fail(LastAdmin))
    else if p !in t.members then Step(t, Ok)
    else Step(t.(members := t.members - {p}), Ok)
  }

  datatype Promotion = ToMod | ToAdmin

  function RoleOf(to: Promotion): Role {
    match to
    case ToMod => Mod
    case ToAdmin => Admin
  }

  /** BP_Groups_Member::promote: gives an unbanned member the mod or admin
      role. Turning the only admin into a mod is rejected. */
  function Promote(t: Table, u: UserId, g: GroupId, to: Promotion): (s: Step)
    ensures s.outcome == Ok <==> IsMember(t, u, g) && !(to == ToMod && SoleAdmin(t, u, g))
    ensures s.outcome.Fail? ==> s.table == t
    ensures s.outcome == Ok ==> SliceOf(s.table, Pair(u, g)) == SliceOf(t, Pair(u, g)).(member := Some(Member(RoleOf(to), false)))
    ensures OnlyTouches(t, s.table, Pair(u, g))
  {
    var p := Pair(u, g);
    if p !in t.members then Step(t, Fail(NotFound))
    else if t.members[p].banned then Step(t, Fail(Banned))
    else if to == ToMod && SoleAdmin(t, u, g) then Step(t, Fail(LastAdmin))
    else Step(t.(members := t.members[p := Member(RoleOf(to), false)]), Ok)
  }

  /** BP_Groups_Member::ban: marks a confirmed row banned (dropping a mod
      role) without deleting it; an active admin cannot be banned. */
  function Ban(t: Table, u: UserId, g: GroupId): (s: Step)
    ensures s.outcome == Ok <==> Pair(u, g) in t.members && !IsAdmin(t, u, g)
    ensures s.outcome.Fail? ==> s.table == t
    ensures s.outcome == Ok ==> IsBanned(s.table, u, g) && !IsMember(s.table, u, g)
    ensures s.outcome == Ok ==> SliceOf(s.table, Pair(u, g)) == SliceOf(t, Pair(u, g)).(member := Some(Member(Regular, true)))
    ensures OnlyTouches(t, s.table, Pair(u, g))
  {
    var p := Pair(u, g);
    if p !in t.members then Step(t, Fail(NotFound))
    else if IsAdmin(t, u, g) then Step(t, Fail(AdminProtected))
    else Step(t.(members := t.members[p := Member(Regular, true)]), Ok)
  }

  // ---------------------------------------------------------------- user deletion

  /** The groups of which `u` is the only active admin. */
  function SoleAdminGroups(t: Table, u: UserId): (gs: set<GroupId>)
    ensures forall g :: g in gs <==> SoleAdmin(t, u, g)
  {
    set p | p in t.members && p.user == u && SoleAdmin(t, u, p.group) :: p.group
  }

  /** Makes `r` an active admin of each group in `gs`, collapsing any pending rows of r's there. */
  function InstallAdmins(t: Table, gs: set<GroupId>, r: UserId): (t': Table)
    ensures forall g :: g in gs ==> SliceOf(t', Pair(r, g)) == Slice(Some(Member(Admin, false)), None, None)
    ensures forall p: Pair :: !(p.user == r && p.group in gs) ==> SliceOf(t', p) == SliceOf(t, p)
  {
    var ps := set g | g in gs :: Pair(r, g);
    Table(t.members + map p | p in ps :: Member(Admin, false), t.invites - ps, t.requests - ps)
  }

  /** Deletes every row of user `u`. */
  function RemoveUser(t: Table, u: UserId): (t': Table)
    ensures forall g :: SliceOf(t', Pair(u, g)) == NoRows
    ensures forall p: Pair :: p.user != u ==> SliceOf(t', p) == SliceOf(t, p)
  {
    Table(
      map p | p in t.members && p.user != u :: t.members[p],
      map p | p in t.invites && p.user != u :: t.invites[p],
      map p | p in t.requests && p.user != u :: t.requests[p])
  }

  /** BP_Groups_Member::delete_all_for_user: in every group of which `u` is
      the only active admin, the replacement (the site administrator the
      caller looked up, when there is one) becomes an admin; then every row
      of `u` is deleted. */
  function DeleteAllForUser(t: Table, u: UserId, replacement: Option<UserId>): (t': Table)
    ensures forall g :: SliceOf(t', Pair(u, g)) == NoRows
    ensures forall p: Pair :: p.user != u && !(replacement.Some? && p.user == replacement.value) ==>
      SliceOf(t', p) == SliceOf(t, p)
    ensures replacement.Some? && replacement.value != u ==>
      forall g :: SoleAdmin(t, u, g) ==>
        SliceOf(t', Pair(replacement.value, g)) == Slice(Some(Member(Admin, false)), None, None)
    ensures replacement.Some? && replacement.value != u ==>
      forall g :: !SoleAdmin(t, u, g) ==>
        SliceOf(t', Pair(replacement.value, g)) == SliceOf(t, Pair(replacement.value, g))
  {
    var t1 := if replacement.Some? then InstallAdmins(t, SoleAdminGroups(t, u), replacement.value) else t;
    RemoveUser(t1, u)
  }

  // ---------------------------------------------------------------- one step at a time

  /** Sending one more draft extends the drafts sent so far by that draft's step. */
  lemma {:induction false} SendDraftsStep(t0: Table, d: set<Pair>, p: Pair)
    requires forall q :: q in d ==> q in t0.invites
    requires p in t0.invites && p !in d
    ensures var t := SendDrafts(t0, d);
      && p in t.invites && t.invites[p] == t0.invites[p]
      && (p in t.requests <==> p in t0.requests)
      && SendDrafts(t0, d + {p}) ==
           if p in t.requests then Confirm(t, p)
           else t.(invites := t.invites[p := t.invites[p].(sent := true)])
  {
    var t := SendDrafts(t0, d);
    assert SliceOf(t, p) == SliceOf(t0, p);
    var next := if p in t.requests then Confirm(t, p)
      else t.(invites := t.invites[p := t.invites[p].(sent := true)]);
    forall q ensures SliceOf(SendDrafts(t0, d + {p}), q) == SliceOf(next, q) {
      if q != p {
        assert SliceOf(next, q) == SliceOf(t, q);
      }
    }
    TableExt(SendDrafts(t0, d + {p}), next);
  }

  /** Confirming one more pair extends the pairs confirmed so far. */
  lemma {:induction false} ConfirmAllStep(t0: Table, d: set<Pair>, p: Pair)
    ensures ConfirmAll(t0, d + {p}) == Confirm(ConfirmAll(t0, d), p)
  {
    var t := ConfirmAll(t0, d);
    forall q ensures SliceOf(ConfirmAll(t0, d + {p}), q) == SliceOf(Confirm(t, p), q) {
      if q != p {
        assert SliceOf(Confirm(t, p), q) == SliceOf(t, q);
      }
    }
    TableExt(ConfirmAll(t0, d + {p}), Confirm(t, p));
  }

  /** Installing the replacement in one more group extends the installs so far,
      and leaves that group's rows as they were before any install. */
  lemma {:induction false} InstallAdminsStep(t0: Table, gs: set<GroupId>, r: UserId, g: GroupId)
    requires g !in gs
    ensures var t := InstallAdmins(t0, gs, r);
      var p := Pair(r, g);
      && (forall q: Pair :: q.group == g ==> SliceOf(t, q) == SliceOf(t0, q))
      && InstallAdmins(t0, gs + {g}, r) ==
           Table(t.members[p := Member(Admin, false)], t.invites - {p}, t.requests - {p})
  {
    var t := InstallAdmins(t0, gs, r);
    var p := Pair(r, g);
    var next := Table(t.members[p := Member(Admin, false)], t.invites - {p}, t.requests - {p});
    forall q ensures SliceOf(InstallAdmins(t0, gs + {g}, r), q) == SliceOf(next, q) {
      if q != p {
        assert SliceOf(next, q) == SliceOf(t, q);
      }
    }
    TableExt(InstallAdmins(t0, gs + {g}, r), next);
  }
}
