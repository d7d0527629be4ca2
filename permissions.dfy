/** Who may send a group's invitations: a pure function of the group's
    invite status, the user's confirmed row and the site-admin flag. */
module Permissions {
  import opened Membership

  /** Capability level of a confirmed row: none (no row, or banned) <
      member < mod < admin. */
  function Level(m: Option<Member>): nat {
    match m
    case None => 0
    case Some(row) =>
      if row.banned then 0
      else match row.role
        case Regular => 1
        case Mod => 2
        case Admin => 3
  }

  /** The level an invite status asks for; an unset status falls back to members. */
  function Threshold(s: Option<InviteStatus>): nat {
    match s
    case None => 1
    case Some(Members) => 1
    case Some(Mods) => 2
    case Some(Admins) => 3
  }

  /** The roles an invite status admits, stated without levels. */
  predicate Admits(s: Option<InviteStatus>, r: Role) {
    match s
    case None => true
    case Some(Members) => true
    case Some(Mods) => r == Mod || r == Admin
    case Some(Admins) => r == Admin
  }

  /** Whether user `u` (0 = nobody) may invite, given the group's invite
      status and the user's confirmed row in it. A site administrator always
      may; otherwise the user must be an unbanned member whose role the
      status admits. */
  function CanSendInvites(u: UserId, siteAdmin: bool, status: Option<InviteStatus>, m: Option<Member>): (b: bool)
    ensures u != 0 && siteAdmin ==> b
    ensures !siteAdmin ==>
      (b <==> u != 0 && m.Some? && !m.value.banned && Admits(status, m.value.role))
  {
    u != 0 && (siteAdmin || Level(m) >= Threshold(status))
  }

  /** The same question asked of the membership table and the group directory:
      an unknown group has no invite status and no members. */
  function UserCanSendInvites(t: Table, groups: map<GroupId, Group>, g: GroupId, u: UserId, siteAdmin: bool): (b: bool)
    ensures u != 0 && siteAdmin ==> b
    ensures !siteAdmin && g !in groups ==> !b
    ensures !siteAdmin && !IsMember(t, u, g) ==> !b
    ensures !siteAdmin && g in groups && IsMember(t, u, g) ==>
      (b <==> u != 0 && Admits(groups[g].inviteStatus, t.members[Pair(u, g)].role))
  {
    var status := if g in groups then groups[g].inviteStatus else None;
    var m := if g in groups && Pair(u, g) in t.members then Some(t.members[Pair(u, g)]) else None;
    CanSendInvites(u, siteAdmin, status, m)
  }

  /** A higher role never loses the permission a lower one has, and a
      stricter status never grants what a looser one denies. */
  lemma {:induction false} CanSendInvitesMonotone(u: UserId, siteAdmin: bool, s: Option<InviteStatus>, s': Option<InviteStatus>, r: Role, r': Role)
    requires Level(Some(Member(r, false))) <= Level(Some(Member(r', false)))
    requires Threshold(s') <= Threshold(s)
    ensures CanSendInvites(u, siteAdmin, s, Some(Member(r, false))) ==> CanSendInvites(u, siteAdmin, s', Some(Member(r', false)))
  {
  }

  /** The permission matrix: each row is an invite status, each column a
      capability (non-member, member, mod, admin, site admin). */
  lemma PermissionMatrix(u: UserId)
    requires u != 0
    ensures forall s: Option<InviteStatus> :: !CanSendInvites(u, false, s, None)
    ensures forall s: Option<InviteStatus> :: CanSendInvites(u, true, s, None)
    ensures forall s: Option<InviteStatus> :: CanSendInvites(u, false, s, Some(Member(Admin, false)))
    ensures forall s: Option<InviteStatus> :: !CanSendInvites(u, false, s, Some(Member(Admin, true)))
    ensures CanSendInvites(u, false, None, Some(Member(Regular, false)))
    ensures CanSendInvites(u, false, Some(Members), Some(Member(Regular, false)))
    ensures CanSendInvites(u, false, Some(Members), Some(Member(Mod, false)))
    ensures !CanSendInvites(u, false, Some(Mods), Some(Member(Regular, false)))
    ensures CanSendInvites(u, false, Some(Mods), Some(Member(Mod, false)))
    ensures !CanSendInvites(u, false, Some(Admins), Some(Member(Mod, false)))
    ensures CanSendInvites(u, false, None, Some(Member(Mod, false)))
    ensures !CanSendInvites(u, false, Some(Admins), Some(Member(Regular, false)))
  {
  }
}
