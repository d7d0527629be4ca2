/** The relationship rows between users and groups, and the facts every
    other module reads off them. */
module Membership {

  datatype Option<+T> = None | Some(value: T)

  type UserId = nat
  type GroupId = nat

  /** The (user, group) key that every relationship row hangs on. */
  datatype Pair = Pair(user: UserId, group: GroupId)

  datatype Role = Regular | Mod | Admin

  /** A confirmed row: the member's role and whether the member is banned.
      A banned row keeps the confirmed row but loses member capabilities. */
  datatype Member = Member(role: Role, banned: bool)

  /** A pending invitation: a draft until `sent` is set. */
  datatype Invite = Invite(inviter: UserId, sent: bool)

  /** A pending membership request and the requester's message. */
  datatype Request = Request(message: string)

  /** Who may send invitations for a group; unset means `Members`. */
  datatype InviteStatus = Members | Mods | Admins

  datatype Group = Group(name: string, inviteStatus: Option<InviteStatus>)

  /** The membership table. Keying each kind of row by its pair makes
      "at most one confirmed row per pair" and "never two rows of the same
      pending kind per pair" hold by construction. */
  datatype Table = Table(
    members: map<Pair, Member>,
    invites: map<Pair, Invite>,
    requests: map<Pair, Request>)

  datatype Error =
    | InvalidArgument   // a zero user, group or inviter id
    | AlreadyMember     // the pair already holds a confirmed row
    | Banned            // the user is banned from the group
    | NotFound          // the row the operation needs does not exist
    | LastAdmin         // the operation would leave the group without an admin
    | AdminProtected    // an admin cannot be banned

  datatype Outcome = Ok | Fail(error: Error)

  /** Every row one pair holds. */
  datatype Slice = Slice(member: Option<Member>, invite: Option<Invite>, request: Option<Request>)

  function SliceOf(t: Table, p: Pair): Slice {
    Slice(
      if p in t.members then Some(t.members[p]) else None,
      if p in t.invites then Some(t.invites[p]) else None,
      if p in t.requests then Some(t.requests[p]) else None)
  }

  const NoRows := Slice(None, None, None)
  const NewMember := Member(Regular, false)

  /** The table invariant the transitions keep: confirming a pair collapses
      its pending rows, and a sent invitation plus a request never stay
      pending together (together they confirm the pair). */
  predicate Consistent(t: Table) {
    && (forall p :: p in t.members ==> p !in t.invites && p !in t.requests)
    && (forall p :: p in t.requests && p in t.invites ==> !t.invites[p].sent)
  }

  /** A confirmed, unbanned member of the group, whatever the role. */
  predicate IsMember(t: Table, u: UserId, g: GroupId) {
    Pair(u, g) in t.members && !t.members[Pair(u, g)].banned
  }

  predicate IsBanned(t: Table, u: UserId, g: GroupId) {
    Pair(u, g) in t.members && t.members[Pair(u, g)].banned
  }

  predicate IsAdmin(t: Table, u: UserId, g: GroupId) {
    Pair(u, g) in t.members && t.members[Pair(u, g)] == Member(Admin, false)
  }

  predicate IsMod(t: Table, u: UserId, g: GroupId) {
    Pair(u, g) in t.members && t.members[Pair(u, g)] == Member(Mod, false)
  }

  datatype InviteFilter = SentOnly | DraftOnly | AnyInvite

  function Selects(f: InviteFilter, i: Invite): bool {
    match f
    case SentOnly => i.sent
    case DraftOnly => !i.sent
    case AnyInvite => true
  }

  predicate HasInvite(t: Table, u: UserId, g: GroupId, f: InviteFilter) {
    Pair(u, g) in t.invites && Selects(f, t.invites[Pair(u, g)])
  }

  predicate HasRequest(t: Table, u: UserId, g: GroupId) {
    Pair(u, g) in t.requests
  }

  /** The pair holds an unconfirmed row of some kind. */
  predicate Pending(t: Table, p: Pair) {
    p in t.invites || p in t.requests
  }

  /** The group's active (unbanned) administrators. */
  function AdminSet(t: Table, g: GroupId): set<Pair> {
    set p | p in t.members && p.group == g && t.members[p] == Member(Admin, false)
  }

  /** The user is the only active administrator of the group. */
  predicate SoleAdmin(t: Table, u: UserId, g: GroupId) {
    IsAdmin(t, u, g) && |AdminSet(t, g)| < 2
  }

  /** The group's confirmed, unbanned members: what the total member count counts. */
  function ActiveMembers(t: Table, g: GroupId): set<Pair> {
    set p | p in t.members && p.group == g && !t.members[p].banned
  }

  function MemberCount(t: Table, g: GroupId): (n: nat)
    ensures n == |set u | u in Users(t) && IsMember(t, u, g)|
    ensures n == 0 <==> forall u :: !IsMember(t, u, g)
    ensures forall u :: IsMember(t, u, g) ==> n >= 1
  {
    var s := ActiveMembers(t, g);
    UsersOfGroup(s, g);
    assert (set u | u in Users(t) && IsMember(t, u, g)) == (set p | p in s :: p.user) by {
      forall u | u in Users(t) && IsMember(t, u, g) ensures u in (set p | p in s :: p.user) {
        assert Pair(u, g) in s;
      }
    }
    if s == {} then
      assert forall u :: IsMember(t, u, g) ==> Pair(u, g) in s;
      0
    else
      var p :| p in s;
      assert IsMember(t, p.user, g);
      |s|
  }

  /** Every user holding a confirmed row in some group. */
  function Users(t: Table): set<UserId> {
    set p | p in t.members :: p.user
  }

  /** Within one group, distinct pairs belong to distinct users. */
  lemma {:induction false} UsersOfGroup(s: set<Pair>, g: GroupId)
    requires forall p :: p in s ==> p.group == g
    ensures |set p | p in s :: p.user| == |s|
    decreases |s|
  {
    if s != {} {
      var x :| x in s;
      UsersOfGroup(s - {x}, g);
      assert (set p | p in s :: p.user) == (set p | p in s - {x} :: p.user) + {x.user};
      assert x.user !in (set p | p in s - {x} :: p.user);
    }
  }

  /** Two tables that agree on every pair are the same table. */
  lemma {:induction false} TableExt(a: Table, b: Table)
    requires forall p :: SliceOf(a, p) == SliceOf(b, p)
    ensures a == b
  {
    forall p ensures p in a.members <==> p in b.members {
      assert SliceOf(a, p).member == SliceOf(b, p).member;
    }
    forall p | p in a.members ensures a.members[p] == b.members[p] {
      assert SliceOf(a, p).member == SliceOf(b, p).member;
    }
    forall p ensures p in a.invites <==> p in b.invites {
      assert SliceOf(a, p).invite == SliceOf(b, p).invite;
    }
    forall p | p in a.invites ensures a.invites[p] == b.invites[p] {
      assert SliceOf(a, p).invite == SliceOf(b, p).invite;
    }
    forall p ensures p in a.requests <==> p in b.requests {
      assert SliceOf(a, p).request == SliceOf(b, p).request;
    }
    forall p | p in a.requests ensures a.requests[p] == b.requests[p] {
      assert SliceOf(a, p).request == SliceOf(b, p).request;
    }
    assert a.members == b.members;
    assert a.invites == b.invites;
    assert a.requests == b.requests;
  }

  /** Removing one member of a set lowers its size by exactly one. */
  lemma {:induction false} RemoveOne<T>(s: set<T>, x: T)
    requires x in s
    ensures |s - {x}| == |s| - 1
  {
    assert s == (s - {x}) + {x};
  }
}
