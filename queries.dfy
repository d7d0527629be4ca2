/** The read-only listings over the membership table: the groups a user
    administers, moderates, is banned from, has joined or is invited to,
    filtered by a search term against the group's name and an exclusion
    list; the invitation count; the invitees of a group. */
module Queries {
  import opened Membership
  import opened Transitions

  // ---------------------------------------------------------------- name search

  function LowerChar(c: char): char {
    if 'A' <= c <= 'Z' then (c as int + 32) as char else c
  }

  /** ASCII lower-casing: the comparison the search makes is case-insensitive. */
  function Lower(s: string): (r: string)
    ensures |r| == |s|
    ensures forall i :: 0 <= i < |r| ==> !('A' <= r[i] <= 'Z')
    ensures forall i :: 0 <= i < |s| && 'A' <= s[i] <= 'Z' ==> r[i] as int == s[i] as int + 32
    ensures forall i :: 0 <= i < |s| && !('A' <= s[i] <= 'Z') ==> r[i] == s[i]
  {
    seq(|s|, i requires 0 <= i < |s| => LowerChar(s[i]))
  }

  /** `term` occurs in `text` at offset `i`. */
  ghost predicate OccursAt(term: string, text: string, i: int) {
    0 <= i && i + |term| <= |text| && text[i..i + |term|] == term
  }

  /** Whether `text` contains `term`, scanning offsets left to right. */
  function Contains(text: string, term: string): (b: bool)
    ensures b <==> exists i :: OccursAt(term, text, i)
    decreases |text|
  {
    if |term| > |text| then
      assert forall i :: !OccursAt(term, text, i);
      false
    else if term <= text then
      assert OccursAt(term, text, 0);
      true
    else
      var r := Contains(text[1..], term);
      OccursShift(term, text);
      r
  }

  /** An occurrence in the tail of `text` is an occurrence one further
      along in `text`, and back again for every offset past 0. */
  lemma OccursShift(term: string, text: string)
    requires |text| > 0
    ensures forall i :: OccursAt(term, text[1..], i) ==> OccursAt(term, text, i + 1)
    ensures forall i :: i > 0 && OccursAt(term, text, i) ==> OccursAt(term, text[1..], i - 1)
  {
    forall i | OccursAt(term, text[1..], i) ensures OccursAt(term, text, i + 1) {
      assert text[1..][i..i + |term|] == text[i + 1..i + 1 + |term|];
    }
    forall i | i > 0 && OccursAt(term, text, i) ensures OccursAt(term, text[1..], i - 1) {
      assert text[1..][i - 1..i - 1 + |term|] == text[i..i + |term|];
    }
  }

  /** The search filter on group names (an SQL LIKE '%term%'); the empty term matches every name. */
  function MatchesSearch(name: string, term: string): (b: bool)
    ensures b <==> exists i :: MatchesAt(name, term, i)
  {
    forall i ensures MatchesAt(name, term, i) <==> OccursAt(Lower(term), Lower(name), i) {
      if 0 <= i && i + |term| <= |name| {
        assert MatchesAt(name, term, i) <==> Lower(name)[i..i + |term|] == Lower(term) by {
          if MatchesAt(name, term, i) {
            assert forall j :: 0 <= j < |term| ==> Lower(name)[i..i + |term|][j] == Lower(term)[j];
          }
          if Lower(name)[i..i + |term|] == Lower(term) {
            forall j | 0 <= j < |term| ensures LowerChar(name[i + j]) == LowerChar(term[j]) {
              assert Lower(name)[i..i + |term|][j] == Lower(term)[j];
            }
          }
        }
      }
    }
    Contains(Lower(name), Lower(term))
  }

  /** Independent reading of the search: at offset `i` of the name every
      character of the term matches, ignoring ASCII case. */
  ghost predicate MatchesAt(name: string, term: string, i: int) {
    0 <= i && i + |term| <= |name|
    && forall j :: 0 <= j < |term| ==> LowerChar(name[i + j]) == LowerChar(term[j])
  }

  /** Lower-casing twice changes nothing more. */
  lemma LowerIdempotent(s: string)
    ensures Lower(Lower(s)) == Lower(s)
  {
  }

  /** The search ignores case on both sides. */
  lemma {:induction false} SearchIgnoresCase(name: string, term: string)
    ensures MatchesSearch(Lower(name), term) == MatchesSearch(name, term)
    ensures MatchesSearch(name, Lower(term)) == MatchesSearch(name, term)
  {
    LowerIdempotent(name);
    LowerIdempotent(term);
  }

  lemma EmptySearchMatchesAll(name: string)
    ensures MatchesSearch(name, "")
  {
    assert OccursAt(Lower(""), Lower(name), 0);
  }

  /** The names and terms of the filter test cases. */
  lemma SearchExamples()
    ensures MatchesSearch("Diet Rite", "Rite") && !MatchesSearch("Tab", "Rite")
    ensures MatchesSearch("Pepsi", "eps") && !MatchesSearch("RC Cola", "eps")
    ensures MatchesSearch("Pepsi", "EPS")
  {
    assert MatchesAt("Diet Rite", "Rite", 5);
    assert MatchesAt("Pepsi", "eps", 1);
    assert MatchesAt("Pepsi", "EPS", 1);
    forall i ensures !MatchesAt("RC Cola", "eps", i) {
      if 0 <= i && i + 3 <= 7 {
        assert LowerChar("RC Cola"[i + 0]) != LowerChar("eps"[0]);
      }
    }
  }

  // ---------------------------------------------------------------- exclusion lists

  /** An entry of an exclusion list as callers pass it: an integer, or a
      string that is not a number. */
  datatype ExcludeEntry = IdEntry(id: int) | TextEntry(text: string)

  /** The id an entry stands for, as the id-list parsing does it: the
      absolute value of an integer, 0 for a non-numeric string. */
  function EntryId(e: ExcludeEntry): (r: nat)
    ensures e.IdEntry? ==> r == e.id || r == -e.id
    ensures e.TextEntry? ==> r == 0
  {
    match e
    case IdEntry(n) => if n < 0 then -n else n
    case TextEntry(_) => 0
  }

  function ExcludedIds(xs: seq<ExcludeEntry>): (r: set<nat>)
    ensures |r| <= |xs|
    ensures forall i :: 0 <= i < |xs| ==> EntryId(xs[i]) in r
    ensures forall x :: x in r ==> exists i :: 0 <= i < |xs| && EntryId(xs[i]) == x
  {
    if xs == [] then {}
    else
      var rest := ExcludedIds(xs[1..]);
      ConsIds(xs, rest);
      {EntryId(xs[0])} + rest
  }

  /** The ids of a non-empty list are its head's id and the ids of its tail. */
  lemma ConsIds(xs: seq<ExcludeEntry>, rest: set<nat>)
    requires |xs| > 0 && |rest| <= |xs| - 1
    requires forall i :: 0 <= i < |xs| - 1 ==> EntryId(xs[1..][i]) in rest
    requires forall x :: x in rest ==> exists i :: 0 <= i < |xs| - 1 && EntryId(xs[1..][i]) == x
    ensures |{EntryId(xs[0])} + rest| <= |xs|
    ensures forall i :: 0 <= i < |xs| ==> EntryId(xs[i]) in {EntryId(xs[0])} + rest
    ensures forall x :: x in {EntryId(xs[0])} + rest ==> exists i :: 0 <= i < |xs| && EntryId(xs[i]) == x
  {
    var h := EntryId(xs[0]);
    if h in rest {
      assert {h} + rest == rest;
    } else {
      assert |{h} + rest| == |rest| + 1;
    }
    forall i | 1 <= i < |xs| ensures EntryId(xs[i]) in rest {
      assert xs[i] == xs[1..][i - 1];
    }
    forall x | x in rest ensures exists i :: 0 <= i < |xs| && EntryId(xs[i]) == x {
      var k :| 0 <= k < |xs| - 1 && EntryId(xs[1..][k]) == x;
      assert xs[k + 1] == xs[1..][k];
    }
  }

  // ---------------------------------------------------------------- listings of a user's groups

  datatype View = AdminOf | ModOf | BannedOf | RecentlyJoined | InvitedTo

  /** Whether the user's rows in group `g` put `g` in the listing. */
  predicate InView(t: Table, u: UserId, g: GroupId, v: View) {
    match v
    case AdminOf => IsAdmin(t, u, g)
    case ModOf => IsMod(t, u, g)
    case BannedOf => IsBanned(t, u, g)
    case RecentlyJoined => IsMember(t, u, g)
    case InvitedTo => HasInvite(t, u, g, SentOnly)
  }

  /** The groups of a listing: existing groups in the view whose name
      matches the search term and whose id is not excluded. The listing's
      total is the size of this set. */
  function UserGroups(t: Table, groups: map<GroupId, Group>, u: UserId, v: View, term: string, exclude: seq<ExcludeEntry>): (r: set<GroupId>)
    ensures r <= groups.Keys
    ensures forall g :: g in r <==>
      g in groups && InView(t, u, g, v) && MatchesSearch(groups[g].name, term) && g !in ExcludedIds(exclude)
  {
    set g | g in groups && InView(t, u, g, v) && MatchesSearch(groups[g].name, term) && g !in ExcludedIds(exclude)
  }

  /** BP_Groups_Member::get_is_admin_of. */
  function GetIsAdminOf(t: Table, groups: map<GroupId, Group>, u: UserId, term: string, exclude: seq<ExcludeEntry>): (r: set<GroupId>)
    ensures forall g :: g in r <==>
      g in groups && IsAdmin(t, u, g) && MatchesSearch(groups[g].name, term) && g !in ExcludedIds(exclude)
  {
    UserGroups(t, groups, u, AdminOf, term, exclude)
  }

  /** BP_Groups_Member::get_is_mod_of. */
  function GetIsModOf(t: Table, groups: map<GroupId, Group>, u: UserId, term: string, exclude: seq<ExcludeEntry>): (r: set<GroupId>)
    ensures forall g :: g in r <==>
      g in groups && IsMod(t, u, g) && MatchesSearch(groups[g].name, term) && g !in ExcludedIds(exclude)
  {
    UserGroups(t, groups, u, ModOf, term, exclude)
  }

  /** BP_Groups_Member::get_is_banned_of. */
  function GetIsBannedOf(t: Table, groups: map<GroupId, Group>, u: UserId, term: string, exclude: seq<ExcludeEntry>): (r: set<GroupId>)
    ensures forall g :: g in r <==>
      g in groups && IsBanned(t, u, g) && MatchesSearch(groups[g].name, term) && g !in ExcludedIds(exclude)
  {
    UserGroups(t, groups, u, BannedOf, term, exclude)
  }

  /** BP_Groups_Member::get_recently_joined: the groups the user is an active member of. */
  function GetRecentlyJoined(t: Table, groups: map<GroupId, Group>, u: UserId, term: string, exclude: seq<ExcludeEntry>): (r: set<GroupId>)
    ensures forall g :: g in r <==>
      g in groups && IsMember(t, u, g) && MatchesSearch(groups[g].name, term) && g !in ExcludedIds(exclude)
  {
    UserGroups(t, groups, u, RecentlyJoined, term, exclude)
  }

  /** BP_Groups_Member::get_invites and groups_get_invites_for_user: the
      groups that sent the user an invitation. Drafts are not listed. */
  function InvitesForUser(t: Table, groups: map<GroupId, Group>, u: UserId, exclude: seq<ExcludeEntry>): (r: set<GroupId>)
    ensures forall g :: g in r <==> g in groups && HasInvite(t, u, g, SentOnly) && g !in ExcludedIds(exclude)
  {
    EmptySearchMatchesAllNames(groups);
    UserGroups(t, groups, u, InvitedTo, "", exclude)
  }

  lemma EmptySearchMatchesAllNames(groups: map<GroupId, Group>)
    ensures forall g :: g in groups ==> MatchesSearch(groups[g].name, "")
  {
    forall g | g in groups ensures MatchesSearch(groups[g].name, "") {
      EmptySearchMatchesAll(groups[g].name);
    }
  }

  /** groups_get_invite_count_for_user: how many groups sent the user an invitation. */
  function InviteCount(t: Table, groups: map<GroupId, Group>, u: UserId): (n: nat)
    ensures n == |set g | g in groups && HasInvite(t, u, g, SentOnly)|
    ensures n <= |groups|
    ensures n == 0 <==> forall g :: g in groups ==> !HasInvite(t, u, g, SentOnly)
  {
    var r := InvitesForUser(t, groups, u, []);
    assert ExcludedIds([]) == {};
    assert r == set g | g in groups && HasInvite(t, u, g, SentOnly);
    assert r <= groups.Keys;
    SubsetCard(r, groups.Keys);
    if r == {} then |r|
    else
      var g :| g in r;
      |r|
  }

  lemma {:induction false} SubsetCard(a: set<GroupId>, b: set<GroupId>)
    requires a <= b
    ensures |a| <= |b|
  {
    if a != {} {
      var x :| x in a;
      SubsetCard(a - {x}, b - {x});
    }
  }

  /** groups_get_invites_for_group: the users `inviter` invited to group
      `g` whose invitation has been sent (the default) or, with `sent` false,
      is still a draft. */
  function InvitesForGroup(t: Table, inviter: UserId, g: GroupId, sent: bool := true): (r: set<UserId>)
    ensures forall u :: u in r <==>
      Pair(u, g) in t.invites && t.invites[Pair(u, g)].inviter == inviter
      && t.invites[Pair(u, g)].sent == sent
  {
    set p | p in t.invites && p.group == g && t.invites[p].inviter == inviter
      && t.invites[p].sent == sent :: p.user
  }

  // ---------------------------------------------------------------- properties of the filters

  /** The search term only narrows a listing: the filtered listing is the
      unfiltered one restricted to the groups whose name contains the term. */
  lemma {:induction false} SearchNarrows(t: Table, groups: map<GroupId, Group>, u: UserId, v: View, term: string, exclude: seq<ExcludeEntry>)
    ensures UserGroups(t, groups, u, v, term, exclude) ==
      set g | g in UserGroups(t, groups, u, v, "", exclude) && MatchesSearch(groups[g].name, term)
  {
    EmptySearchMatchesAllNames(groups);
  }

  /** The exclusion list is applied after the view and the search, so the
      total drops by exactly the number of listed groups it names. */
  lemma {:induction false} ExclusionTotal(t: Table, groups: map<GroupId, Group>, u: UserId, v: View, term: string, exclude: seq<ExcludeEntry>)
    ensures var all := UserGroups(t, groups, u, v, term, []);
      UserGroups(t, groups, u, v, term, exclude) == all - ExcludedIds(exclude)
      && |UserGroups(t, groups, u, v, term, exclude)| == |all| - |all * ExcludedIds(exclude)|
  {
    var all := UserGroups(t, groups, u, v, term, []);
    var e := ExcludedIds(exclude);
    assert ExcludedIds([]) == {};
    forall g ensures g in UserGroups(t, groups, u, v, term, exclude) <==> g in all - e {}
    assert UserGroups(t, groups, u, v, term, exclude) == all - e;
    DifferenceCard(all, e);
  }

  lemma DifferenceCard(a: set<GroupId>, e: set<GroupId>)
    ensures |a - e| == |a| - |a * e|
  {
    assert a == (a - e) + (a * e);
    assert (a - e) * (a * e) == {};
  }

  /** Non-numeric entries of an exclusion list exclude nothing, since no
      group has id 0: the listing is the one for the numeric entries alone. */
  lemma {:induction false} TextEntriesIgnored(t: Table, groups: map<GroupId, Group>, u: UserId, v: View, term: string, exclude: seq<ExcludeEntry>, text: string)
    requires 0 !in groups
    ensures UserGroups(t, groups, u, v, term, [TextEntry(text)] + exclude) == UserGroups(t, groups, u, v, term, exclude)
  {
    var xs := [TextEntry(text)] + exclude;
    assert ExcludedIds(xs) == ExcludedIds(exclude) + {0} by {
      forall n ensures n in ExcludedIds(xs) <==> n in ExcludedIds(exclude) + {0} {
        if n in ExcludedIds(xs) {
          var i :| 0 <= i < |xs| && EntryId(xs[i]) == n;
          if i > 0 {
            assert xs[i] == exclude[i - 1];
          }
        }
        if n in ExcludedIds(exclude) {
          var i :| 0 <= i < |exclude| && EntryId(exclude[i]) == n;
          assert xs[i + 1] == exclude[i];
        }
        if n == 0 {
          assert EntryId(xs[0]) == 0;
        }
      }
    }
  }

  // ---------------------------------------------------------------- listings after transitions

  /** A draft invitation is visible to the pair's any-invite check but not
      counted among the user's invitations. */
  lemma {:induction false} DraftNotCounted(t: Table, groups: map<GroupId, Group>, u: UserId, g: GroupId, inviter: UserId)
    requires u != 0 && g != 0 && inviter != 0
    requires SliceOf(t, Pair(u, g)) == NoRows
    ensures var t' := InviteUser(t, u, g, inviter, false).table;
      HasInvite(t', u, g, AnyInvite) && !HasInvite(t', u, g, SentOnly)
      && InviteCount(t', groups, u) == InviteCount(t, groups, u)
  {
    var t' := InviteUser(t, u, g, inviter, false).table;
    forall h ensures h in InvitesForUser(t', groups, u, []) <==> h in InvitesForUser(t, groups, u, []) {
      if h != g {
        assert SliceOf(t', Pair(u, h)) == SliceOf(t, Pair(u, h));
      }
    }
    assert InvitesForUser(t', groups, u, []) == InvitesForUser(t, groups, u, []);
  }

  /** Sending a group's drafts adds that group to the invitee's invitations
      (when no request was pending, which would confirm the user instead). */
  lemma {:induction false} SendingCountsDraft(t: Table, groups: map<GroupId, Group>, u: UserId, g: GroupId)
    requires g in groups
    requires HasInvite(t, u, g, DraftOnly) && !HasRequest(t, u, g)
    ensures var t' := SendInvites(t, g, None);
      HasInvite(t', u, g, SentOnly)
      && InvitesForUser(t', groups, u, []) == InvitesForUser(t, groups, u, []) + {g}
      && InviteCount(t', groups, u) == InviteCount(t, groups, u) + 1
  {
    var d := DraftsOf(t, g, None);
    var t' := SendInvites(t, g, None);
    assert t' == SendDrafts(t, d);
    assert Pair(u, g) in d;
    var before := InvitesForUser(t, groups, u, []);
    forall h ensures h in InvitesForUser(t', groups, u, []) <==> h in before + {g} {
      if h != g {
        assert Pair(u, h) !in d;
        assert SliceOf(t', Pair(u, h)) == SliceOf(t, Pair(u, h));
      }
    }
    assert InvitesForUser(t', groups, u, []) == before + {g};
    assert g !in before;
  }

  /** After the inviter's drafts for a group are sent, none of that
      inviter's invitations to the group is a draft. */
  lemma {:induction false} NoUnsentAfterSending(t: Table, g: GroupId, inviter: UserId)
    ensures InvitesForGroup(SendInvites(t, g, Some(inviter)), inviter, g, false) == {}
  {
    var t' := SendInvites(t, g, Some(inviter));
    forall u ensures u in InvitesForGroup(t', inviter, g, false) ==> Pair(u, g) in DraftsOf(t', g, Some(inviter)) {
    }
  }

  /** A freshly sent invitation is listed among the group's sent invitations
      and not among its drafts. */
  lemma SentInviteListedForGroup(t: Table, u: UserId, g: GroupId, inviter: UserId)
    requires u != 0 && g != 0 && inviter != 0
    requires SliceOf(t, Pair(u, g)) == NoRows
    ensures var t' := InviteUser(t, u, g, inviter, true).table;
      u in InvitesForGroup(t', inviter, g) && u !in InvitesForGroup(t', inviter, g, false)
  {
  }

  /** Promoting to admin, banning and joining show in the matching listings. */
  lemma {:induction false} TransitionsShowInListings(t: Table, groups: map<GroupId, Group>, u: UserId, g: GroupId)
    requires g in groups
    ensures Promote(t, u, g, ToAdmin).outcome == Ok ==> g in GetIsAdminOf(Promote(t, u, g, ToAdmin).table, groups, u, "", [])
    ensures Ban(t, u, g).outcome == Ok ==>
      g in GetIsBannedOf(Ban(t, u, g).table, groups, u, "", [])
      && g !in GetRecentlyJoined(Ban(t, u, g).table, groups, u, "", [])
    ensures Join(t, u, g).outcome == Ok ==> g in GetRecentlyJoined(Join(t, u, g).table, groups, u, "", [])
  {
    EmptySearchMatchesAll(groups[g].name);
    assert ExcludedIds([]) == {};
  }
}
