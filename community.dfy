/**
 * The Community schema: the stored record, its validation rules, the ordered `members` list with
 * the list operations behind `addMember`, `removeMember` and `updateMemberRole`, the `memberCount`
 * virtual, and the `findUserCommunities` / `findAdminCommunities` queries.
 */
module CommunitySchema {
  import opened Common
  import opened Text
  import Seqs

  /** The `role` enum: "admin", "moderator", "member". */
  datatype Role = Admin | Moderator | Member

  /** The enum validator: the role a string names, if it names one. */
  function RoleNamed(name: string): (r: Option<Role>)
    ensures r == Some(Admin) <==> name == "admin"
    ensures r == Some(Moderator) <==> name == "moderator"
    ensures r == Some(Member) <==> name == "member"
  {
    if name == "admin" then Some(Admin)
    else if name == "moderator" then Some(Moderator)
    else if name == "member" then Some(Member)
    else None
  }

  /** One entry of `members` (its `joinedAt` timestamp is not modelled). */
  datatype MemberEntry = MemberEntry(user: Id, role: Role)

  /** A stored community, after the schema's `trim` and `lowercase` setters have run. */
  datatype Community = Community(
    name: string,
    uniqueId: string,
    description: string,
    bannerUrl: Option<string>,
    logoUrl: Option<string>,
    createdBy: Id,
    members: seq<MemberEntry>,
    events: seq<Id>,
    isActive: bool)

  /** The schema validators: `name` is required and `uniqueId` matches `/^[a-z0-9-]+$/`. */
  predicate ValidCommunity(c: Community) {
    c.name != "" && MatchesIdPattern(c.uniqueId)
  }

  /**
   * `new Community({...})` as the create handler calls it: the setters run, the creator is the one
   * member, as "admin", no event is listed yet and `isActive` defaults to true.
   */
  function NewCommunity(name: string, uniqueId: string, description: string, bannerUrl: Option<string>,
                        logoUrl: Option<string>, creator: Id): Community {
    Community(Trim(name), NormalizeId(uniqueId), Trim(description), TrimOption(bannerUrl), TrimOption(logoUrl),
              creator, [MemberEntry(creator, Admin)], [], true)
  }

  /**
   * A new community passes validation exactly when its name has a non-space character and its
   * trimmed, lowercased `uniqueId` matches the pattern; its creator is then its only member and
   * an admin of it.
   */
  lemma NewCommunityValidation(name: string, uniqueId: string, description: string, bannerUrl: Option<string>,
                               logoUrl: Option<string>, creator: Id)
    ensures var c := NewCommunity(name, uniqueId, description, bannerUrl, logoUrl, creator);
      && (ValidCommunity(c) <==> HasText(name) && MatchesIdPattern(NormalizeId(uniqueId)))
      && MemberCount(c) == 1
      && HasMember(c.members, creator)
      && NoDuplicateMembers(c.members)
  {
  }

  /** The `memberCount` virtual. */
  function MemberCount(c: Community): nat {
    |c.members|
  }

  /** `members.some(m => m.user.equals(u))`. */
  predicate HasMember(ms: seq<MemberEntry>, u: Id)
    ensures HasMember(ms, u) <==> exists i :: 0 <= i < |ms| && ms[i].user == u
  {
    ms != [] && (ms[0].user == u || HasMember(ms[1..], u))
  }

  /** No user has two entries. */
  predicate NoDuplicateMembers(ms: seq<MemberEntry>) {
    forall i, j :: 0 <= i < j < |ms| ==> ms[i].user != ms[j].user
  }

  /** The body of `addMember`: push `{user, role}` unless the user already has an entry. */
  function MemberAdded(ms: seq<MemberEntry>, u: Id, role: Role): (r: seq<MemberEntry>)
    ensures HasMember(r, u)
    ensures |r| == if HasMember(ms, u) then |ms| else |ms| + 1
    ensures forall i :: 0 <= i < |ms| ==> r[i] == ms[i]
    ensures !HasMember(ms, u) ==> r[|ms|] == MemberEntry(u, role)
    ensures NoDuplicateMembers(ms) ==> NoDuplicateMembers(r)
  {
    if HasMember(ms, u) then ms
    else
      var r := ms + [MemberEntry(u, role)];
      assert r[|ms|].user == u;
      r
  }

  /** The test `removeMember` filters with. */
  function OtherThan(u: Id): MemberEntry -> bool {
    (m: MemberEntry) => m.user != u
  }

  /** The body of `removeMember`: `members.filter(m => !m.user.equals(u))`. */
  function MemberRemoved(ms: seq<MemberEntry>, u: Id): seq<MemberEntry> {
    Seqs.Filter(ms, OtherThan(u))
  }

  /** The position `members.find(m => m.user.equals(u))` returns: the first entry of `u`. */
  function FirstIndexOf(ms: seq<MemberEntry>, u: Id): (i: nat)
    requires HasMember(ms, u)
    ensures i < |ms| && ms[i].user == u
    ensures forall j :: 0 <= j < i ==> ms[j].user != u
  {
    if ms[0].user == u then 0 else 1 + FirstIndexOf(ms[1..], u)
  }

  /** The body of `updateMemberRole`: the first entry of `u`, if any, gets the new role. */
  function RoleUpdated(ms: seq<MemberEntry>, u: Id, role: Role): (r: seq<MemberEntry>)
    ensures !HasMember(ms, u) ==> r == ms
    ensures HasMember(ms, u) ==> r == ms[FirstIndexOf(ms, u) := MemberEntry(u, role)]
  {
    if ms == [] then []
    else if ms[0].user == u then [MemberEntry(u, role)] + ms[1..]
    else [ms[0]] + RoleUpdated(ms[1..], u, role)
  }

  /** Adding a user who already has an entry changes nothing, so adding twice is adding once. */
  lemma AddMemberIdempotent(ms: seq<MemberEntry>, u: Id, role: Role, again: Role)
    ensures MemberAdded(MemberAdded(ms, u, role), u, again) == MemberAdded(ms, u, role)
  {
  }

  /**
   * After `removeMember(u)` no entry belongs to `u`; every other entry is kept, in its original
   * order, given by the strictly increasing positions `f`; and no duplicate is introduced.
   */
  lemma RemoveMemberSpec(ms: seq<MemberEntry>, u: Id) returns (f: seq<int>)
    ensures !HasMember(MemberRemoved(ms, u), u)
    ensures |f| == |MemberRemoved(ms, u)|
    ensures forall k :: 0 <= k < |f| ==> 0 <= f[k] < |ms| && ms[f[k]] == MemberRemoved(ms, u)[k]
    ensures forall k, l :: 0 <= k < l < |f| ==> f[k] < f[l]
    ensures forall i :: 0 <= i < |ms| && ms[i].user != u ==> i in f
    ensures NoDuplicateMembers(ms) ==> NoDuplicateMembers(MemberRemoved(ms, u))
  {
    var r := MemberRemoved(ms, u);
    f := Seqs.FilterKeepsOrder(ms, OtherThan(u));
    forall i | 0 <= i < |r| ensures r[i].user != u {
      assert OtherThan(u)(r[i]);
    }
    forall i | 0 <= i < |ms| && ms[i].user != u ensures i in f {
      assert OtherThan(u)(ms[i]);
    }
  }

  /** Removing a user from a list without duplicates shrinks `memberCount` by one exactly when the user was a member. */
  lemma {:induction false} RemoveMemberCount(ms: seq<MemberEntry>, u: Id)
    requires NoDuplicateMembers(ms)
    ensures |MemberRemoved(ms, u)| == if HasMember(ms, u) then |ms| - 1 else |ms|
  {
    if ms != [] {
      assert NoDuplicateMembers(ms[1..]);
      assert MemberRemoved(ms, u) == if ms[0].user != u then [ms[0]] + MemberRemoved(ms[1..], u) else MemberRemoved(ms[1..], u);
      if ms[0].user == u {
        assert !HasMember(ms[1..], u);
        forall i | 0 <= i < |ms[1..]| ensures OtherThan(u)(ms[1..][i]) {
        }
        Seqs.FilterAllKept(ms[1..], OtherThan(u));
      } else {
        RemoveMemberCount(ms[1..], u);
      }
    }
  }

  /** Changing a role keeps every entry's user, so it keeps `memberCount`, membership and the absence of duplicates. */
  lemma RoleUpdateKeepsUsers(ms: seq<MemberEntry>, u: Id, role: Role)
    ensures |RoleUpdated(ms, u, role)| == |ms|
    ensures forall i :: 0 <= i < |ms| ==> RoleUpdated(ms, u, role)[i].user == ms[i].user
    ensures forall v :: HasMember(RoleUpdated(ms, u, role), v) <==> HasMember(ms, v)
    ensures NoDuplicateMembers(ms) ==> NoDuplicateMembers(RoleUpdated(ms, u, role))
  {
    var r := RoleUpdated(ms, u, role);
    forall v ensures HasMember(r, v) <==> HasMember(ms, v) {
      if HasMember(r, v) {
        var i :| 0 <= i < |r| && r[i].user == v;
        assert ms[i].user == v;
      }
      if HasMember(ms, v) {
        var i :| 0 <= i < |ms| && ms[i].user == v;
        assert r[i].user == v;
      }
    }
  }

  /** The test `$pull: { events: x }` filters with. */
  function IdOtherThan(x: Id): Id -> bool {
    (y: Id) => y != x
  }

  /** `$pull: { events: x }` on a community's event list. */
  function EventPulled(ids: seq<Id>, x: Id): seq<Id> {
    Seqs.Filter(ids, IdOtherThan(x))
  }

  /**
   * `$pull` removes every occurrence of `x` and keeps every other id, in its original order, given
   * by the strictly increasing positions `f`; a list without `x` is left as it was.
   */
  lemma EventPulledSpec(ids: seq<Id>, x: Id) returns (f: seq<int>)
    ensures forall i :: 0 <= i < |EventPulled(ids, x)| ==> EventPulled(ids, x)[i] != x
    ensures |f| == |EventPulled(ids, x)|
    ensures forall k :: 0 <= k < |f| ==> 0 <= f[k] < |ids| && ids[f[k]] == EventPulled(ids, x)[k]
    ensures forall k, l :: 0 <= k < l < |f| ==> f[k] < f[l]
    ensures forall i :: 0 <= i < |ids| && ids[i] != x ==> i in f
    ensures x !in ids ==> EventPulled(ids, x) == ids
  {
    var r := EventPulled(ids, x);
    f := Seqs.FilterKeepsOrder(ids, IdOtherThan(x));
    forall i | 0 <= i < |r| ensures r[i] != x {
      assert IdOtherThan(x)(r[i]);
    }
    forall i | 0 <= i < |ids| && ids[i] != x ensures i in f {
      assert IdOtherThan(x)(ids[i]);
    }
    if x !in ids {
      forall i | 0 <= i < |ids| ensures IdOtherThan(x)(ids[i]) {
      }
      Seqs.FilterAllKept(ids, IdOtherThan(x));
    }
  }

  /** As a set of ids, `$pull` of `x` is exactly "the ids that were there, other than `x`". */
  lemma EventPulledElements(ids: seq<Id>, x: Id)
    ensures forall y :: y in EventPulled(ids, x) <==> y in ids && y != x
  {
    var f := EventPulledSpec(ids, x);
    var r := EventPulled(ids, x);
    forall y ensures y in r <==> y in ids && y != x {
      if y in r {
        var k :| 0 <= k < |r| && r[k] == y;
        assert ids[f[k]] == y;
      }
      if y in ids && y != x {
        var i :| 0 <= i < |ids| && ids[i] == y;
        assert i in f;
        var k :| 0 <= k < |f| && f[k] == i;
        assert r[k] == y;
      }
    }
  }

  /** `Community.findUserCommunities(u)`: the communities with an entry for `u`. */
  function UserCommunities(cs: map<Id, Community>, u: Id): (r: set<Id>)
    ensures forall id :: id in r <==>
      id in cs && exists i :: 0 <= i < |cs[id].members| && cs[id].members[i].user == u
  {
    set id | id in cs && HasMember(cs[id].members, u)
  }

  /** `Community.findAdminCommunities(u)`: the communities with one entry that is `{user: u, role: "admin"}`. */
  function AdminCommunities(cs: map<Id, Community>, u: Id): (r: set<Id>)
    ensures forall id :: id in r <==>
      id in cs && exists i :: 0 <= i < |cs[id].members| && cs[id].members[i] == MemberEntry(u, Admin)
    ensures r <= UserCommunities(cs, u)
  {
    set id | id in cs && MemberEntry(u, Admin) in cs[id].members
  }
}
