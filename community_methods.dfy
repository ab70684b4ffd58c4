/**
 * The Community document methods `addMember`, `removeMember` and `updateMemberRole`, each run on
 * the stored community `cid`: the member list is changed and the document saved. `saved` is
 * false when `save()` rejects the document (an unknown role name), and then nothing is stored.
 */
module CommunityMethods {
  import opened Common
  import opened CommunitySchema
  import opened Database

  /**
   * `addMember(userId, role = "member")`: a user who already has an entry changes nothing;
   * otherwise the entry is appended when the role name is valid, and the save fails (nothing
   * stored) when it is not.
   */
  method AddMember(db: Store, cid: Id, userId: Id, role: Option<string>) returns (saved: bool)
    requires db.Valid() && cid in db.communities
    modifies db`communities
    ensures db.Valid()
    ensures !saved ==> db.communities == old(db.communities)
    ensures var c := old(db.communities)[cid];
      var name := if role.Some? then role.value else "member";
      if HasMember(c.members, userId) then
        saved && db.communities == old(db.communities)
      else if RoleNamed(name).None? then
        !saved
      else
        && saved
        && db.communities == old(db.communities)[cid := c.(members := MemberAdded(c.members, userId, RoleNamed(name).value))]
        && MemberCount(db.communities[cid]) == MemberCount(c) + 1
  {
    var c := db.communities[cid];
    if HasMember(c.members, userId) {
      return true;
    }
    var name := if role.Some? then role.value else "member";
    var r := RoleNamed(name);
    if r.None? {
      return false;
    }
    var ms := MemberAdded(c.members, userId, r.value);
    MembersReplaced(db.communities, db.events, cid, ms);
    db.communities := db.communities[cid := c.(members := ms)];
    saved := true;
  }

  /**
   * `removeMember(userId)`: every entry of the user is filtered out and the document saved; the
   * user is no longer a member and `memberCount` drops by one exactly when the user was one.
   */
  method RemoveMember(db: Store, cid: Id, userId: Id)
    requires db.Valid() && cid in db.communities
    modifies db`communities
    ensures db.Valid()
    ensures var c := old(db.communities)[cid];
      && db.communities == old(db.communities)[cid := c.(members := MemberRemoved(c.members, userId))]
      && !HasMember(db.communities[cid].members, userId)
      && MemberCount(db.communities[cid]) == if HasMember(c.members, userId) then MemberCount(c) - 1 else MemberCount(c)
  {
    var c := db.communities[cid];
    var ms := MemberRemoved(c.members, userId);
    var _ := RemoveMemberSpec(c.members, userId);
    RemoveMemberCount(c.members, userId);
    MembersReplaced(db.communities, db.events, cid, ms);
    db.communities := db.communities[cid := c.(members := ms)];
  }

  /**
   * `updateMemberRole(userId, newRole)`: when the user has no entry nothing happens; otherwise the
   * first entry gets the new role when it names one, and the save fails (nothing stored) when it
   * does not. The set of members never changes.
   */
  method UpdateMemberRole(db: Store, cid: Id, userId: Id, newRole: string) returns (saved: bool)
    requires db.Valid() && cid in db.communities
    modifies db`communities
    ensures db.Valid()
    ensures !saved ==> db.communities == old(db.communities)
    ensures var c := old(db.communities)[cid];
      if !HasMember(c.members, userId) then
        saved && db.communities == old(db.communities)
      else if RoleNamed(newRole).None? then
        !saved
      else
        && saved
        && db.communities == old(db.communities)[cid := c.(members := RoleUpdated(c.members, userId, RoleNamed(newRole).value))]
        && MemberCount(db.communities[cid]) == MemberCount(c)
  {
    var c := db.communities[cid];
    if !HasMember(c.members, userId) {
      return true;
    }
    var r := RoleNamed(newRole);
    if r.None? {
      return false;
    }
    var ms := RoleUpdated(c.members, userId, r.value);
    RoleUpdateKeepsUsers(c.members, userId, r.value);
    MembersReplaced(db.communities, db.events, cid, ms);
    db.communities := db.communities[cid := c.(members := ms)];
    saved := true;
  }
}
