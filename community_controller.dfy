/**
 * The community handlers: `createCommunity` and `getAllCommunities`. `caller` is the authenticated
 * user; `banner` and `logo` are the URLs the Cloudinary uploads returned, if any.
 */
module CommunityController {
  import opened Common
  import opened Text
  import opened CommunitySchema
  import opened Database

  /** `Community.findOne({ uniqueId })` finds a document; the query runs the `trim` and `lowercase` setters. */
  predicate UniqueIdInUse(cs: map<Id, Community>, uniqueId: string) {
    exists d | d in cs :: cs[d].uniqueId == NormalizeId(uniqueId)
  }

  /**
   * `createCommunity`: 400 when a community already has the `uniqueId`, 500 when the new document
   * fails validation; neither changes anything. Otherwise exactly one community is added, with
   * the caller as its creator and its only member, an admin.
   */
  method CreateCommunity(db: Store, caller: Id, name: string, uniqueId: string, description: string,
                         banner: Option<string>, logo: Option<string>, newId: Id)
    returns (status: int, created: Option<Community>)
    requires db.Valid()
    requires newId !in db.communities
    modifies db`communities
    ensures db.Valid()
    ensures status != StatusCreated ==> created == None && db.communities == old(db.communities)
    ensures UniqueIdInUse(old(db.communities), uniqueId) ==> status == StatusBadRequest
    ensures !UniqueIdInUse(old(db.communities), uniqueId) ==>
      if HasText(name) && MatchesIdPattern(NormalizeId(uniqueId)) then
        && status == StatusCreated
        && created == Some(NewCommunity(name, uniqueId, description, banner, logo, caller))
        && db.communities == old(db.communities)[newId := NewCommunity(name, uniqueId, description, banner, logo, caller)]
      else
        status == StatusServerError
    ensures status == StatusCreated ==>
      && AdminCommunities(db.communities, caller) == AdminCommunities(old(db.communities), caller) + {newId}
      && MemberCount(db.communities[newId]) == 1
  {
    if UniqueIdInUse(db.communities, uniqueId) {
      return StatusBadRequest, None;
    }
    var community := NewCommunity(name, uniqueId, description, banner, logo, caller);
    NewCommunityValidation(name, uniqueId, description, banner, logo, caller);
    if !ValidCommunity(community) {
      return StatusServerError, None;
    }
    AdminOfNew(db.communities, newId, community, caller);
    StoreCommunity(db, newId, community);
    status, created := StatusCreated, Some(community);
  }

  /** `newCommunity.save()` once the unique index and the validators have accepted the document. */
  method StoreCommunity(db: Store, newId: Id, c: Community)
    requires db.Valid()
    requires newId !in db.communities
    requires ValidCommunity(c) && NoDuplicateMembers(c.members) && c.events == []
    requires forall d :: d in db.communities ==> db.communities[d].uniqueId != c.uniqueId
    modifies db`communities
    ensures db.Valid()
    ensures db.communities == old(db.communities)[newId := c]
  {
    CommunityAdded(db.communities, db.events, newId, c);
    db.communities := db.communities[newId := c];
  }

  /** Adding a community whose members are just `u` as admin adds exactly its id to `u`'s admin communities. */
  lemma AdminOfNew(cs: map<Id, Community>, newId: Id, c: Community, u: Id)
    requires newId !in cs && c.members == [MemberEntry(u, Admin)]
    ensures AdminCommunities(cs[newId := c], u) == AdminCommunities(cs, u) + {newId}
  {
    assert c.members[0] == MemberEntry(u, Admin);
  }

  /** `getAllCommunities`: every stored community, and their number as `count`. */
  method GetAllCommunities(db: Store) returns (status: int, count: nat, communities: map<Id, Community>)
    ensures status == StatusOk
    ensures communities == db.communities
    ensures count == |db.communities.Keys|
  {
    communities := db.communities;
    count := |communities.Keys|;
    status := StatusOk;
  }
}
