/**
 * The document store the controllers read and write: one collection per model, each a map from
 * document id to stored record, and the invariants every handler keeps.
 */
module Database {
  import opened Common
  import opened UserModel
  import opened CommunitySchema
  import opened EventSchema
  import opened EventUpdateSchema

  /** Every community passes its validators, has no duplicate member, and `uniqueId`s are distinct (the unique index). */
  predicate CommunitiesValid(cs: map<Id, Community>) {
    && (forall id :: id in cs ==> ValidCommunity(cs[id]) && NoDuplicateMembers(cs[id].members))
    && (forall a, b :: a in cs && b in cs && a != b ==> cs[a].uniqueId != cs[b].uniqueId)
  }

  /** Every event passes its validators and `uniqueId`s are distinct (the unique index). */
  predicate EventsValid(es: map<Id, Event>) {
    && (forall id :: id in es ==> ValidEvent(es[id]))
    && (forall a, b :: a in es && b in es && a != b ==> es[a].uniqueId != es[b].uniqueId)
  }

  /**
   * The back-references agree: each event's community exists and lists the event, and every id
   * a community lists is an event of that community.
   */
  predicate EventsLinked(cs: map<Id, Community>, es: map<Id, Event>) {
    && (forall e :: e in es ==> es[e].community in cs && e in cs[es[e].community].events)
    && (forall c, i :: c in cs && 0 <= i < |cs[c].events| ==>
          cs[c].events[i] in es && es[cs[c].events[i]].community == c)
  }

  /** Each event was created by the creator of its community. */
  predicate CreatorsMatch(cs: map<Id, Community>, es: map<Id, Event>) {
    forall e :: e in es && es[e].community in cs ==> es[e].createdBy == cs[es[e].community].createdBy
  }

  /** The community/event invariants that the storage layer and the handlers' lookups keep. */
  predicate Linked(cs: map<Id, Community>, es: map<Id, Event>) {
    CommunitiesValid(cs) && EventsValid(es) && EventsLinked(cs, es)
  }

  /** All community/event invariants, including the ownership rule of the event handlers. */
  predicate Consistent(cs: map<Id, Community>, es: map<Id, Event>) {
    Linked(cs, es) && CreatorsMatch(cs, es)
  }

  /** Every stored announcement passed the EventUpdate validators. */
  predicate UpdatesValid(us: map<Id, EventUpdate>) {
    forall id :: id in us ==> ValidUpdate(us[id])
  }

  /**
   * Storing a valid new event of community `cid` with a `uniqueId` no event has, and appending its
   * id to the community's `events`, keeps the links; the ownership rule survives exactly when
   * the event's creator is the community's creator.
   */
  lemma EventAdded(cs: map<Id, Community>, es: map<Id, Event>, cid: Id, newId: Id, ev: Event)
    requires Linked(cs, es)
    requires cid in cs && newId !in es
    requires ValidEvent(ev) && ev.community == cid
    requires forall e :: e in es ==> es[e].uniqueId != ev.uniqueId
    ensures Linked(cs[cid := cs[cid].(events := cs[cid].events + [newId])], es[newId := ev])
    ensures CreatorsMatch(cs, es) ==>
      (CreatorsMatch(cs[cid := cs[cid].(events := cs[cid].events + [newId])], es[newId := ev]) <==>
       ev.createdBy == cs[cid].createdBy)
  {
    var c := cs[cid];
    var cs' := cs[cid := c.(events := c.events + [newId])];
    var es' := es[newId := ev];
    forall e | e in es' ensures es'[e].community in cs' && e in cs'[es'[e].community].events {
      if e != newId {
        assert e in cs[es[e].community].events;
      } else {
        assert cs'[cid].events[|c.events|] == newId;
      }
    }
    forall d, i | d in cs' && 0 <= i < |cs'[d].events|
      ensures cs'[d].events[i] in es' && es'[cs'[d].events[i]].community == d
    {
      if d != cid || i < |c.events| {
        assert cs'[d].events[i] == cs[d].events[i];
      }
    }
    if CreatorsMatch(cs', es') {
      assert newId in es' && es'[newId].community in cs';
    }
  }

  /**
   * Deleting event `x` and pulling its id from its community's `events` keeps the invariants, and
   * afterwards no community lists `x`.
   */
  lemma EventRemoved(cs: map<Id, Community>, es: map<Id, Event>, x: Id)
    requires Consistent(cs, es)
    requires x in es
    ensures var c := cs[es[x].community];
      var cs' := cs[es[x].community := c.(events := EventPulled(c.events, x))];
      && Consistent(cs', es - {x})
      && forall d :: d in cs' ==> x !in cs'[d].events
  {
    var cid := es[x].community;
    var c := cs[cid];
    var cs' := cs[cid := c.(events := EventPulled(c.events, x))];
    var es' := es - {x};
    EventPulledElements(c.events, x);
    forall e | e in es' ensures es'[e].community in cs' && e in cs'[es'[e].community].events {
      assert e in cs[es[e].community].events;
    }
    forall d, i | d in cs' && 0 <= i < |cs'[d].events|
      ensures cs'[d].events[i] in es' && es'[cs'[d].events[i]].community == d
    {
      var y := cs'[d].events[i];
      if d == cid {
        assert y in EventPulled(c.events, x);
        var j :| 0 <= j < |c.events| && c.events[j] == y;
      } else {
        assert y == cs[d].events[i];
      }
    }
    forall d | d in cs' && d != cid ensures x !in cs'[d].events {
      forall j | 0 <= j < |cs[d].events| ensures cs[d].events[j] != x {
      }
    }
  }

  /**
   * Replacing the member list of community `cid` with one without duplicates keeps the
   * invariants: members play no part in the links.
   */
  lemma MembersReplaced(cs: map<Id, Community>, es: map<Id, Event>, cid: Id, ms: seq<MemberEntry>)
    requires Consistent(cs, es)
    requires cid in cs && NoDuplicateMembers(ms)
    ensures Consistent(cs[cid := cs[cid].(members := ms)], es)
  {
    var cs' := cs[cid := cs[cid].(members := ms)];
    forall d, i | d in cs' && 0 <= i < |cs'[d].events|
      ensures cs'[d].events[i] in es && es[cs'[d].events[i]].community == d
    {
      assert cs'[d].events[i] == cs[d].events[i];
    }
  }

  /** Storing a valid community under a fresh id with a `uniqueId` no community has, and no events, keeps the invariants. */
  lemma CommunityAdded(cs: map<Id, Community>, es: map<Id, Event>, newId: Id, c: Community)
    requires Consistent(cs, es)
    requires newId !in cs
    requires ValidCommunity(c) && NoDuplicateMembers(c.members) && c.events == []
    requires forall d :: d in cs ==> cs[d].uniqueId != c.uniqueId
    ensures Consistent(cs[newId := c], es)
  {
    var cs' := cs[newId := c];
    forall d, i | d in cs' && 0 <= i < |cs'[d].events|
      ensures cs'[d].events[i] in es && es[cs'[d].events[i]].community == d
    {
      assert cs'[d].events[i] == cs[d].events[i];
    }
  }

  /** `Event.findOne({ uniqueId })` finds a document: an event already has this `uniqueId`. */
  predicate UniqueIdTaken(es: map<Id, Event>, uid: string) {
    exists e | e in es :: es[e].uniqueId == uid
  }

  /**
   * `event.save()` followed by `community.events.push(event._id)` and `community.save()`: the
   * event is stored and its id appended to its community's `events`. The links are kept; the
   * ownership rule survives exactly when the event's creator is the community's.
   */
  method StoreEvent(db: Store, newId: Id, ev: Event)
    requires db.ValidExceptCreators()
    requires ev.community in db.communities && newId !in db.events
    requires ValidEvent(ev) && !UniqueIdTaken(db.events, ev.uniqueId)
    modifies db`communities, db`events
    ensures db.ValidExceptCreators()
    ensures old(db.Valid()) ==> (db.Valid() <==> ev.createdBy == old(db.communities)[ev.community].createdBy)
    ensures db.events == old(db.events)[newId := ev]
    ensures db.communities == old(db.communities)[ev.community := old(db.communities)[ev.community].(
              events := old(db.communities)[ev.community].events + [newId])]
  {
    var cid := ev.community;
    EventAdded(db.communities, db.events, cid, newId, ev);
    var community := db.communities[cid];
    community := community.(events := community.events + [newId]);
    db.events, db.communities := db.events[newId := ev], db.communities[cid := community];
  }

  class Store {
    var users: map<Id, User>
    var communities: map<Id, Community>
    var events: map<Id, Event>
    var updates: map<Id, EventUpdate>

    constructor ()
      ensures users == map[] && communities == map[] && events == map[] && updates == map[]
      ensures Valid()
    {
      users, communities, events, updates := map[], map[], map[], map[];
    }

    /** Everything but the ownership rule between events and communities. */
    ghost predicate ValidExceptCreators()
      reads this
    {
      EmailsUnique(users) && Linked(communities, events) && UpdatesValid(updates)
    }

    ghost predicate Valid()
      reads this
    {
      ValidExceptCreators() && CreatorsMatch(communities, events)
    }
  }
}
