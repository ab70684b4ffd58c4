/**
 * The `Event.createEvent(eventData, userId)` static. It checks that `userId` created the community
 * named in `eventData`, but then stores the document built from `eventData` as it is, so the
 * stored `createdBy` is whatever `eventData.createdBy` says. `CreateEventAsWritten` is that code;
 * `CreatorMismatch` shows an event it stores under someone other than the community's creator;
 * `CreateEventChecked` stores `userId` as the creator and keeps every invariant of the store.
 */
module EventStatics {
  import opened Common
  import opened EventSchema
  import opened Database

  /**
   * `Event.createEvent` as written: it rejects (`ok` false, nothing stored) a missing community,
   * a `userId` that is not the community's creator, a document that fails validation (one without
   * `createdBy` among them) and a taken `uniqueId`; otherwise it stores the document built from
   * `eventData`, with its own `createdBy` and `isActive`, and appends its id to the community's
   * `events`.
   */
  method CreateEventAsWritten(db: Store, data: EventFields, userId: Id, newId: Id)
    returns (ok: bool, created: Option<Event>)
    requires db.ValidExceptCreators()
    requires newId !in db.events
    modifies db`communities, db`events
    ensures db.ValidExceptCreators()
    ensures !ok ==> created == None && db.communities == old(db.communities) && db.events == old(db.events)
    ensures ok <==>
      && data.community in old(db.communities)
      && old(db.communities)[data.community].createdBy == userId
      && ValidFields(data)
      && !UniqueIdTaken(old(db.events), NewEvent(data).uniqueId)
    ensures ok ==> created == Some(NewEvent(data)) && db.events == old(db.events)[newId := NewEvent(data)]
    ensures ok ==> db.communities == old(db.communities)[data.community := old(db.communities)[data.community].(
              events := old(db.communities)[data.community].events + [newId])]
    ensures ok && old(db.Valid()) ==> (db.Valid() <==> data.createdBy == Some(userId))
  {
    if data.community !in db.communities || db.communities[data.community].createdBy != userId {
      return false, None;
    }
    if !ValidFields(data) {
      return false, None;
    }
    var ev := NewEvent(data);
    if UniqueIdTaken(db.events, ev.uniqueId) {
      return false, None;
    }
    StoreEvent(db, newId, ev);
    ok, created := true, Some(ev);
  }

  /**
   * From any store that keeps every invariant, the creator of a community calls the static with
   * valid event data for that community that names someone else as `createdBy`: the call
   * succeeds, and the store no longer keeps the ownership rule.
   */
  method CreatorMismatch(db: Store, data: EventFields, newId: Id) returns (ok: bool)
    requires db.Valid()
    requires newId !in db.events
    requires data.community in db.communities
    requires data.createdBy.Some? && data.createdBy.value != db.communities[data.community].createdBy
    requires ValidFields(data) && !UniqueIdTaken(db.events, NewEvent(data).uniqueId)
    modifies db`communities, db`events
    ensures ok && !db.Valid()
  {
    var created;
    ok, created := CreateEventAsWritten(db, data, db.communities[data.community].createdBy, newId);
  }

  /**
   * `Event.createEvent` as intended: the same checks, but the event is stored with `userId`, the
   * community's creator, as its creator, so the store keeps every invariant. A `createdBy` in
   * `eventData` is overridden, so it need not be given.
   */
  method CreateEventChecked(db: Store, data: EventFields, userId: Id, newId: Id)
    returns (ok: bool, created: Option<Event>)
    requires db.Valid()
    requires newId !in db.events
    modifies db`communities, db`events
    ensures db.Valid()
    ensures !ok ==> created == None && db.communities == old(db.communities) && db.events == old(db.events)
    ensures ok <==>
      && data.community in old(db.communities)
      && old(db.communities)[data.community].createdBy == userId
      && ValidFields(data.(createdBy := Some(userId)))
      && !UniqueIdTaken(old(db.events), NewEvent(data.(createdBy := Some(userId))).uniqueId)
    ensures ok ==>
      && created == Some(NewEvent(data.(createdBy := Some(userId))))
      && db.events == old(db.events)[newId := NewEvent(data.(createdBy := Some(userId)))]
      && db.communities == old(db.communities)[data.community := old(db.communities)[data.community].(
           events := old(db.communities)[data.community].events + [newId])]
      && db.events[newId].createdBy == db.communities[data.community].createdBy
  {
    if data.community !in db.communities || db.communities[data.community].createdBy != userId {
      return false, None;
    }
    var fields := data.(createdBy := Some(userId));
    if !ValidFields(fields) {
      return false, None;
    }
    var ev := NewEvent(fields);
    if UniqueIdTaken(db.events, ev.uniqueId) {
      return false, None;
    }
    StoreEvent(db, newId, ev);
    ok, created := true, Some(ev);
  }
}
