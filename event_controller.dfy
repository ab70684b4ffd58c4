/**
 * The event handlers as transitions on the event and community collections: `createEvent`,
 * `getEventById`, `updateEvent` and `deleteEvent`. `caller` is the authenticated user the `protect`
 * middleware puts in `req.user`; `banner` is the URL the Cloudinary upload returned, if any.
 */
module EventController {
  import opened Common
  import opened Text
  import opened CommunitySchema
  import opened EventSchema
  import opened Database

  /**
   * The document `createEvent` builds: the body's fields, the slug of the title as `uniqueId`, the
   * community and the caller as creator, all passed through the schema setters. The slug is
   * already trimmed and lowercase, so the setters leave it as it is.
   */
  function EventFor(body: EventBody, communityId: Id, caller: Id, banner: Option<string>): (r: Event)
    ensures r.uniqueId == Slugify(body.title)
    ensures r.community == communityId && r.createdBy == caller && r.isActive
  {
    SlugIsNormalized(body.title);
    NewEvent(EventFields(body.title, Slugify(body.title), body.date, body.startTime, body.endTime,
                         body.capacity, body.location, body.description, banner, communityId, Some(caller), None))
  }

  /**
   * The document `createEvent` builds passes validation exactly when the title has a non-space
   * character and its slug matches the `uniqueId` pattern, the date and times are given, the
   * capacity is at least 1 and the location has a non-space character.
   */
  lemma EventForValidation(body: EventBody, communityId: Id, caller: Id, banner: Option<string>)
    ensures ValidEvent(EventFor(body, communityId, caller, banner)) <==>
      && HasText(body.title)
      && MatchesIdPattern(Slugify(body.title))
      && body.date != "" && body.startTime != "" && body.endTime != ""
      && body.capacity >= 1
      && HasText(body.location)
  {
    NewEventValidation(EventFields(body.title, Slugify(body.title), body.date, body.startTime, body.endTime,
                                   body.capacity, body.location, body.description, banner, communityId, Some(caller), None));
  }

  /**
   * `createEvent`: 404 when the community does not exist, 403 when the caller did not create it,
   * 400 when an event already has the slug of the title as its `uniqueId`, 500 when the new
   * document fails validation; none of these changes anything. Otherwise the event is stored
   * under the slug, owned by the caller, and appended to the community's `events`.
   */
  method CreateEvent(db: Store, caller: Id, communityId: Id, body: EventBody, banner: Option<string>, newId: Id)
    returns (status: int, created: Option<Event>)
    requires db.Valid()
    requires newId !in db.events
    modifies db`communities, db`events
    ensures db.Valid()
    ensures status != StatusCreated ==>
      created == None && db.communities == old(db.communities) && db.events == old(db.events)
    ensures communityId !in old(db.communities) ==> status == StatusNotFound
    ensures communityId in old(db.communities) && old(db.communities)[communityId].createdBy != caller ==>
      status == StatusForbidden
    ensures communityId in old(db.communities) && old(db.communities)[communityId].createdBy == caller ==>
      if UniqueIdTaken(old(db.events), Slugify(body.title)) then
        status == StatusBadRequest
      else if !ValidEvent(EventFor(body, communityId, caller, banner)) then
        status == StatusServerError
      else
        && status == StatusCreated
        && created == Some(EventFor(body, communityId, caller, banner))
        && db.events == old(db.events)[newId := EventFor(body, communityId, caller, banner)]
        && db.communities == old(db.communities)[communityId := old(db.communities)[communityId].(
             events := old(db.communities)[communityId].events + [newId])]
  {
    if communityId !in db.communities {
      return StatusNotFound, None;
    }
    var community := db.communities[communityId];
    if community.createdBy != caller {
      return StatusForbidden, None;
    }
    var uniqueId := Slugify(body.title);
    if UniqueIdTaken(db.events, uniqueId) {
      return StatusBadRequest, None;
    }
    var ev := EventFor(body, communityId, caller, banner);
    if !ValidEvent(ev) {
      return StatusServerError, None;
    }
    StoreEvent(db, newId, ev);
    status, created := StatusCreated, Some(ev);
  }

  /** `getEventById`: the stored event (200), or 404 when there is none. */
  method GetEventById(db: Store, id: Id) returns (status: int, found: Option<Event>)
    ensures id in db.events <==> status == StatusOk
    ensures id in db.events ==> found == Some(db.events[id])
    ensures id !in db.events ==> status == StatusNotFound && found == None
  {
    if id !in db.events {
      return StatusNotFound, None;
    }
    return StatusOk, Some(db.events[id]);
  }

  /**
   * `updateEvent`: 404 when the event does not exist, 403 when the caller did not create it, 500
   * when a supplied value is invalid; none of these changes anything. Otherwise the supplied
   * values are merged into the stored event and 200 is answered.
   */
  method UpdateEvent(db: Store, caller: Id, eventId: Id, changes: EventBody)
    returns (status: int, updated: Option<Event>)
    requires db.Valid()
    modifies db`events
    ensures db.Valid()
    ensures status != StatusOk ==> updated == None && db.events == old(db.events)
    ensures eventId !in old(db.events) ==> status == StatusNotFound
    ensures eventId in old(db.events) && old(db.events)[eventId].createdBy != caller ==> status == StatusForbidden
    ensures eventId in old(db.events) && old(db.events)[eventId].createdBy == caller ==>
      if ChangesValid(changes) then
        && status == StatusOk
        && updated == Some(Merged(old(db.events)[eventId], changes))
        && db.events == old(db.events)[eventId := Merged(old(db.events)[eventId], changes)]
      else
        status == StatusServerError
  {
    if eventId !in db.events {
      return StatusNotFound, None;
    }
    var ev := db.events[eventId];
    if ev.createdBy != caller {
      return StatusForbidden, None;
    }
    MergeValidity(ev, changes);
    ev := Merged(ev, changes);
    if !ValidEvent(ev) {
      return StatusServerError, None;
    }
    db.events := db.events[eventId := ev];
    status, updated := StatusOk, Some(ev);
  }

  /**
   * `deleteEvent`: 404 when the event does not exist, 403 when the caller did not create it; both
   * change nothing. Otherwise the id is pulled from its community's `events` and the event is
   * deleted, so no community refers to it any more.
   */
  method DeleteEvent(db: Store, caller: Id, eventId: Id) returns (status: int)
    requires db.Valid()
    modifies db`communities, db`events
    ensures db.Valid()
    ensures status != StatusOk ==> db.communities == old(db.communities) && db.events == old(db.events)
    ensures eventId !in old(db.events) ==> status == StatusNotFound
    ensures eventId in old(db.events) && old(db.events)[eventId].createdBy != caller ==> status == StatusForbidden
    ensures eventId in old(db.events) && old(db.events)[eventId].createdBy == caller ==>
      var cid := old(db.events)[eventId].community;
      var c := old(db.communities)[cid];
      && status == StatusOk
      && db.events == old(db.events) - {eventId}
      && db.communities == old(db.communities)[cid := c.(events := EventPulled(c.events, eventId))]
    ensures status == StatusOk ==> forall c :: c in db.communities ==> eventId !in db.communities[c].events
  {
    if eventId !in db.events {
      return StatusNotFound;
    }
    var ev := db.events[eventId];
    if ev.createdBy != caller {
      return StatusForbidden;
    }
    var cid := ev.community;
    var community := db.communities[cid];
    EventRemoved(db.communities, db.events, eventId);
    db.communities := db.communities[cid := community.(events := EventPulled(community.events, eventId))];
    db.events := db.events - {eventId};
    status := StatusOk;
  }
}
