/**
 * The Event schema: the stored record, the values a new document is built from, the schema
 * validators (required fields, `capacity >= 1`, the `uniqueId` pattern) and the partial merge the
 * update handler applies.
 */
module EventSchema {
  import opened Common
  import opened Text

  /** A stored event, after the schema's `trim` and `lowercase` setters have run. */
  datatype Event = Event(
    title: string,
    uniqueId: string,
    date: string,
    startTime: string,
    endTime: string,
    capacity: int,
    location: string,
    description: string,
    bannerUrl: Option<string>,
    community: Id,
    createdBy: Id,
    isActive: bool)

  /**
   * The values `new Event({...})` is given. A missing string field is "" and a missing capacity
   * is 0: the handlers and the validators treat a missing value and these falsy values alike.
   * `createdBy` and `isActive` may be left out (`None`); a missing `community` is not modelled,
   * since a lookup of it finds no community either way.
   */
  datatype EventFields = EventFields(
    title: string,
    uniqueId: string,
    date: string,
    startTime: string,
    endTime: string,
    capacity: int,
    location: string,
    description: string,
    bannerUrl: Option<string>,
    community: Id,
    createdBy: Option<Id>,
    isActive: Option<bool>)

  /**
   * `new Event(fields)` for fields that name a creator: the setters run on assignment and
   * `isActive` is the given value, or true by default.
   */
  function NewEvent(f: EventFields): Event
    requires f.createdBy.Some?
  {
    Event(Trim(f.title), NormalizeId(f.uniqueId), f.date, f.startTime, f.endTime, f.capacity,
          Trim(f.location), Trim(f.description), TrimOption(f.bannerUrl), f.community, f.createdBy.value,
          if f.isActive.Some? then f.isActive.value else true)
  }

  /**
   * The validators `save()` runs: `title`, `uniqueId`, `date`, `startTime`, `endTime`, `capacity`
   * and `location` are required, `capacity` is at least 1 and `uniqueId` matches
   * `/^[a-z0-9-]+$/`. A stored event always has its `community` and `createdBy`.
   */
  predicate ValidEvent(e: Event) {
    && e.title != ""
    && MatchesIdPattern(e.uniqueId)
    && e.date != ""
    && e.startTime != ""
    && e.endTime != ""
    && e.capacity >= 1
    && e.location != ""
  }

  /** `save()` on `new Event(f)` passes the validators: `createdBy` is required too. */
  predicate ValidFields(f: EventFields) {
    f.createdBy.Some? && ValidEvent(NewEvent(f))
  }

  /**
   * A new document passes validation exactly when it names a creator, its title and location
   * contain a non-space character, its trimmed and lowercased `uniqueId` matches the pattern, the
   * date and times are given and the capacity is at least 1.
   */
  lemma NewEventValidation(f: EventFields)
    ensures ValidFields(f) <==>
      && f.createdBy.Some?
      && HasText(f.title)
      && MatchesIdPattern(NormalizeId(f.uniqueId))
      && f.date != "" && f.startTime != "" && f.endTime != ""
      && f.capacity >= 1
      && HasText(f.location)
  {
  }

  /** The fields the create and update handlers read from `req.body`; "" and 0 stand for missing or falsy values. */
  datatype EventBody = EventBody(
    title: string,
    date: string,
    startTime: string,
    endTime: string,
    capacity: int,
    location: string,
    description: string)

  const EmptyBody := EventBody("", "", "", "", 0, "", "")

  /**
   * `event.x = x || event.x` for the seven fields: a truthy value replaces the old one (through the
   * `trim` setter where the schema has one), a falsy one keeps it. Nothing else is touched.
   */
  function Merged(e: Event, c: EventBody): (r: Event)
    ensures r.title == (if c.title != "" then Trim(c.title) else e.title)
    ensures r.date == (if c.date != "" then c.date else e.date)
    ensures r.startTime == (if c.startTime != "" then c.startTime else e.startTime)
    ensures r.endTime == (if c.endTime != "" then c.endTime else e.endTime)
    ensures r.capacity == (if c.capacity != 0 then c.capacity else e.capacity)
    ensures r.location == (if c.location != "" then Trim(c.location) else e.location)
    ensures r.description == (if c.description != "" then Trim(c.description) else e.description)
    ensures r.uniqueId == e.uniqueId && r.community == e.community && r.createdBy == e.createdBy
    ensures r.bannerUrl == e.bannerUrl && r.isActive == e.isActive
  {
    e.(title := if c.title != "" then Trim(c.title) else e.title,
       date := if c.date != "" then c.date else e.date,
       startTime := if c.startTime != "" then c.startTime else e.startTime,
       endTime := if c.endTime != "" then c.endTime else e.endTime,
       capacity := if c.capacity != 0 then c.capacity else e.capacity,
       location := if c.location != "" then Trim(c.location) else e.location,
       description := if c.description != "" then Trim(c.description) else e.description)
  }

  /** The supplied values that survive validation: non-blank title and location, positive capacity. */
  predicate ChangesValid(c: EventBody) {
    && (c.title == "" || HasText(c.title))
    && (c.capacity == 0 || c.capacity >= 1)
    && (c.location == "" || HasText(c.location))
  }

  /** An empty body changes nothing. */
  lemma MergeNothing(e: Event)
    ensures Merged(e, EmptyBody) == e
  {
  }

  /** A valid event stays valid under an update exactly when the supplied values are valid. */
  lemma MergeValidity(e: Event, c: EventBody)
    requires ValidEvent(e)
    ensures ValidEvent(Merged(e, c)) <==> ChangesValid(c)
  {
  }
}
