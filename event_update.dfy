/**
 * The EventUpdate schema (an announcement attached to an event): the stored record and its
 * validators.
 */
module EventUpdateSchema {
  import opened Common
  import opened Text

  /** A stored update; `event` and `createdBy` are `None` when not set. */
  datatype EventUpdate = EventUpdate(
    event: Option<Id>,
    title: string,
    content: string,
    createdBy: Option<Id>,
    isEdited: bool)

  /** The title validators on the trimmed value: required, at least 3 and at most 100 UTF-16 code units. */
  predicate ValidTitle(trimmed: string) {
    3 <= Utf16Length(trimmed) <= 100
  }

  /** The content validators on the trimmed value: required and at least 10 UTF-16 code units. */
  predicate ValidContent(trimmed: string) {
    Utf16Length(trimmed) >= 10
  }

  /** All validators of the schema, on a record whose `trim` setters have run. */
  predicate ValidUpdate(u: EventUpdate) {
    u.event.Some? && u.createdBy.Some? && ValidTitle(u.title) && ValidContent(u.content)
  }
}
