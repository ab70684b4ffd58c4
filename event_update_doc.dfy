/**
 * An EventUpdate document in memory: its fields, the set of paths assigned a new value since it
 * was created or last saved, and `save()`, which runs the validators and then the pre-save hook
 * that marks the update as edited when its title or content was modified.
 */
module EventUpdates {
  import opened Common
  import opened Text
  import opened EventUpdateSchema
  import opened Database

  /** The two paths the hook asks `isModified` about. */
  datatype Path = Title | Content

  class EventUpdateDoc {
    const id: Id
    var event: Option<Id>
    var title: string
    var content: string
    var createdBy: Option<Id>
    var isEdited: bool
    var modified: set<Path>

    /**
     * `new EventUpdate({ event, title, content, createdBy })`: the `trim` setters run, `isEdited`
     * takes its default false, and no path counts as modified yet.
     */
    constructor (id: Id, event: Option<Id>, title: string, content: string, createdBy: Option<Id>)
      ensures this.id == id && this.event == event && this.createdBy == createdBy
      ensures this.title == Trim(title) && this.content == Trim(content)
      ensures !isEdited && modified == {}
    {
      this.id := id;
      this.event := event;
      this.title := Trim(title);
      this.content := Trim(content);
      this.createdBy := createdBy;
      isEdited := false;
      modified := {};
    }

    /** The record `save()` would write. */
    function Record(): EventUpdate
      reads this
    {
      EventUpdate(event, title, content, createdBy, isEdited)
    }

    /** `doc.title = t`: trimmed by the setter; the path is marked modified only when the value changes. */
    method SetTitle(t: string)
      modifies this
      ensures title == Trim(t)
      ensures modified == if Trim(t) == old(title) then old(modified) else old(modified) + {Title}
      ensures event == old(event) && content == old(content) && createdBy == old(createdBy)
      ensures isEdited == old(isEdited)
    {
      var v := Trim(t);
      if v != title {
        modified := modified + {Title};
      }
      title := v;
    }

    /** `doc.content = c`: trimmed by the setter; the path is marked modified only when the value changes. */
    method SetContent(c: string)
      modifies this
      ensures content == Trim(c)
      ensures modified == if Trim(c) == old(content) then old(modified) else old(modified) + {Content}
      ensures event == old(event) && title == old(title) && createdBy == old(createdBy)
      ensures isEdited == old(isEdited)
    {
      var v := Trim(c);
      if v != content {
        modified := modified + {Content};
      }
      content := v;
    }

    /**
     * `save()`: a document that fails validation is rejected and nothing changes. Otherwise the
     * hook sets `isEdited` when the title or content was modified and never clears it, the record
     * is stored under the document's id, and no path counts as modified any more.
     */
    method Save(db: Store) returns (ok: bool)
      requires db.Valid()
      modifies this, db`updates
      ensures db.Valid()
      ensures ok <==> ValidUpdate(old(Record()))
      ensures !ok ==> db.updates == old(db.updates) && Record() == old(Record()) && modified == old(modified)
      ensures ok ==>
        && isEdited == (old(isEdited) || Title in old(modified) || Content in old(modified))
        && event == old(event) && title == old(title) && content == old(content) && createdBy == old(createdBy)
        && modified == {}
        && db.updates == old(db.updates)[id := Record()]
        && ValidUpdate(db.updates[id])
    {
      if !ValidUpdate(Record()) {
        return false;
      }
      if Title in modified || Content in modified {
        isEdited := true;
      }
      db.updates := db.updates[id := Record()];
      modified := {};
      ok := true;
    }
  }
}
