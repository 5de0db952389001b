/** The Task entity: a mutable record with an id, a title, a description and a completion flag. */
module TaskModel {
  import opened Optional

  /**
   * The state of one task as a value: what a table row holds and what a request or
   * response body carries. The id and the two strings are nullable references in the
   * source; the flag is a primitive and therefore never null.
   */
  datatype TaskRecord = TaskRecord(id: Option<int>, title: Option<string>, description: Option<string>, completed: bool)

  /** The state of a task straight out of its no-argument constructor. */
  const Blank := TaskRecord(None, None, None, false)

  /** The entity object, whose four private fields are updated in place by its setters. */
  class Task {
    var id: Option<int>
    var title: Option<string>
    var description: Option<string>
    var completed: bool

    /** The task's whole state as a value. */
    function Snapshot(): TaskRecord
      reads this
    {
      TaskRecord(id, title, description, completed)
    }

    constructor ()
      ensures Snapshot() == Blank
      ensures GetId() == None && !IsCompleted()
    {
      id := None;
      title := None;
      description := None;
      completed := false;
    }

    function GetId(): Option<int>
      reads this
    {
      id
    }

    function GetTitle(): Option<string>
      reads this
    {
      title
    }

    function GetDescription(): Option<string>
      reads this
    {
      description
    }

    function IsCompleted(): bool
      reads this
    {
      completed
    }

    method SetId(v: Option<int>)
      modifies this
      ensures GetId() == v
      ensures Snapshot() == old(Snapshot()).(id := v)
    {
      id := v;
    }

    method SetTitle(v: Option<string>)
      modifies this
      ensures GetTitle() == v
      ensures Snapshot() == old(Snapshot()).(title := v)
    {
      title := v;
    }

    method SetDescription(v: Option<string>)
      modifies this
      ensures GetDescription() == v
      ensures Snapshot() == old(Snapshot()).(description := v)
    {
      description := v;
    }

    method SetCompleted(v: bool)
      modifies this
      ensures IsCompleted() == v
      ensures Snapshot() == old(Snapshot()).(completed := v)
    {
      completed := v;
    }
  }

}
