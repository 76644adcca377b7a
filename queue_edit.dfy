/** The queue edit dialog: a form over a queue's title, item name and
    image, the test for unsaved changes, and the save that sends only the
    fields that changed. */
module QueueEdit {

  import opened Common
  import opened Text

  /** The `queue` prop: `image_url` may be missing or empty. */
  datatype QueueDetails = QueueDetails(id: QueueId, title: string, itemName: string, imageUrl: Option<string>)

  /** `formData`; an absent image is `null`. */
  datatype Form = Form(title: string, itemName: string, imageUrl: Option<string>)

  /** `queue.image_url || null`: a missing or empty URL becomes `null`. */
  function NormalImage(url: Option<string>): (r: Option<string>)
    ensures r.Some? <==> url.Some? && url.value != ""
    ensures r.Some? ==> r == url
  {
    if url.Some? && url.value != "" then url else None
  }

  /** The form as the queue fills it. */
  function FormOf(queue: QueueDetails): (r: Form)
    ensures r.title == queue.title && r.itemName == queue.itemName
    ensures r.imageUrl.Some? ==> r.imageUrl.value != "" && r.imageUrl == queue.imageUrl
  {
    Form(queue.title, queue.itemName, NormalImage(queue.imageUrl))
  }

  /** `hasChanges()`. */
  predicate HasChanges(form: Form, queue: QueueDetails)
    ensures HasChanges(form, queue) <==> form != FormOf(queue)
  {
    || form.title != queue.title
    || form.itemName != queue.itemName
    || form.imageUrl != NormalImage(queue.imageUrl)
  }

  /** The `updates` object: each field present or not; a present image may
      be `null`, which clears it. */
  datatype Updates = Updates(title: Option<string>, itemName: Option<string>, imageUrl: Option<Option<string>>)

  /** `Object.keys(updates).length > 0`. */
  predicate NonEmpty(u: Updates)
  {
    u.title.Some? || u.itemName.Some? || u.imageUrl.Some?
  }

  /** The diff handleSave sends: a field is present exactly when it differs
      from the queue, the texts trimmed and the image as chosen. */
  function Diff(form: Form, queue: QueueDetails): (u: Updates)
    ensures u.title.Some? <==> form.title != queue.title
    ensures u.title.Some? ==> u.title.value == Trim(form.title)
    ensures u.itemName.Some? <==> form.itemName != queue.itemName
    ensures u.itemName.Some? ==> u.itemName.value == Trim(form.itemName)
    ensures u.imageUrl.Some? <==> form.imageUrl != NormalImage(queue.imageUrl)
    ensures u.imageUrl.Some? ==> u.imageUrl.value == form.imageUrl
    ensures NonEmpty(u) <==> HasChanges(form, queue)
  {
    Updates(if form.title != queue.title then Some(Trim(form.title)) else None,
            if form.itemName != queue.itemName then Some(Trim(form.itemName)) else None,
            if form.imageUrl != NormalImage(queue.imageUrl) then Some(form.imageUrl) else None)
  }

  /** handleSave's `updates` object, filled field by field. */
  method BuildUpdates(form: Form, queue: QueueDetails) returns (u: Updates)
    ensures u == Diff(form, queue)
  {
    u := Updates(None, None, None);
    if form.title != queue.title {
      u := u.(title := Some(Trim(form.title)));
    }
    if form.itemName != queue.itemName {
      u := u.(itemName := Some(Trim(form.itemName)));
    }
    if form.imageUrl != NormalImage(queue.imageUrl) {
      u := u.(imageUrl := Some(form.imageUrl));
    }
  }

  /** How a save ends. `Saved` closes the dialog; the others leave it open. */
  datatype SaveOutcome =
    | NotMaster
    | TitleRequired
    | ItemNameRequired
    | Saved(updates: Updates, called: bool)
    | SaveFailed(updates: Updates)

  /** The dialog's state: the form being edited. */
  class EditDialog {
    var form: Form

    constructor (queue: QueueDetails)
      ensures form == FormOf(queue) && !HasChanges(form, queue)
    {
      form := FormOf(queue);
    }

    /** Typing in a field or picking an image. */
    method Edit(f: Form)
      modifies this
      ensures form == f
    {
      form := f;
    }

    /** handleCancel: the form goes back to the queue's values. */
    method Cancel(queue: QueueDetails)
      modifies this
      ensures form == FormOf(queue) && !HasChanges(form, queue)
    {
      form := FormOf(queue);
    }

    /** handleSave: non-masters are ignored, a blank title or item name is
        refused before any write, and `updateQueueDetails` (whose success is
        `updateOk`) is called only when some field changed. */
    method Save(user: Option<AuthUser>, queue: QueueDetails, updateOk: bool) returns (out: SaveOutcome)
      ensures !IsMaster(user) ==> out == NotMaster
      ensures IsMaster(user) && Trim(form.title) == "" ==> out == TitleRequired
      ensures IsMaster(user) && Trim(form.title) != "" && Trim(form.itemName) == "" ==> out == ItemNameRequired
      ensures out.Saved? || out.SaveFailed? ==>
                && IsMaster(user) && !AllSpace(form.title) && !AllSpace(form.itemName)
                && out.updates == Diff(form, queue)
                && (NonEmpty(out.updates) <==> HasChanges(form, queue))
                && (out.updates.title.Some? ==> out.updates.title.value != "")
                && (out.updates.itemName.Some? ==> out.updates.itemName.value != "")
      ensures out.Saved? ==> (out.called <==> HasChanges(form, queue))
      ensures out.SaveFailed? ==> HasChanges(form, queue) && !updateOk
      ensures IsMaster(user) && Trim(form.title) != "" && Trim(form.itemName) != "" ==>
                (out.Saved? <==> updateOk || !HasChanges(form, queue))
    {
      if !IsMaster(user) {
        return NotMaster;
      }
      if Trim(form.title) == "" {
        return TitleRequired;
      }
      if Trim(form.itemName) == "" {
        return ItemNameRequired;
      }
      TrimEmptyIff(form.title);
      TrimEmptyIff(form.itemName);
      var updates := BuildUpdates(form, queue);
      if NonEmpty(updates) {
        if !updateOk {
          return SaveFailed(updates);
        }
        return Saved(updates, true);
      }
      out := Saved(updates, false);
    }
  }
}
