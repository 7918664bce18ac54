/** The gallery page's state: the photo list, the pending delete and its
    dialog flag, and the storage slot the list is mirrored to. Every handler
    runs to completion before the next event, so the state updates a handler
    requests are applied here in order, followed by the mirror write that
    runs whenever the list was replaced. */
module Gallery {
  import opened Photos

  /** The photo a delete was requested for: its id and the title shown in
      the confirmation prompt. */
  datatype PendingDelete = PendingDelete(id: int, title: string)

  class GalleryPage {
    var photos: seq<Photo>
    var photoToDelete: Option<PendingDelete>
    var isDeleteDialogOpen: bool
    /** The storage slot `photo-gallery-photos`; `None` when nothing is saved.
        The text encoding is abstracted away: the slot holds the list itself. */
    var stored: Option<seq<Photo>>

    /** The mirror effect has caught up: the slot holds the current list. */
    ghost predicate Valid()
      reads this
    {
      stored == Some(photos)
    }

    /** First activation with `saved` in the storage slot. The first commit
        runs the load effect (which schedules the saved or default list) and
        then the mirror effect, which writes the still-empty list; the
        re-render with the loaded list writes that list. */
    constructor (saved: Option<seq<Photo>>)
      ensures Valid()
      ensures photos == Initial(saved)
      ensures saved.None? ==> photos == Defaults()
      ensures photoToDelete == None && !isDeleteDialogOpen
      ensures Initial(stored) == photos
    {
      var loaded := Initial(saved);
      photoToDelete := None;
      isDeleteDialogOpen := false;
      photos := [];
      stored := Some([]);
      photos := loaded;
      stored := Some(loaded);
    }

    /** The mirror effect: overwrite the slot with the current list. */
    method Persist()
      modifies this`stored
      ensures Valid()
    {
      stored := Some(photos);
    }

    /** `handleUpload`: append the new record stamped with the clock reading
        `now`; nothing else on the page changes. */
    method Upload(now: int, u: NewUpload)
      requires Valid()
      modifies this
      ensures Valid()
      ensures photos == AppendUpload(old(photos), now, u)
      ensures photoToDelete == old(photoToDelete) && isDeleteDialogOpen == old(isDeleteDialogOpen)
    {
      photos := AppendUpload(photos, now, u);
      Persist();
    }

    /** `handleDeleteClick`: remember the photo and open the prompt. The list
        is not touched, so the mirror effect does not run. */
    method DeleteClick(id: int, title: string)
      requires Valid()
      modifies this
      ensures Valid()
      ensures photoToDelete == Some(PendingDelete(id, title)) && isDeleteDialogOpen
      ensures DialogTitle() == title
      ensures photos == old(photos) && stored == old(stored)
    {
      photoToDelete := Some(PendingDelete(id, title));
      isDeleteDialogOpen := true;
    }

    /** The title the prompt interpolates: the pending title, or empty. */
    function DialogTitle(): string
      reads this
    {
      match photoToDelete
      case Some(p) => p.title
      case None => ""
    }

    /** `handleDeleteConfirm`: with a pending photo, drop every record with
        its id and clear the pending photo; with none, do nothing. The
        filter always yields a new list, so the mirror effect runs. */
    method DeleteConfirm()
      requires Valid()
      modifies this
      ensures Valid()
      ensures old(photoToDelete).None? ==>
        photos == old(photos) && photoToDelete == None && stored == old(stored)
      ensures old(photoToDelete).Some? ==>
        photos == RemoveById(old(photos), old(photoToDelete).value.id) && photoToDelete == None
      ensures isDeleteDialogOpen == old(isDeleteDialogOpen)
    {
      match photoToDelete
      case None =>
      case Some(pending) =>
        photos := RemoveById(photos, pending.id);
        photoToDelete := None;
        Persist();
    }

    /** The prompt's `onClose`: close it and forget the pending photo,
        whether or not anything was deleted. */
    method CloseDeleteDialog()
      requires Valid()
      modifies this
      ensures Valid()
      ensures !isDeleteDialogOpen && photoToDelete == None && DialogTitle() == ""
      ensures photos == old(photos) && stored == old(stored)
    {
      isDeleteDialogOpen := false;
      photoToDelete := None;
    }

    /** The prompt's confirm button: `onConfirm` then `onClose`. The button
        exists only while the prompt is open. */
    method ConfirmInDialog()
      requires Valid() && isDeleteDialogOpen
      modifies this
      ensures Valid()
      ensures photos == match old(photoToDelete)
                        case Some(p) => RemoveById(old(photos), p.id)
                        case None => old(photos)
      ensures !isDeleteDialogOpen && photoToDelete == None && DialogTitle() == ""
    {
      DeleteConfirm();
      CloseDeleteDialog();
    }

    /** `handleLike`: flip every record with the id, adjusting its count.
        The map always yields a new list, so the mirror effect runs. */
    method Like(id: int)
      requires Valid()
      modifies this
      ensures Valid()
      ensures photos == LikeById(old(photos), id)
      ensures photoToDelete == old(photoToDelete) && isDeleteDialogOpen == old(isDeleteDialogOpen)
    {
      photos := LikeById(photos, id);
      Persist();
    }
  }

  /** Requesting a delete and confirming it in the prompt removes exactly the
      clicked photo when ids are unique, and leaves the page with the prompt
      closed and nothing pending; reloading from the slot gives that list. */
  method DeleteFlow(page: GalleryPage, k: nat)
    requires page.Valid() && UniqueIds(page.photos) && k < |page.photos|
    modifies page
    ensures page.Valid()
    ensures page.photos == old(page.photos[..k] + page.photos[k + 1..])
    ensures UniqueIds(page.photos)
    ensures !page.isDeleteDialogOpen && page.photoToDelete == None
    ensures Initial(page.stored) == page.photos
  {
    ghost var before := page.photos;
    page.DeleteClick(page.photos[k].id, page.photos[k].title);
    page.ConfirmInDialog();
    RemoveByIdAt(before, k);
    RemoveByIdKeepsUniqueIds(before, before[k].id);
  }

  /** Seed, upload, and delete the upload again: the page and its slot are
      back at the six defaults. */
  method DefaultsScenario(now: int, u: NewUpload) returns (page: GalleryPage)
    requires now > 6
    ensures page.Valid() && page.photos == Defaults()
    ensures !page.isDeleteDialogOpen && page.photoToDelete == None
  {
    page := new GalleryPage(None);
    page.Upload(now, u);
    assert page.photos[6].id == now;
    page.DeleteClick(now, u.title);
    page.ConfirmInDialog();
    DefaultsUploadThenDelete(now, u);
  }
}
