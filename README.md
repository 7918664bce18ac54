# Photo gallery page: a Dafny model of its state logic

The gallery page keeps a list of photo records. Each record has an id, a
title, a description, an image, a like count and an optional "liked" flag.
The list is changed by three handlers: an upload appends a record stamped
with the clock, a confirmed delete filters out an id, and a like flips the
flag of the matching records and moves their count by one. After every
change the list is mirrored to a browser storage slot. At start-up the list
is read back from that slot, or seeded with six built-in photos when the
slot is empty. A delete always passes through a confirmation prompt: the
page remembers the pending photo, opens the prompt, and on confirm filters
the list and closes the prompt. The upload dialog is a small form with a
title, a description, a selected file, a preview and a submit lock. It has
a 15 MiB size gate on the file, a guard against submitting without an
image, and a reset on close or after a completed upload.

Files:

- `photos.dfy`, module `Photos`: the `Photo` record and the three list
  transformations as pure functions (`AppendUpload`, `RemoveById`,
  `LikeById`, with `ToggleLike` on a single record). It also holds the
  default seed (`Defaults`), the start-up choice (`Initial`) and the lemmas
  about them.
- `gallery.dfy`, module `Gallery`: class `GalleryPage`. Its fields are
  `photos`, `photoToDelete`, `isDeleteDialogOpen` and the storage slot
  `stored`. It has one method per handler and keeps the invariant
  `Valid()`: the slot holds the current list.
- `upload_form.dfy`, module `Upload`: class `UploadForm` with the five form
  fields and one method per handler. The selected file is an abstract
  `File(name, size)`. A file conversion is an abstract completion event
  carrying the resulting text.

Modelling choices:

- The clock reading `Date.now()` is a parameter `now` of `Upload`.
- `likes` is an unbounded `int`: there is no floor at zero. The count stays
  non-negative for every record the page builds, and can go negative only
  from a saved record whose flag is set with a count of zero
  (`CountConsistent` and the lemmas beside it).
- The optional `isLiked` is `Option<bool>`. An absent flag reads as "not
  liked", exactly as `!photo.isLiked` does.
- The storage slot is `Option<seq<Photo>>`, with `None` meaning nothing is
  saved. The JSON text is abstracted away, so writing then reading the slot
  gives back the same list.
- Each handler runs to completion before the next event. So the state
  updates a React handler requests are applied in order, and then the
  mirror write runs if the list was replaced. On the first commit, the
  mirror effect writes the still-empty list once before the loaded list
  replaces it. The constructor does the same.
- `handleSubmit`'s completion callback sees the title and description from
  the moment of submit, not from the moment of completion. `Submit`
  therefore returns a `Submission` value holding those captured fields, and
  `Completed(s, result)` uploads from that value. One consequence: a
  conversion that completes after the form was closed still emits its
  captured values.
- `handleSubmit` contains no `await`. So `setIsSubmitting(true)` and the
  `finally` block's `setIsSubmitting(false)` both run before the handler
  returns, and `Submit` leaves the lock lowered.
- The loader treats a saved empty string as "nothing saved" (`if (saved)`).
  The mirror write never stores an empty string, so `None` covers that case.
- An oversized file leaves the previously selected image and preview in
  place (src/app/components/UploadForm.tsx:27-30).
- A delete removes every record with the pending id, not just one. Ids are
  clock readings, and nothing makes them unique.
- Ids ascend only while the clock reads past every stored id, so
  `UploadKeepsAscendingIds` takes that as a precondition.

## Model

| member | source | states |
|---|---|---|
| Photos.IsLiked | src/app/page.tsx:144 | plain definition of the truthiness `!photo.isLiked` negates: only a defined `true` is liked; `ToggleLike` and `ToggleLikeTwice` carry its properties |
| Photos.NewPhoto | src/app/page.tsx:120-125 | plain definition of the uploaded record; `UploadAppends` states its fields |
| Photos.AppendUpload | src/app/page.tsx:126 | plain definition of the append; `UploadAppends`, `UploadThenRemove`, `UploadKeepsUniqueIds` and `UploadKeepsAscendingIds` carry its properties |
| Photos.UploadAppends | src/app/page.tsx:119-127 | the upload yields a list one longer whose prefix is the old list and whose last record has id `now`, the given title, description and image, zero likes and `isLiked == false` |
| Photos.UploadKeepsAscendingIds | src/app/page.tsx:120-126 | if ids are ascending and the clock reads later than every id, ids stay strictly ascending after the upload |
| Photos.UploadKeepsUniqueIds | src/app/page.tsx:120-126 | if ids are unique and `now` is not among them, they stay unique after the upload |
| Photos.UploadThenRemove | src/app/page.tsx:119-138 | deleting a fresh upload by its id gives back the list as it was before the upload |
| Photos.RemoveById | src/app/page.tsx:136 | the filter keeps a record iff it was in the list and its id differs from the removed id, and never grows the list |
| Photos.RemoveByIdKeepsOrder | src/app/page.tsx:136 | the kept records are a subsequence of the input: original order is preserved |
| Photos.RemoveByIdCounts | src/app/page.tsx:136 | each record occurs as often as before unless it has the removed id, in which case it does not occur: every matching record goes, not just one |
| Photos.RemoveByIdLength | src/app/page.tsx:136 | the list shrinks by exactly the number of records carrying the id |
| Photos.RemoveByIdUnchanged | src/app/page.tsx:136 | the filter leaves the list unchanged iff no record has the id |
| Photos.RemoveByIdAt | src/app/page.tsx:136 | with unique ids, deleting the id of the record at position k removes exactly that record: `photos[..k] + photos[k+1..]` |
| Photos.RemoveByIdConcat | src/app/page.tsx:136 | filtering a concatenation is the concatenation of the filtered parts |
| Photos.RemoveByIdKeepsUniqueIds | src/app/page.tsx:136 | deleting keeps ids unique |
| Photos.ToggleLike | src/app/page.tsx:143-149 | on a matching record only `isLiked` and `likes` change; the new flag is defined and is the negation of the old one (absent counts as not liked); `likes` moves by exactly one, upward iff the record is now liked, with no clamping |
| Photos.ToggleLikeTwice | src/app/page.tsx:144-148 | toggling twice restores `likes` and the liked state, restores a defined flag exactly, and turns an absent flag into `false` |
| Photos.LikeById | src/app/page.tsx:141-153 | the map keeps the length and order; any record whose id differs is kept, and each record whose id matches is replaced by its toggle |
| Photos.LikeByIdKeepsIds | src/app/page.tsx:141-153 | liking keeps every id in its position, so unique and ascending ids stay so |
| Photos.LikeByIdUnchanged | src/app/page.tsx:141-153 | liking leaves the list unchanged iff no record has the id |
| Photos.LikeByIdTwice | src/app/page.tsx:141-153 | liking twice restores every count and liked state, and every record whose flag was defined |
| Photos.LikeByIdInvolution | src/app/page.tsx:141-153 | when every flag is defined, liking twice gives back the list exactly |
| Photos.RemoveAfterLike | src/app/page.tsx:136-152 | deleting a photo after liking it gives the same list as deleting it directly |
| Photos.CountIdZero | src/app/page.tsx:136 | no record carries the id iff the count of such records is zero |
| Photos.ConsistentCountIsNonNegative | src/app/page.tsx:18 | in a list where every liked record has at least one like, every count is non-negative |
| Photos.ToggleLikeKeepsCountConsistent | src/app/page.tsx:144-148 | a toggle keeps "a liked record has at least one like", and the toggled count is non-negative |
| Photos.LikeByIdKeepsCountsConsistent | src/app/page.tsx:141-153 | liking keeps every record's count consistent with its flag |
| Photos.UploadKeepsCountsConsistent | src/app/page.tsx:119-127 | the uploaded record (zero likes, not liked) is consistent, and appending it keeps the whole list consistent |
| Photos.RemoveByIdKeepsCountsConsistent | src/app/page.tsx:136 | deleting keeps every remaining count consistent with its flag |
| Photos.SavedRecordCanGoNegative | src/app/page.tsx:144-148 | a saved record marked liked with zero likes toggles to `likes == -1`: no floor is applied |
| Photos.Defaults | src/app/page.tsx:40-89 | plain definition of the six seed records; `DefaultsShape` states their shape |
| Photos.Initial | src/app/page.tsx:36-40 | plain definition of the start-up choice: the saved list verbatim, else the defaults; the `GalleryPage` constructor states it |
| Photos.DefaultsShape | src/app/page.tsx:40-89 | the seed has six records with ids 1 to 6 in order (ascending, hence pairwise distinct), each unliked with a non-negative count, so every count is consistent with its flag |
| Photos.DefaultsUploadThenDelete | src/app/page.tsx:40-138 | from the six defaults, an upload gives seven records whose last is unliked with zero likes, and deleting it by its id gives back the six defaults in order |
| Gallery.GalleryPage.constructor | src/app/page.tsx:35-96 | start-up uses the saved list verbatim, or the six defaults when nothing is saved; afterwards nothing is pending, the prompt is closed, and the slot holds the list, so reloading gives the same list |
| Gallery.GalleryPage.Persist | src/app/page.tsx:94-96 | the mirror write makes the slot hold the current list |
| Gallery.GalleryPage.Upload | src/app/page.tsx:119-127 | the list becomes `AppendUpload` of the old list (its shape is stated by `UploadAppends`); the slot is updated and the delete state is untouched |
| Gallery.GalleryPage.DeleteClick | src/app/page.tsx:129-132 | the pending delete becomes `{id, title}`, the prompt opens and shows that title; the list and the slot are untouched |
| Gallery.GalleryPage.DialogTitle | src/app/page.tsx:197 | plain definition of the title the prompt shows: the pending title, or empty; `DeleteClick`, `CloseDeleteDialog` and `ConfirmInDialog` state its value after each transition |
| Gallery.GalleryPage.DeleteConfirm | src/app/page.tsx:134-139 | with nothing pending nothing changes; with a pending photo the list becomes the filter of that id, the pending photo is cleared, and the slot follows the list |
| Gallery.GalleryPage.CloseDeleteDialog | src/app/page.tsx:192-195 | closing sets the flag false and clears the pending photo (so the prompt title is empty), whether or not a delete happened; the list is untouched |
| Gallery.GalleryPage.ConfirmInDialog | src/app/components/DeleteConfirmDialog.tsx:53-57 | confirm then close: the list is filtered by the pending id if any, and the prompt ends closed with nothing pending and an empty title |
| Gallery.GalleryPage.Like | src/app/page.tsx:141-153 | the list becomes the like-map of the old one, the slot follows it, and the delete state is untouched |
| Gallery.DeleteFlow | src/app/page.tsx:129-138 | with unique ids, clicking delete on the record at position k and confirming removes exactly that record, keeps ids unique, closes the prompt, and leaves the slot holding the new list |
| Gallery.DefaultsScenario | src/app/page.tsx:35-138 | start with nothing saved, upload, then delete the upload: the page and its slot hold the six defaults again |
| Upload.WithinSizeLimit | src/app/components/UploadForm.tsx:27 | plain definition of the size gate; `SizeGateBoundary` and `ImageChanged` state its boundary |
| Upload.UploadForm.IsReady | src/app/components/UploadForm.tsx:72 | plain definition: title and description non-empty and an image selected; `Close`, `Completed` and `FillSubmitComplete` state its value |
| Upload.UploadForm.SubmitDisabled | src/app/components/UploadForm.tsx:154 | plain definition of the button's `disabled`: not ready or locked; the constructor, `RejectedFileKeepsFormEmpty` and `FillSubmitComplete` state its value |
| Upload.UploadForm.constructor | src/app/components/UploadForm.tsx:18-22 | the form starts empty, unlocked, and with submission disabled |
| Upload.UploadForm.SetTitle | src/app/components/UploadForm.tsx:100-103 | the title becomes the input's value, which is at most 50 characters |
| Upload.UploadForm.SetDescription | src/app/components/UploadForm.tsx:114-118 | the description becomes the input's value, which is at most 200 characters |
| Upload.UploadForm.ImageChanged | src/app/components/UploadForm.tsx:24-38 | no file: nothing changes; a file over 15 MiB is refused and leaves image and preview as they were; any other file (exactly 15 MiB included) becomes the image |
| Upload.UploadForm.PreviewLoaded | src/app/components/UploadForm.tsx:33-35 | the preview conversion's result becomes the preview |
| Upload.UploadForm.Submit | src/app/components/UploadForm.tsx:40-60 | with no image nothing changes and no upload starts; with an image a conversion starts that captures the current title, description and file, and the lock ends lowered |
| Upload.UploadForm.Close | src/app/components/UploadForm.tsx:62-68 | title, description and preview become empty and the image is dropped, so the form is not ready |
| Upload.UploadForm.Completed | src/app/components/UploadForm.tsx:46-53 | `onUpload` receives the captured title and description with the conversion result, and the form is reset and not ready |
| Upload.SizeGateBoundary | src/app/components/UploadForm.tsx:27 | a file passes the size gate iff its size is at most 15728640 bytes: exactly 15 MiB passes, one byte more does not |
| Upload.RejectedFileKeepsFormEmpty | src/app/components/UploadForm.tsx:24-30 | on a fresh form an oversized file is refused, the form stays without image or preview, and submission stays disabled |
| Upload.FillSubmitComplete | src/app/components/UploadForm.tsx:40-72 | filling in a title, a description and an accepted file, then submitting and completing, emits exactly those fields with the conversion result, and leaves the form empty with submission disabled |

## Left out

- Rendering, styling, animation, image components and icons: presentation only.
- The banner carousel and its previous/next navigation: the wrap-around lives in the carousel library, which is not part of this model.
- The photo preview overlay (`handlePhotoClick`, the preview's close handler) and the upload dialog's open flag on the page: visibility state for presentation. `UploadForm.Close` does not model the `onClose` callback into the page.
- The text encoding of the storage slot (`JSON.stringify`/`JSON.parse`) and the storage calls themselves: foreign calls. A malformed saved value, which would make start-up fail, is not modelled.
- The conversion of a file to a data URI: foreign and asynchronous. Its result is the opaque `result` string of `PreviewLoaded` and `Completed`.
- Upload.UploadForm.Submit: does not model the `try`/`catch` with its alert, nor the timing of the lock against the conversion callback. The model shows only the lock's value after the handler returns.
- Upload.UploadForm.ImageChanged: the alert shown for an oversized file is not modelled. The result `TooLarge` stands for it.
- Upload.UploadForm.SetTitle: `maxLength` counts UTF-16 code units, while the model counts Dafny characters.
- Upload.UploadForm.SetDescription: `maxLength` counts UTF-16 code units, while the model counts Dafny characters.
- The stateless confirmation prompt and preview components are not modelled as components. The prompt's confirm sequence is `ConfirmInDialog`.
- Gallery.GalleryPage.Persist: every write to the storage slot is assumed to succeed, so `Valid()` holds only under that assumption. In the page the write is not guarded: a list holding a large data URI can exceed the storage quota, the write then throws, and the slot keeps the previous list. The slot is also assumed to have this page as its only writer. In the browser the key is shared by every open tab of the site, and the page does not listen for other tabs' writes; another tab's mirror write replaces the slot's content, and a reload then shows that tab's list. `Valid()`, and the "reloading gives the same list" of the constructor and `DeleteFlow`, hold only when this page is the slot's only writer.
- Upload.UploadForm.PreviewLoaded: a failed or aborted read still completes, with a null result, and the form then sets its preview to null. The model's `result` string stands for either outcome.
- Upload.UploadForm.Completed: a failed or aborted read still completes, with a null result. The form then still hands the captured title and description with a null image to the upload handler and resets; the page appends a record whose image is null and mirrors it to storage. The error handler around the submit sees only errors thrown synchronously, so it never sees this case. The model's `result` string stands for either outcome.
- Gallery.GalleryPage.Upload: appends to the current list. In the page, the conversion's completion calls the upload handler of the render in which submit ran, so it appends to the list as it stood at submit; a like or delete made between submit and completion is then undone. The model does not capture that stale list.
