/** The upload dialog's form state and its handlers. The selected file is an
    abstract record (its name and byte size); the two file conversions to a
    data URI are abstract completion events that carry the resulting text. */
module Upload {
  import opened Photos

  /** 15 MiB: the largest file the change handler keeps. */
  const MaxImageBytes: nat := 15 * 1024 * 1024
  const MaxTitleLength: nat := 50
  const MaxDescriptionLength: nat := 200

  datatype File = File(name: string, size: nat)

  /** How a file-picker change ended. */
  datatype ImageChange = NoFile | TooLarge | Accepted

  /** A conversion started by a submit, with the title and description the
      submit handler saw; its completion callback uploads these values. */
  datatype Submission = Submission(title: string, description: string, file: File)

  /** The size gate: the comparison is strict, so exactly 15 MiB passes. */
  predicate WithinSizeLimit(size: nat) {
    !(size > MaxImageBytes)
  }

  class UploadForm {
    var title: string
    var description: string
    var image: Option<File>
    var preview: string
    var isSubmitting: bool

    /** The text inputs' `maxLength` bounds. */
    ghost predicate Valid()
      reads this
    {
      |title| <= MaxTitleLength && |description| <= MaxDescriptionLength
    }

    constructor ()
      ensures Valid()
      ensures title == "" && description == "" && image == None && preview == "" && !isSubmitting
      ensures SubmitDisabled()
    {
      title := "";
      description := "";
      image := None;
      preview := "";
      isSubmitting := false;
    }

    /** Both text fields are non-empty and an image is selected. */
    predicate IsReady()
      reads this
    {
      title != "" && description != "" && image.Some?
    }

    /** The submit button's `disabled` attribute. */
    predicate SubmitDisabled()
      reads this
    {
      !IsReady() || isSubmitting
    }

    /** The title input's change handler; the input never yields more than
        its `maxLength`. */
    method SetTitle(t: string)
      requires Valid() && |t| <= MaxTitleLength
      modifies this`title
      ensures Valid() && title == t
    {
      title := t;
    }

    method SetDescription(d: string)
      requires Valid() && |d| <= MaxDescriptionLength
      modifies this`description
      ensures Valid() && description == d
    {
      description := d;
    }

    /** `handleImageChange` with the picker's first file, if any. An
        oversized file is refused with an alert and nothing changes; an
        accepted file becomes the image and its preview conversion starts
        (its completion is `PreviewLoaded`). */
    method ImageChanged(file: Option<File>) returns (outcome: ImageChange)
      requires Valid()
      modifies this`image
      ensures Valid()
      ensures file.None? ==> outcome == NoFile
      ensures file.Some? && file.value.size > MaxImageBytes ==> outcome == TooLarge
      ensures file.Some? && file.value.size <= MaxImageBytes ==> outcome == Accepted
      ensures image == if outcome == Accepted then file else old(image)
    {
      match file
      case None =>
        outcome := NoFile;
      case Some(f) =>
        if !WithinSizeLimit(f.size) {
          outcome := TooLarge;
          return;
        }
        image := Some(f);
        outcome := Accepted;
    }

    /** Completion of the preview conversion: the data URI becomes the preview. */
    method PreviewLoaded(result: string)
      requires Valid()
      modifies this`preview
      ensures Valid() && preview == result
    {
      preview := result;
    }

    /** `handleSubmit`. Without an image it returns at once and changes
        nothing. With one it raises the lock, starts the conversion, and the
        `finally` block lowers the lock again before the handler returns;
        the conversion in flight is returned. */
    method Submit() returns (started: Option<Submission>)
      requires Valid()
      modifies this`isSubmitting
      ensures Valid()
      ensures old(image).None? ==> started == None && isSubmitting == old(isSubmitting)
      ensures old(image).Some? ==>
        && started == Some(Submission(title, description, image.value))
        && !isSubmitting
    {
      if image == None {
        return None;
      }
      isSubmitting := true;
      started := Some(Submission(title, description, image.value));
      isSubmitting := false;
    }

    /** `handleClose`: empty the fields and drop the image. The lock is not
        touched; `onClose` belongs to the page. */
    method Close()
      requires Valid()
      modifies this`title, this`description, this`image, this`preview
      ensures Valid()
      ensures title == "" && description == "" && image == None && preview == ""
      ensures !IsReady()
    {
      title := "";
      description := "";
      image := None;
      preview := "";
    }

    /** Completion of a submit's conversion with the data URI `result`: hand
        the captured title and description with `result` to `onUpload`, then
        reset the form. */
    method Completed(s: Submission, result: string) returns (upload: NewUpload)
      requires Valid()
      modifies this`title, this`description, this`image, this`preview
      ensures Valid()
      ensures upload == NewUpload(s.title, s.description, result)
      ensures title == "" && description == "" && image == None && preview == ""
      ensures !IsReady()
    {
      upload := NewUpload(s.title, s.description, result);
      Close();
    }
  }

  /** The size gate is exactly "at most 15 MiB". */
  lemma SizeGateBoundary(size: nat)
    ensures WithinSizeLimit(size) <==> size <= 15728640
    ensures WithinSizeLimit(15728640) && !WithinSizeLimit(15728641)
  {
  }

  /** From a fresh form, an oversized file leaves the form empty, so the
      submit button stays disabled and a submit would do nothing. */
  method RejectedFileKeepsFormEmpty(f: File) returns (form: UploadForm, outcome: ImageChange)
    requires f.size > MaxImageBytes
    ensures outcome == TooLarge
    ensures form.image == None && form.preview == "" && form.SubmitDisabled()
  {
    form := new UploadForm();
    outcome := form.ImageChanged(Some(f));
  }

  /** Filling the form with fields within their bounds and an accepted file
      enables the button; submitting and completing emits those fields with the
      conversion result, and leaves the form empty and disabled. */
  method FillSubmitComplete(t: string, d: string, f: File, result: string)
    returns (form: UploadForm, upload: Option<NewUpload>)
    requires 0 < |t| <= MaxTitleLength && 0 < |d| <= MaxDescriptionLength
    requires f.size <= MaxImageBytes
    ensures upload == Some(NewUpload(t, d, result))
    ensures form.title == "" && form.description == "" && form.image == None && form.preview == ""
    ensures form.SubmitDisabled()
  {
    form := new UploadForm();
    form.SetTitle(t);
    form.SetDescription(d);
    var outcome := form.ImageChanged(Some(f));
    assert form.IsReady() && !form.SubmitDisabled();
    var started := form.Submit();
    assert started.Some?;
    var u := form.Completed(started.value, result);
    upload := Some(u);
  }
}
