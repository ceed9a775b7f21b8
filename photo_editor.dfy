/** The application object: its three image fields and the crop gesture state
    are updated in place by one handler per button or canvas event. Every
    handler is proved to change the fields exactly as Session.Step says for
    its action, so the lemmas of module Session hold of any sequence of calls,
    and to keep the session invariant. The message box a handler shows is its
    returned Notice. */
module PhotoEditor {
  import opened Imaging
  import opened CropGeometry
  import Session

  /** The message box a handler ends with, if any. */
  datatype Notice =
    | Quiet            // no message box
    | NoFileSelected   // warning: the open dialog was cancelled
    | OpenFailed       // error: the file could not be opened
    | NoImageLoaded    // warning: an edit, crop or reset with nothing loaded
    | NoImageToSave    // warning: save with nothing loaded
    | SaveFailed       // error: the image could not be written
    | Saved(path: string) // information: the image was written to path
    | NothingToUndo    // warning: undo with at most one snapshot

  class PhotoEditorApp<Img> {
    const backend: Backend<Img>
    var image: Option<Img>
    var originalImage: Option<Img>
    var history: seq<Img>
    var cropStart: Option<Point>
    var cropArmed: bool  // the press and release handlers are bound to the canvas

    /** The fields as a session value. */
    function AsState(): Session.State<Img>
      reads this
    {
      Session.State(image, originalImage, history, cropStart, cropArmed)
    }

    ghost predicate Valid()
      reads this
    {
      Session.Valid(AsState())
    }

    /** A fresh window: nothing loaded, no history, no crop handlers bound. */
    constructor (backend: Backend<Img>)
      ensures Valid() && AsState() == Session.Initial() && this.backend == backend
    {
      this.backend := backend;
      image := None;
      originalImage := None;
      history := [];
      cropStart := None;
      cropArmed := false;
    }

    /** Open: the dialog and the decoder are one outcome. On success the
        history is cleared and holds an unfitted copy, the original is another
        copy, and only the shown image is fitted to the canvas. */
    method OpenImage(outcome: OpenOutcome<Img>, view: Size) returns (notice: Notice)
      requires Valid()
      modifies this
      ensures Valid() && AsState() == Session.Step(backend, old(AsState()), Session.Open(outcome, view))
      ensures notice == match outcome
                        case NoFileChosen => NoFileSelected
                        case DecodeFailed => OpenFailed
                        case Decoded(_) => Quiet
    {
      match outcome
      case NoFileChosen =>
        notice := NoFileSelected;
      case DecodeFailed =>
        notice := OpenFailed;
      case Decoded(img) =>
        image := Some(img);
        originalImage := Some(img);
        history := [];
        history := history + [img];
        ResizeImageToFitCanvas(view);
        notice := Quiet;
    }

    /** Shrinks the shown image to the canvas, in place. */
    method ResizeImageToFitCanvas(view: Size)
      requires image.Some?
      modifies this`image
      ensures image == Some(backend.thumbnail(old(image).value, view))
    {
      image := Some(backend.thumbnail(image.value, view));
    }

    /** Pushes a copy of the shown image onto the history, if there is one. */
    method SaveState()
      modifies this`history
      ensures AsState() == Session.SaveState(old(AsState()))
      ensures image.Some? ==> history == old(history) + [image.value]
    {
      if image.Some? {
        history := history + [image.value];
      }
    }

    method IncreaseBrightness() returns (notice: Notice)
      requires Valid()
      modifies this
      ensures Valid() && AsState() == Session.Step(backend, old(AsState()), Session.Brighten)
      ensures notice == if old(image).Some? then Quiet else NoImageLoaded
    {
      if image.Some? {
        SaveState();
        image := Some(backend.brighten(image.value));
        notice := Quiet;
      } else {
        notice := NoImageLoaded;
      }
    }

    method IncreaseContrast() returns (notice: Notice)
      requires Valid()
      modifies this
      ensures Valid() && AsState() == Session.Step(backend, old(AsState()), Session.Contrast)
      ensures notice == if old(image).Some? then Quiet else NoImageLoaded
    {
      if image.Some? {
        SaveState();
        image := Some(backend.contrast(image.value));
        notice := Quiet;
      } else {
        notice := NoImageLoaded;
      }
    }

    method RotateImage(view: Size) returns (notice: Notice)
      requires Valid()
      modifies this
      ensures Valid() && AsState() == Session.Step(backend, old(AsState()), Session.Rotate(view))
      ensures notice == if old(image).Some? then Quiet else NoImageLoaded
    {
      if image.Some? {
        SaveState();
        image := Some(backend.rotate90(image.value));
        ResizeImageToFitCanvas(view);
        notice := Quiet;
      } else {
        notice := NoImageLoaded;
      }
    }

    method ConvertGrayscale(view: Size) returns (notice: Notice)
      requires Valid()
      modifies this
      ensures Valid() && AsState() == Session.Step(backend, old(AsState()), Session.Grayscale(view))
      ensures notice == if old(image).Some? then Quiet else NoImageLoaded
    {
      if image.Some? {
        SaveState();
        image := Some(backend.grayscale(image.value));
        ResizeImageToFitCanvas(view);
        notice := Quiet;
      } else {
        notice := NoImageLoaded;
      }
    }

    method FlipImage(view: Size) returns (notice: Notice)
      requires Valid()
      modifies this
      ensures Valid() && AsState() == Session.Step(backend, old(AsState()), Session.Flip(view))
      ensures notice == if old(image).Some? then Quiet else NoImageLoaded
    {
      if image.Some? {
        SaveState();
        image := Some(backend.mirror(image.value));
        ResizeImageToFitCanvas(view);
        notice := Quiet;
      } else {
        notice := NoImageLoaded;
      }
    }

    /** The crop button pushes the shown image before anything has changed and
        binds the press and release handlers; they stay bound from then on. */
    method CropImage() returns (notice: Notice)
      requires Valid()
      modifies this
      ensures Valid() && AsState() == Session.Step(backend, old(AsState()), Session.Crop)
      ensures notice == if old(image).Some? then Quiet else NoImageLoaded
    {
      if image.Some? {
        SaveState();
        cropArmed := true;
        notice := Quiet;
      } else {
        notice := NoImageLoaded;
      }
    }

    /** A press on the canvas; it reaches the handler only once it is bound. */
    method OnCropStart(event: Point)
      requires Valid()
      modifies this
      ensures Valid() && AsState() == Session.Step(backend, old(AsState()), Session.Press(event))
    {
      if cropArmed {
        cropStart := Some(event);
      }
    }

    /** A release on the canvas: with the handler bound and a press seen, the
        shown image is replaced by its fitted crop. Nothing is pushed, and the
        press position is not cleared. */
    method OnCropEnd(event: Point, view: Size)
      requires Valid()
      modifies this
      ensures Valid() && AsState() == Session.Step(backend, old(AsState()), Session.Release(event, view))
    {
      if cropArmed && cropStart.Some? {
        var box := CropBox(cropStart.value, event);
        image := Some(backend.crop(image.value, box));
        ResizeImageToFitCanvas(view);
      }
    }

    method ResetImage(view: Size) returns (notice: Notice)
      requires Valid()
      modifies this
      ensures Valid() && AsState() == Session.Step(backend, old(AsState()), Session.Reset(view))
      ensures notice == if old(originalImage).Some? then Quiet else NoImageLoaded
    {
      if originalImage.Some? {
        image := originalImage;
        ResizeImageToFitCanvas(view);
        notice := Quiet;
      } else {
        notice := NoImageLoaded;
      }
    }

    /** Save: the dialog and the encoder are one outcome; the session is never
        changed, and a cancelled dialog shows nothing. */
    method SaveImage(outcome: SaveOutcome) returns (notice: Notice)
      ensures AsState() == Session.Step(backend, AsState(), Session.Save(outcome))
      ensures image.None? ==> notice == NoImageToSave
      ensures image.Some? ==> notice == match outcome
                                        case NoPathChosen => Quiet
                                        case WriteFailed => SaveFailed
                                        case Written(path) => Saved(path)
    {
      if image.None? {
        notice := NoImageToSave;
      } else {
        match outcome
        case NoPathChosen =>
          notice := Quiet;
        case WriteFailed =>
          notice := SaveFailed;
        case Written(path) =>
          notice := Saved(path);
      }
    }

    /** Undo pops the last snapshot and shows the one now on top. */
    method Undo() returns (notice: Notice)
      requires Valid()
      modifies this
      ensures Valid() && AsState() == Session.Step(backend, old(AsState()), Session.Undo)
      ensures notice == if |old(history)| > 1 then Quiet else NothingToUndo
    {
      if |history| > 1 {
        history := history[..|history| - 1];
        image := Some(history[|history| - 1]);
        notice := Quiet;
      } else {
        notice := NothingToUndo;
      }
    }
  }
}
