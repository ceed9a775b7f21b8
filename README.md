# Photo editor session model

A Dafny model of the editing session of `photo-editor.py`, a Tkinter photo
editor built on Pillow. The application object `PhotoEditorApp` keeps the
shown image, the image as originally decoded, and a history list used as a
stack of whole-image snapshots. One handler per button (open, brightness,
contrast, rotate, grayscale, flip, crop, undo, reset, save) and per canvas
event (crop press, crop release) updates those fields in place.

Files:

- `imaging.dfy` (module `Imaging`): the collaborators. Images are an opaque
  type parameter `Img`. Every Pillow operation is a field of a `Backend`
  value: brighten, contrast, rotate90, grayscale, mirror, crop, thumbnail.
  Nothing is assumed about what these functions compute, so every result
  holds whatever images they return. A Pillow call that raises is not
  represented (see "## Left out"). The open and save dialogs, together with
  decoding and encoding, are reduced to an outcome value that the handler
  receives.
- `crop_geometry.dfy` (module `CropGeometry`): the crop box computed from the
  press point and the release point.
- `session.dfy` (module `Session`): the session as a value (`State`), one
  `Action` per handler, `Step` (the effect of one action), `Run` (a
  sequence of actions), and the invariant `Valid`. The lemmas about
  sequences of actions are here.
- `photo_editor.dfy` (module `PhotoEditor`): the class `PhotoEditorApp` with
  the source's fields and one method per handler. Each handler method is
  proved to leave the fields equal to `Session.Step` of the old fields; the
  ones that change fields are also proved to keep `Valid`. The helpers
  `SaveState` and `ResizeImageToFitCanvas` are specified by their own
  contracts instead. Each handler returns the message box it shows as a `Notice`, so the
  warning and error paths are part of its contract.

The model reproduces these behaviours of the code as they are:

- Undo lands two edits back. An edit pushes the image it started from. Undo
  pops the top entry and then shows the entry below it. So after two edits,
  one undo shows the image from before the first edit
  (`Session.UndoLandsTwoEditsBack`).
- The history is unfitted. Open stores the decoded image unfitted in the
  history and in the original. Only the shown image is fitted. Undoing back
  to the start therefore shows the unfitted image (`Session.UndoBackToStart`).
  Reset, by contrast, refits (`Session.ResetAfterEdits`).
- The crop button pushes a snapshot before anything has changed. The release
  handler replaces the image without pushing (`Session.CropGesture`).
- Reset leaves the history alone (`Session.ResetEffect`).
- The gesture state is never cleared. `crop_rect` is never initialised, so the
  drag handler and the release handler both raise before they clear anything.
  The press position therefore survives a crop. The canvas bindings are never
  removed either (`cropArmed` stays true). Later releases crop again without
  pushing.

Three further points about the code:

- Lines 179-180 of `on_crop_end` would clear the gesture, but line 178 raises
  first, so they never run. The press position stays recorded and the canvas
  bindings stay in place.
- The top history entry is the image from before the last edit, not the
  shown image. No invariant ties the top entry to the shown image.
- One undo removes exactly one snapshot from the history, while the shown
  image lands two edits back.

`Valid` is the invariant every handler keeps:

- the image and the original are set together (that no action clears them
  once set is stated separately, by `Session.StepKeepsLoaded` and
  `Session.RunKeepsLoaded`);
- the history is non-empty exactly when an image is loaded;
- the bottom of the history is always the original;
- the crop handlers are bound only when an image is loaded;
- a press position is recorded only once the handlers are bound.

## Model

| member | source | states |
|---|---|---|
| CropGeometry.CropBox | photo-editor.py:169-174 | the box is ordered (left ≤ right, top ≤ bottom), contains both pointer positions, and each edge lies on one of them, i.e. it is the per-axis min/max bounding box |
| CropGeometry.CropBoxSymmetric | photo-editor.py:169-174 | swapping press and release points gives the same box |
| CropGeometry.CropBoxReversedCorners | photo-editor.py:169-174 | a drag from (50,50) to (10,10) and one from (10,10) to (50,50) both give the box (10,10,50,50) |
| Session.Step | photo-editor.py:58-216 | carries no contract of its own: it is the reference definition of every handler's effect, and each handler method of the class is proved to leave its fields equal to it |
| Session.SaveState | photo-editor.py:214-216 | carries no contract of its own: it appends the current image when one is loaded; the class method SaveState is proved equal to it |
| Session.Edited | photo-editor.py:103-104 | carries no contract of its own: the image each edit button produces (lines 103-104, 112-113, 121-122, 130-131, 139-140): enhancement without refit, or rotate/grayscale/mirror followed by the thumbnail |
| Session.InitialValid | photo-editor.py:12-14 | the start-up session (nothing loaded, empty history) satisfies the session invariant |
| Session.StepPreservesValid | photo-editor.py:65-216 | every handler keeps the session invariant, including that the bottom of the history is the original |
| Session.RunPreservesValid | photo-editor.py:65-216 | any sequence of handler calls keeps the session invariant |
| Session.StepKeepsLoaded | photo-editor.py:65-216 | once an image is loaded, every action (including undo, reset, save, a crop release and a failed open) leaves an image, an original and a non-empty history |
| Session.RunKeepsLoaded | photo-editor.py:65-216 | any sequence of actions on a loaded session leaves it loaded: image, original and a non-empty history |
| Session.OpenEffect | photo-editor.py:65-79 | a decoded file sets history to exactly [decoded], original to decoded and image to the fitted decoded image; a cancelled dialog or a decode failure changes nothing; the crop gesture state is untouched |
| Session.PushingStep | photo-editor.py:100-152 | on a loaded image, brightness, contrast, rotate, grayscale, flip and crop append exactly the pre-edit image to the history, keep the earlier entries and the original, and leave the image unchanged for crop or set it to the edit's result otherwise |
| Session.NothingLoadedNothingChanges | photo-editor.py:100-212 | with no image loaded, every action except open leaves the whole session unchanged |
| Session.UndoEffect | photo-editor.py:206-212 | with at most one snapshot undo changes nothing; otherwise the history shrinks by one, keeps its prefix, the image becomes the new top entry, and nothing else changes |
| Session.ResetEffect | photo-editor.py:182-188 | reset sets the image to the fitted original and changes nothing else; with no original it changes nothing |
| Session.ReleaseEffect | photo-editor.py:166-177 | a release never changes the history, the original or the gesture state; after a press it sets the image to the fitted crop of the image by the normalised box |
| Session.CropGesture | photo-editor.py:145-177 | crop button, press, release: the button pushes the unchanged image, the release installs the fitted crop without pushing, and the press position stays recorded |
| Session.EditThenUndo | photo-editor.py:206-216 | an edit followed by an undo restores the history and shows the snapshot then on top |
| Session.UndoLandsTwoEditsBack | photo-editor.py:206-216 | after two edits, one undo shows the image from before the first edit and leaves the history as it was after the first edit |
| Session.PushesGrowHistory | photo-editor.py:214-216 | N pushing edits on a loaded image grow the history by exactly N, keep the old history as a prefix, keep the original, and put the starting image right above the old entries |
| Session.UndosRestoreHistory | photo-editor.py:206-212 | n undos on a history that extends a non-empty prefix by n entries bring the history back to that prefix and show its top entry |
| Session.UndoBackToStart | photo-editor.py:65-216 | after an open and N edits the history has N+1 entries; N undos leave history [decoded] and, for N > 0, show the unfitted decoded image; a further undo changes nothing |
| Session.UndoBackToStartInOneRun | photo-editor.py:65-216 | the same undo-back-to-start facts, stated of the open, the N edits and the N undos composed as a single run of actions |
| Session.OriginalSurvives | photo-editor.py:65-79 | actions other than a successful open never change the original |
| Session.ResetAfterEdits | photo-editor.py:182-188 | after an open and any actions that open no other file, reset shows the same image as right after the open (same canvas size) and leaves the history untouched |
| PhotoEditor.PhotoEditorApp.constructor | photo-editor.py:12-14 | a new editor has no image, no original, an empty history and no crop handlers bound |
| PhotoEditor.PhotoEditorApp.OpenImage | photo-editor.py:58-79 | the fields become Step of Open; notice is the no-file warning, the open error, or none |
| PhotoEditor.PhotoEditorApp.ResizeImageToFitCanvas | photo-editor.py:81-86 | the image becomes its thumbnail for the current canvas size |
| PhotoEditor.PhotoEditorApp.SaveState | photo-editor.py:214-216 | with an image loaded, the history becomes the old history plus that image; otherwise nothing changes |
| PhotoEditor.PhotoEditorApp.IncreaseBrightness | photo-editor.py:100-107 | the fields become Step of Brighten (push, then brighten without refit); warns when nothing is loaded |
| PhotoEditor.PhotoEditorApp.IncreaseContrast | photo-editor.py:109-116 | the fields become Step of Contrast (push, then contrast without refit); warns when nothing is loaded |
| PhotoEditor.PhotoEditorApp.RotateImage | photo-editor.py:118-125 | the fields become Step of Rotate (push, rotate, refit); warns when nothing is loaded |
| PhotoEditor.PhotoEditorApp.ConvertGrayscale | photo-editor.py:127-134 | the fields become Step of Grayscale (push, convert, refit); warns when nothing is loaded |
| PhotoEditor.PhotoEditorApp.FlipImage | photo-editor.py:136-143 | the fields become Step of Flip (push, mirror, refit); warns when nothing is loaded |
| PhotoEditor.PhotoEditorApp.CropImage | photo-editor.py:145-152 | the fields become Step of Crop (push the unchanged image, bind the handlers); warns when nothing is loaded |
| PhotoEditor.PhotoEditorApp.OnCropStart | photo-editor.py:154-155 | once the handlers are bound, the press position is recorded; otherwise nothing changes |
| PhotoEditor.PhotoEditorApp.OnCropEnd | photo-editor.py:166-177 | the fields become Step of Release: after a press, the image becomes the fitted crop by the normalised box, with no push |
| PhotoEditor.PhotoEditorApp.ResetImage | photo-editor.py:182-188 | the fields become Step of Reset; warns when there is no original |
| PhotoEditor.PhotoEditorApp.SaveImage | photo-editor.py:190-204 | changes no field (the fields equal Step of Save); notice is the no-image warning, nothing for a cancelled dialog, the save error, or the success message with the path |
| PhotoEditor.PhotoEditorApp.Undo | photo-editor.py:206-212 | the fields become Step of Undo; warns when there is at most one snapshot |

## Left out

- Widget construction, layout, button styling and the main loop (photo-editor.py:6-56, 219-221): UI only.
- `display_image` (photo-editor.py:88-98): it renders to the canvas and changes no session field. Its error box is not modelled.
- Dialogs and message boxes: each dialog, together with decoding or encoding, is one outcome argument. Each message box is the handler's returned `Notice`. Message text and the exception text in it are not modelled.
- Session.Step, Session.PushingStep: a Pillow call that raises is not modelled. Each edit handler pushes a snapshot (lines 102, 111, 120, 129, 138) before its Pillow call, with no `try` around the call. A call that raises therefore leaves a duplicate snapshot and the shown image unchanged; the same holds for the crop and thumbnail calls at lines 175-176. The model treats every Pillow call as returning an image, so this push-without-change path is absent.
- Pillow's pixel algorithms are uninterpreted: the enhancement factors 1.2 and 1.3, rotation, grayscale, mirror, crop and thumbnail. No claim is made about dimensions or pixels. In particular, neither four rotations restoring the dimensions nor grayscale being idempotent is stated.
- The canvas size used by the thumbnail is an argument of each handler that fits. Tkinter's window geometry is not modelled.
- The drag handler `on_crop_drag` and the red rectangle (photo-editor.py:157-164, 178-180): it always raises before drawing (`crop_rect` is never initialised) and changes no modelled field.
- Partial failure inside the `try` of `open_image` after `Image.open` succeeds (photo-editor.py:67-74): decoding is modelled as all-or-nothing.
- Object identity: `undo` makes the shown image the same object as the top history entry. No later handler mutates that object in place (thumbnail only runs on freshly created images), so images are modelled as values.
- Truthiness of a Pillow image: `if self.image:` is modelled as "an image is loaded".
