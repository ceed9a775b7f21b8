/** The editor session as a value: the current image, the image captured at
    load time, the stack of snapshots used by undo, and the state of the crop
    gesture. Step gives the effect of each user action; the class in module
    PhotoEditor is proved to change its fields exactly as Step says, and the
    lemmas below state what sequences of actions do. */
module Session {
  import opened Imaging
  import opened CropGeometry

  datatype State<Img> = State(
    image: Option<Img>,       // the image shown on the canvas
    original: Option<Img>,    // the image as decoded, kept for reset
    history: seq<Img>,        // snapshots, oldest first; undo pops the last
    cropStart: Option<Point>, // where the pointer was last pressed, once it has been
    cropArmed: bool           // whether the crop handlers are bound to the canvas
  )

  /** The session as the application starts: nothing loaded, nothing bound. */
  function Initial<Img>(): State<Img> {
    State(None, None, [], None, false)
  }

  /** One user action: a button, a pointer event on the canvas, or the
      outcome of a dialog. Actions that fit the image to the canvas carry the
      canvas size at that moment. */
  datatype Action<Img> =
    | Open(outcome: OpenOutcome<Img>, view: Size)
    | Brighten
    | Contrast
    | Rotate(view: Size)
    | Grayscale(view: Size)
    | Flip(view: Size)
    | Crop
    | Press(at: Point)
    | Release(at: Point, view: Size)
    | Reset(view: Size)
    | Save(saved: SaveOutcome)
    | Undo

  /** The actions that first push the current image onto the history. */
  predicate Pushes<Img>(a: Action<Img>) {
    a.Brighten? || a.Contrast? || a.Rotate? || a.Grayscale? || a.Flip? || a.Crop?
  }

  /** The actions after which the original image is still the same one. */
  predicate KeepsOriginal<Img>(a: Action<Img>) {
    !(a.Open? && a.outcome.Decoded?)
  }

  /** What holds of every reachable session: the three image fields are set
      together by a successful open (StepKeepsLoaded states that no action
      clears them afterwards); the bottom of the
      history is always the image as decoded; the crop handlers are bound
      only once an image is loaded, and a press is seen only once they are. */
  ghost predicate Valid<Img>(s: State<Img>) {
    && (s.image.Some? <==> s.original.Some?)
    && (s.image.Some? <==> |s.history| >= 1)
    && (|s.history| >= 1 ==> s.original == Some(s.history[0]))
    && (s.cropArmed ==> s.image.Some?)
    && (s.cropStart.Some? ==> s.cropArmed)
  }

  /** Pushes a snapshot of the current image, if there is one. */
  function SaveState<Img>(s: State<Img>): State<Img> {
    if s.image.Some? then s.(history := s.history + [s.image.value]) else s
  }

  /** The image an edit button produces from the current one: the
      enhancements are not refitted, the geometric edits and grayscale are. */
  function Edited<Img>(be: Backend<Img>, a: Action<Img>, img: Img): Img
    requires Pushes(a) && !a.Crop?
  {
    match a
    case Brighten => be.brighten(img)
    case Contrast => be.contrast(img)
    case Rotate(view) => be.thumbnail(be.rotate90(img), view)
    case Grayscale(view) => be.thumbnail(be.grayscale(img), view)
    case Flip(view) => be.thumbnail(be.mirror(img), view)
  }

  /** The effect of one action on the session. */
  function Step<Img>(be: Backend<Img>, s: State<Img>, a: Action<Img>): State<Img> {
    match a
    case Open(outcome, view) =>
      if outcome.Decoded? then
        s.(image := Some(be.thumbnail(outcome.img, view)), original := Some(outcome.img),
           history := [outcome.img])
      else s
    case Brighten | Contrast | Rotate(_) | Grayscale(_) | Flip(_) =>
      if s.image.Some? then SaveState(s).(image := Some(Edited(be, a, s.image.value))) else s
    case Crop =>
      if s.image.Some? then SaveState(s).(cropArmed := true) else s
    case Press(p) =>
      if s.cropArmed then s.(cropStart := Some(p)) else s
    case Release(q, view) =>
      if s.cropArmed && s.cropStart.Some? && s.image.Some? then
        s.(image := Some(be.thumbnail(be.crop(s.image.value, CropBox(s.cropStart.value, q)), view)))
      else s
    case Reset(view) =>
      if s.original.Some? then s.(image := Some(be.thumbnail(s.original.value, view))) else s
    case Save(_) => s
    case Undo =>
      if |s.history| > 1 then
        var rest := s.history[..|s.history| - 1];
        s.(history := rest, image := Some(rest[|rest| - 1]))
      else s
  }

  /** The session after the actions, in order. */
  function Run<Img>(be: Backend<Img>, s: State<Img>, acts: seq<Action<Img>>): State<Img>
    decreases |acts|
  {
    if acts == [] then s else Run(be, Step(be, s, acts[0]), acts[1..])
  }

  /** n presses of the undo button. */
  function Undos<Img>(n: nat): (acts: seq<Action<Img>>)
    ensures |acts| == n && forall i :: 0 <= i < n ==> acts[i] == Undo
  {
    if n == 0 then [] else [Undo] + Undos(n - 1)
  }

  // ---------------------------------------------------------------------------
  // The session invariant

  lemma InitialValid<Img>()
    ensures Valid(Initial<Img>())
  {
  }

  lemma StepPreservesValid<Img>(be: Backend<Img>, s: State<Img>, a: Action<Img>)
    requires Valid(s)
    ensures Valid(Step(be, s, a))
  {
  }

  lemma {:induction false} RunPreservesValid<Img>(be: Backend<Img>, s: State<Img>, acts: seq<Action<Img>>)
    requires Valid(s)
    ensures Valid(Run(be, s, acts))
    decreases |acts|
  {
    if acts != [] {
      StepPreservesValid(be, s, acts[0]);
      RunPreservesValid(be, Step(be, s, acts[0]), acts[1..]);
    }
  }

  /** Once an image is loaded, no action unloads it: the image, the original
      and a non-empty history stay present. */
  lemma StepKeepsLoaded<Img>(be: Backend<Img>, s: State<Img>, a: Action<Img>)
    requires Valid(s) && s.image.Some?
    ensures var r := Step(be, s, a); r.image.Some? && r.original.Some? && |r.history| >= 1
  {
  }

  lemma {:induction false} RunKeepsLoaded<Img>(be: Backend<Img>, s: State<Img>, acts: seq<Action<Img>>)
    requires Valid(s) && s.image.Some?
    ensures var r := Run(be, s, acts); r.image.Some? && r.original.Some? && |r.history| >= 1
    decreases |acts|
  {
    if acts != [] {
      StepPreservesValid(be, s, acts[0]);
      StepKeepsLoaded(be, s, acts[0]);
      RunKeepsLoaded(be, Step(be, s, acts[0]), acts[1..]);
    }
  }

  lemma {:induction false} RunAppend<Img>(be: Backend<Img>, s: State<Img>, xs: seq<Action<Img>>, ys: seq<Action<Img>>)
    ensures Run(be, s, xs + ys) == Run(be, Run(be, s, xs), ys)
    decreases |xs|
  {
    if xs == [] {
      assert xs + ys == ys;
    } else {
      assert (xs + ys)[0] == xs[0];
      assert (xs + ys)[1..] == xs[1..] + ys;
      RunAppend(be, Step(be, s, xs[0]), xs[1..], ys);
    }
  }

  // ---------------------------------------------------------------------------
  // Single actions

  /** Opening a file that decodes replaces the whole image state: the history
      holds only the decoded image, unfitted, and only the shown image is
      fitted. A cancelled dialog or a decoding error changes nothing. */
  lemma OpenEffect<Img>(be: Backend<Img>, s: State<Img>, outcome: OpenOutcome<Img>, view: Size)
    ensures var r := Step(be, s, Open(outcome, view));
      && (outcome.Decoded? ==>
            r.history == [outcome.img] && r.original == Some(outcome.img)
            && r.image == Some(be.thumbnail(outcome.img, view)))
      && (!outcome.Decoded? ==> r == s)
      && r.cropStart == s.cropStart && r.cropArmed == s.cropArmed
  {
  }

  /** An edit on a loaded image pushes exactly the image it started from and
      leaves the earlier snapshots and the original alone. */
  lemma PushingStep<Img>(be: Backend<Img>, s: State<Img>, a: Action<Img>)
    requires s.image.Some? && Pushes(a)
    ensures var r := Step(be, s, a);
      && r.history == s.history + [s.image.value]
      && r.original == s.original
      && r.image == (if a.Crop? then s.image else Some(Edited(be, a, s.image.value)))
      && r.cropArmed == (s.cropArmed || a.Crop?)
      && r.cropStart == s.cropStart
  {
  }

  /** With no image loaded only opening a file has any effect: every edit,
      the crop button, reset, save, undo and the pointer events change
      nothing. */
  lemma NothingLoadedNothingChanges<Img>(be: Backend<Img>, s: State<Img>, a: Action<Img>)
    requires Valid(s) && s.image.None? && !a.Open?
    ensures Step(be, s, a) == s
  {
  }

  /** Undo with at most one snapshot is refused; otherwise it drops the last
      snapshot and shows the one below it, keeping all other fields. */
  lemma UndoEffect<Img>(be: Backend<Img>, s: State<Img>)
    ensures var r := Step(be, s, Undo);
      && (|s.history| <= 1 ==> r == s)
      && (|s.history| > 1 ==>
            && |r.history| == |s.history| - 1
            && r.history <= s.history
            && r.image == Some(r.history[|r.history| - 1])
            && r.original == s.original && r.cropStart == s.cropStart && r.cropArmed == s.cropArmed)
  {
  }

  /** Reset shows the fitted original and leaves the history, the original and
      the crop gesture alone; with nothing loaded it changes nothing. */
  lemma ResetEffect<Img>(be: Backend<Img>, s: State<Img>, view: Size)
    ensures var r := Step(be, s, Reset(view));
      && (s.original.None? ==> r == s)
      && (s.original.Some? ==> r == s.(image := Some(be.thumbnail(s.original.value, view))))
  {
  }

  /** Releasing the pointer never touches the history; with the handlers
      bound after a press it shows the fitted crop of the current image. The
      press position is kept, so a later release crops again from it. */
  lemma ReleaseEffect<Img>(be: Backend<Img>, s: State<Img>, q: Point, view: Size)
    requires Valid(s)
    ensures var r := Step(be, s, Release(q, view));
      && r.history == s.history && r.original == s.original
      && r.cropStart == s.cropStart && r.cropArmed == s.cropArmed
      && (s.cropStart.Some? ==>
            r.image == Some(be.thumbnail(be.crop(s.image.value, CropBox(s.cropStart.value, q)), view)))
      && (s.cropStart.None? ==> r == s)
  {
  }

  /** The whole crop gesture on a loaded image: the button pushes the image
      although nothing has changed yet, the press records its position, and
      the release replaces the image with the fitted crop without pushing. */
  lemma CropGesture<Img>(be: Backend<Img>, s: State<Img>, p: Point, q: Point, view: Size)
    requires s.image.Some?
    ensures var armed := Step(be, s, Crop);
      var r := Run(be, s, [Crop, Press(p), Release(q, view)]);
      && armed.image == s.image && armed.history == s.history + [s.image.value]
      && r.history == armed.history && r.original == s.original
      && r.image == Some(be.thumbnail(be.crop(s.image.value, CropBox(p, q)), view))
      && r.cropArmed && r.cropStart == Some(p)
  {
    var armed := Step(be, s, Crop);
    var pressed := Step(be, armed, Press(p));
    assert Run(be, s, [Crop, Press(p), Release(q, view)]) == Run(be, armed, [Press(p), Release(q, view)]);
    assert Run(be, armed, [Press(p), Release(q, view)]) == Run(be, pressed, [Release(q, view)]);
  }

  // ---------------------------------------------------------------------------
  // Undo against the edits

  /** An edit followed by an undo restores the history, but shows the
      snapshot on top of it, not the image the edit started from. */
  lemma EditThenUndo<Img>(be: Backend<Img>, s: State<Img>, a: Action<Img>)
    requires s.image.Some? && |s.history| >= 1 && Pushes(a)
    ensures var r := Step(be, Step(be, s, a), Undo);
      r.history == s.history && r.image == Some(s.history[|s.history| - 1])
      && r.original == s.original
  {
  }

  /** Undo lands two edits back: after two edits, one undo shows the image
      from before the first of them, which is what the second one pushed. */
  lemma UndoLandsTwoEditsBack<Img>(be: Backend<Img>, s: State<Img>, a1: Action<Img>, a2: Action<Img>)
    requires s.image.Some? && Pushes(a1) && Pushes(a2)
    ensures var mid := Step(be, s, a1);
      var r := Step(be, Step(be, mid, a2), Undo);
      r.history == mid.history && r.image == s.image
  {
    PushingStep(be, s, a1);
    PushingStep(be, Step(be, s, a1), a2);
  }

  /** Edits that push, one after another, each append one snapshot. */
  lemma {:induction false} PushesGrowHistory<Img>(be: Backend<Img>, s: State<Img>, edits: seq<Action<Img>>)
    requires s.image.Some?
    requires forall i :: 0 <= i < |edits| ==> Pushes(edits[i])
    ensures var r := Run(be, s, edits);
      && r.image.Some? && r.original == s.original
      && |r.history| == |s.history| + |edits| && s.history <= r.history
      && (edits != [] ==> r.history[|s.history|] == s.image.value)
    decreases |edits|
  {
    if edits != [] {
      var t := Step(be, s, edits[0]);
      PushingStep(be, s, edits[0]);
      PushesGrowHistory(be, t, edits[1..]);
      var r := Run(be, t, edits[1..]);
      assert t.history <= r.history;
      assert r.history[|s.history|] == t.history[|s.history|];
    }
  }

  /** Undoing n times walks the history back by n snapshots, as long as one
      is left, and shows the snapshot then on top. */
  lemma {:induction false} UndosRestoreHistory<Img>(be: Backend<Img>, t: State<Img>, h: seq<Img>, n: nat)
    requires |h| >= 1 && h <= t.history && |t.history| == |h| + n
    ensures var r := Run(be, t, Undos(n));
      && r.history == h && r.original == t.original
      && (n > 0 ==> r.image == Some(h[|h| - 1]))
      && (n == 0 ==> r == t)
    decreases n
  {
    if n > 0 {
      var u := Step(be, t, Undo);
      assert u.history == t.history[..|t.history| - 1];
      assert h <= u.history;
      assert Undos<Img>(n)[0] == Undo && Undos<Img>(n)[1..] == Undos<Img>(n - 1);
      UndosRestoreHistory(be, u, h, n - 1);
      if n == 1 {
        assert u.image == Some(h[|h| - 1]);
      }
    }
  }

  /** Undo back to the start: after a successful open and N edits the history
      holds N + 1 snapshots; N undos leave only the decoded image and, when
      N > 0, show it unfitted; one more undo is refused. */
  lemma UndoBackToStart<Img>(be: Backend<Img>, s: State<Img>, img: Img, view: Size, edits: seq<Action<Img>>)
    requires forall i :: 0 <= i < |edits| ==> Pushes(edits[i])
    ensures var loaded := Step(be, s, Open(Decoded(img), view));
      var edited := Run(be, loaded, edits);
      var back := Run(be, edited, Undos(|edits|));
      && |edited.history| == |edits| + 1
      && back.history == [img] && back.original == Some(img)
      && (|edits| > 0 ==> back.image == Some(img))
      && Step(be, back, Undo) == back
  {
    var loaded := Step(be, s, Open(Decoded(img), view));
    PushesGrowHistory(be, loaded, edits);
    UndosRestoreHistory(be, Run(be, loaded, edits), [img], |edits|);
  }

  /** The same, for the open, the edits and the undos taken as one run. */
  lemma UndoBackToStartInOneRun<Img>(be: Backend<Img>, s: State<Img>, img: Img, view: Size, edits: seq<Action<Img>>)
    requires forall i :: 0 <= i < |edits| ==> Pushes(edits[i])
    ensures var back := Run(be, s, [Open(Decoded(img), view)] + edits + Undos(|edits|));
      && back.history == [img] && back.original == Some(img)
      && (|edits| > 0 ==> back.image == Some(img))
      && Step(be, back, Undo) == back
  {
    var loaded := Step(be, s, Open(Decoded(img), view));
    UndoBackToStart(be, s, img, view, edits);
    var opening: seq<Action<Img>> := [Open(Decoded(img), view)];
    RunAppend(be, s, opening + edits, Undos(|edits|));
    RunAppend(be, s, opening, edits);
    assert Run(be, s, opening) == Run(be, loaded, []);
  }

  // ---------------------------------------------------------------------------
  // Reset against the edits

  /** Actions other than a successful open keep the original image. */
  lemma {:induction false} OriginalSurvives<Img>(be: Backend<Img>, s: State<Img>, acts: seq<Action<Img>>)
    requires forall i :: 0 <= i < |acts| ==> KeepsOriginal(acts[i])
    ensures Run(be, s, acts).original == s.original
    decreases |acts|
  {
    if acts != [] {
      OriginalSurvives(be, Step(be, s, acts[0]), acts[1..]);
    }
  }

  /** Reset after any actions that open no other file shows the same image
      as right after the open (at the same canvas size), whatever the history
      holds, and leaves that history as it was. */
  lemma ResetAfterEdits<Img>(be: Backend<Img>, s: State<Img>, img: Img, view: Size, acts: seq<Action<Img>>)
    requires forall i :: 0 <= i < |acts| ==> KeepsOriginal(acts[i])
    ensures var loaded := Step(be, s, Open(Decoded(img), view));
      var edited := Run(be, loaded, acts);
      var r := Step(be, edited, Reset(view));
      r.image == loaded.image && r.history == edited.history && r.original == Some(img)
  {
    var loaded := Step(be, s, Open(Decoded(img), view));
    OriginalSurvives(be, loaded, acts);
  }
}
