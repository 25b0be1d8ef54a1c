/** The edit history shared by the Resizer page and both ImageCompressor pages
    (src/pages/imageReszer/Resizer.jsx, src/pages/ImageCompressor.jsx,
    src/pages/ImageCompressor/ImageCompressor.jsx). A commit stores a snapshot of
    the page in `cropHistory`; undo takes the last one back and puts the current
    page at the front of `redoStack`; redo takes the front of `redoStack` back and
    appends the current page to `cropHistory`. The front of `redoStack` is thus the
    top of a stack: redo brings back the most recently undone page. */
module SnapshotEditor {
  import opened Wrappers
  import opened CropUtils
  import opened ResizerCrop

  /** An image as the page holds it (a data URL); only its identity matters. */
  datatype Picture = Picture(id: nat)

  /** An entry of `cropHistory` or `redoStack`. A commit records no `scale` and no
      `rotate` (`None`, i.e. undefined); undo and redo record both. */
  datatype Snapshot = Snapshot(crop: Option<Rect>, completedCrop: Option<Rect>, image: Option<Picture>,
                               scale: Option<real>, rotate: Option<real>)

  /** `snapshot.scale || 1`. */
  function ScaleOr1(scale: Option<real>): (r: real)
    ensures r != 0.0
    ensures Truthy(scale) ==> r == scale.value
  {
    if Truthy(scale) then scale.value else 1.0
  }

  /** `snapshot.rotate || 0`. */
  function RotateOr0(rotate: Option<real>): (r: real)
    ensures rotate.Some? ==> r == rotate.value
    ensures rotate.None? ==> r == 0.0
  {
    if rotate.Some? then rotate.value else 0.0
  }

  /** `naturalDimensions` and `originalDimensions`: a size in image pixels. */
  datatype Dimensions = Dimensions(width: real, height: real)

  /** The page state the history handlers read and write, one field per state hook. */
  datatype Page = Page(
    image: Option<Picture>, originalImage: Option<Picture>,
    crop: Option<Rect>, completedCrop: Option<Rect>,
    scale: real, rotate: real, aspect: Option<real>,
    naturalDimensions: Dimensions, originalDimensions: Dimensions,
    widthInput: string, heightInput: string,
    cropHistory: seq<Snapshot>, redoStack: seq<Snapshot>)

  /** `{ crop, completedCrop, image, scale, rotate }` of the current page. */
  function Current(p: Page): Snapshot {
    Snapshot(p.crop, p.completedCrop, p.image, Some(p.scale), Some(p.rotate))
  }

  /** A snapshot as restoring it and recording it again leaves it: `scale || 1`
      and `rotate || 0` filled in. */
  function Normal(s: Snapshot): (n: Snapshot)
    ensures n.crop == s.crop && n.completedCrop == s.completedCrop && n.image == s.image
    ensures n.scale.Some? && n.rotate.Some?
  {
    Snapshot(s.crop, s.completedCrop, s.image, Some(ScaleOr1(s.scale)), Some(RotateOr0(s.rotate)))
  }

  /** The page with a snapshot restored into it. */
  function Restore(p: Page, s: Snapshot): Page {
    p.(crop := s.crop, completedCrop := s.completedCrop, image := s.image,
       scale := ScaleOr1(s.scale), rotate := RotateOr0(s.rotate))
  }

  /** `handleUndoClick`. With history, the last entry is restored and the current
      page goes to the front of the redo stack; without, the original image comes
      back with no crop, scale 1 and rotation 0, and both stacks stay as they are. */
  function Undo(p: Page): Page
  {
    if |p.cropHistory| > 0 then
      var last := p.cropHistory[|p.cropHistory| - 1];
      Restore(p, last).(redoStack := [Current(p)] + p.redoStack,
                        cropHistory := p.cropHistory[..|p.cropHistory| - 1])
    else
      p.(crop := None, completedCrop := None, image := p.originalImage, scale := 1.0, rotate := 0.0)
  }

  /** `handleRedoClick`. With a redo stack, its front is restored and the current
      page is appended to the history; without, nothing happens. */
  function Redo(p: Page): Page
  {
    if |p.redoStack| > 0 then
      var next := p.redoStack[0];
      Restore(p, next).(cropHistory := p.cropHistory + [Current(p)], redoStack := p.redoStack[1..])
    else
      p
  }

  /** What one undo does: with history, the last entry comes back and the current
      page goes to the front of the redo stack; without, the original image comes
      back and both stacks stay. The two stacks hold as many entries as before. */
  lemma UndoSteps(p: Page)
    ensures |Undo(p).cropHistory| + |Undo(p).redoStack| == |p.cropHistory| + |p.redoStack|
    ensures p.cropHistory != [] ==>
      && Undo(p).cropHistory == p.cropHistory[..|p.cropHistory| - 1]
      && Undo(p).redoStack == [Current(p)] + p.redoStack
      && Current(Undo(p)) == Normal(p.cropHistory[|p.cropHistory| - 1])
    ensures p.cropHistory == [] ==>
      && Undo(p).cropHistory == p.cropHistory && Undo(p).redoStack == p.redoStack
      && Undo(p).image == p.originalImage && Undo(p).crop.None? && Undo(p).completedCrop.None?
      && Undo(p).scale == 1.0 && Undo(p).rotate == 0.0
    ensures Undo(p).scale != 0.0
    ensures Undo(p).(crop := p.crop, completedCrop := p.completedCrop, image := p.image, scale := p.scale,
                     rotate := p.rotate, cropHistory := p.cropHistory, redoStack := p.redoStack) == p
  {
  }

  /** What one redo does: with a redo stack, its front comes back and the current
      page is appended to the history; without, nothing changes. */
  lemma RedoSteps(p: Page)
    ensures |Redo(p).cropHistory| + |Redo(p).redoStack| == |p.cropHistory| + |p.redoStack|
    ensures p.redoStack != [] ==>
      && Redo(p).cropHistory == p.cropHistory + [Current(p)]
      && Redo(p).redoStack == p.redoStack[1..]
      && Current(Redo(p)) == Normal(p.redoStack[0])
    ensures p.redoStack == [] ==> Redo(p) == p
    ensures Redo(p).(crop := p.crop, completedCrop := p.completedCrop, image := p.image, scale := p.scale,
                     rotate := p.rotate, cropHistory := p.cropHistory, redoStack := p.redoStack) == p
  {
  }

  /** `handleCropClick`, history part. `mounted` is `imgRef.current` (and, on the
      routed page, `previewCanvasRef.current`); `rendered` is the canvas result. */
  function Commit(p: Page, mounted: bool, rendered: Picture): (r: Page)
    ensures p.completedCrop.Some? && mounted ==>
      && r.cropHistory == p.cropHistory + [Snapshot(p.crop, p.completedCrop, p.image, None, None)]
      && r.redoStack == []
      && r.image == Some(rendered) && r.crop.None? && r.completedCrop.None?
      && r.scale == p.scale && r.rotate == p.rotate
    ensures r.(image := p.image, crop := p.crop, completedCrop := p.completedCrop,
               cropHistory := p.cropHistory, redoStack := p.redoStack) == p
    ensures p.completedCrop.None? || !mounted ==> r == p
  {
    if p.completedCrop.None? || !mounted then p
    else
      p.(image := Some(rendered),
         cropHistory := p.cropHistory + [Snapshot(p.crop, p.completedCrop, p.image, None, None)],
         redoStack := [], crop := None, completedCrop := None)
  }

  /** `handleResetClick`: the original image, no crop, scale 1, no rotation, no
      history. */
  function Reset(p: Page): (r: Page)
    ensures r.image == p.originalImage && r.crop.None? && r.completedCrop.None?
    ensures r.scale == 1.0 && r.rotate == 0.0 && r.cropHistory == [] && r.redoStack == []
    ensures r.(image := p.image, crop := p.crop, completedCrop := p.completedCrop, scale := p.scale,
               rotate := p.rotate, cropHistory := p.cropHistory, redoStack := p.redoStack) == p
  {
    p.(image := p.originalImage, crop := None, completedCrop := None, scale := 1.0, rotate := 0.0,
       cropHistory := [], redoStack := [])
  }

  /** `handleDeleteClick` (Resizer and the nested ImageCompressor page): everything
      back to the empty page. */
  function Delete(p: Page): Page {
    EmptyPage
  }

  /** The page before any image is chosen. */
  const EmptyPage: Page := Page(None, None, None, None, 1.0, 0.0, None, Dimensions(0.0, 0.0), Dimensions(0.0, 0.0), "", "", [], [])

  /** The default crop of both ImageCompressor pages: 30% by 30%, centred. */
  const CompressorDefaultCrop: Rect := Rect(35.0, 35.0, 30.0, 30.0)

  lemma CompressorDefaultCropIsCentred()
    ensures Centred(CompressorDefaultCrop) && InPercentBounds(CompressorDefaultCrop)
  {
  }

  /** The natural size stored on load, kept as the original size too when none was
      known yet (`!originalDimensions.width && !originalDimensions.height`). */
  function Measured(p: Page, natW: real, natH: real): (r: Page)
    ensures r.naturalDimensions == Dimensions(natW, natH)
    ensures p.originalDimensions == Dimensions(0.0, 0.0) ==> r.originalDimensions == Dimensions(natW, natH)
    ensures p.originalDimensions != Dimensions(0.0, 0.0) ==> r.originalDimensions == p.originalDimensions
    ensures r.(naturalDimensions := p.naturalDimensions, originalDimensions := p.originalDimensions) == p
  {
    var known := !(p.originalDimensions.width == 0.0 && p.originalDimensions.height == 0.0);
    p.(naturalDimensions := Dimensions(natW, natH),
       originalDimensions := if known then p.originalDimensions else Dimensions(natW, natH))
  }

  /** `onImageLoad` of both ImageCompressor pages: the crop is the library's
      centred aspect crop when an aspect is set, else the default; `completedCrop`
      is the default crop in pixels of the shown size in either case. */
  function CompressorLoaded(p: Page, natW: real, natH: real, shownW: real, shownH: real, libraryCrop: Rect): Page {
    Measured(p, natW, natH).(
      crop := Some(if Truthy(p.aspect) then libraryCrop else CompressorDefaultCrop),
      completedCrop := Some(ToPixelCrop(CompressorDefaultCrop, shownW, shownH)))
  }

  /** `onImageLoad` of the Resizer: the crop and `completedCrop` are both the
      library's aspect crop when an aspect is set, else both the 60% default. */
  function ResizerLoaded(p: Page, natW: real, natH: real, libraryCrop: Rect): Page {
    var c := if Truthy(p.aspect) then libraryCrop else ResizerDefaultCrop;
    Measured(p, natW, natH).(crop := Some(c), completedCrop := Some(c))
  }

  /** Loading never touches the image or the history, and without an aspect both
      pages select their centred default; the ImageCompressor pages then also
      agree between `crop` and `completedCrop` (in shown pixels). */
  lemma LoadedSelectsDefault(p: Page, natW: real, natH: real, shownW: real, shownH: real, libraryCrop: Rect)
    ensures var r := CompressorLoaded(p, natW, natH, shownW, shownH, libraryCrop);
      && r.image == p.image && r.cropHistory == p.cropHistory && r.redoStack == p.redoStack
      && (!Truthy(p.aspect) ==> r.crop == Some(CompressorDefaultCrop)
                                && r.completedCrop == Some(ToPixelCrop(r.crop.value, shownW, shownH)))
    ensures var r := ResizerLoaded(p, natW, natH, libraryCrop);
      && r.image == p.image && r.cropHistory == p.cropHistory && r.redoStack == p.redoStack
      && r.crop == r.completedCrop
      && (!Truthy(p.aspect) ==> r.crop == Some(ResizerDefaultCrop))
  {
  }

  /** With an aspect set, the ImageCompressor pages' `completedCrop` after a load is
      still the default crop's, whatever the library chose for `crop`. */
  lemma LoadedWithAspectKeepsDefaultCompletedCrop(p: Page, natW: real, natH: real, shownW: real, shownH: real, libraryCrop: Rect)
    requires Truthy(p.aspect)
    ensures var r := CompressorLoaded(p, natW, natH, shownW, shownH, libraryCrop);
      r.crop == Some(libraryCrop) && r.completedCrop == Some(ToPixelCrop(CompressorDefaultCrop, shownW, shownH))
  {
  }

  // ---------------------------------------------------------------------------
  // Properties of the history handlers

  /** Undo then redo gives the page back, except that the history entry that went
      through both is stored with `scale || 1` and `rotate || 0` filled in. */
  lemma RedoAfterUndo(p: Page)
    requires p.cropHistory != [] && p.scale != 0.0
    ensures var n := |p.cropHistory|;
      Redo(Undo(p)) == p.(cropHistory := p.cropHistory[..n - 1] + [Normal(p.cropHistory[n - 1])])
  {
    var n := |p.cropHistory|;
    var u := Undo(p);
    assert u.redoStack[0] == Current(p);
    assert u.redoStack[1..] == p.redoStack;
  }

  /** Redo then undo gives the page back, except that the redo entry that went
      through both is stored normalised. */
  lemma UndoAfterRedo(p: Page)
    requires p.redoStack != [] && p.scale != 0.0
    ensures Undo(Redo(p)) == p.(redoStack := [Normal(p.redoStack[0])] + p.redoStack[1..])
  {
    var r := Redo(p);
    assert r.cropHistory[..|r.cropHistory| - 1] == p.cropHistory;
  }

  /** A commit empties the redo stack, so a redo right after it does nothing. */
  lemma RedoAfterCommitDoesNothing(p: Page, mounted: bool, rendered: Picture)
    requires p.completedCrop.Some? && mounted
    ensures Redo(Commit(p, mounted, rendered)) == Commit(p, mounted, rendered)
  {
  }

  /** Undoing a commit brings back the image and both crops it replaced, leaves the
      history as it was before the commit, and offers the committed image for redo. */
  lemma UndoAfterCommit(p: Page, rendered: Picture)
    requires p.completedCrop.Some?
    ensures var u := Undo(Commit(p, true, rendered));
      && u.image == p.image && u.crop == p.crop && u.completedCrop == p.completedCrop
      && u.scale == 1.0 && u.rotate == 0.0
      && u.cropHistory == p.cropHistory
      && u.redoStack == [Snapshot(None, None, Some(rendered), Some(p.scale), Some(p.rotate))]
  {
    var c := Commit(p, true, rendered);
    assert c.cropHistory[..|c.cropHistory| - 1] == p.cropHistory;
  }

  /** After a reset, undo and redo change nothing. */
  lemma ResetIsSettled(p: Page)
    ensures Undo(Reset(p)) == Reset(p)
    ensures Redo(Reset(p)) == Reset(p)
  {
  }

  /** The empty page left by delete is a fixed point of every history handler. */
  lemma DeletedPageIsSettled(p: Page, mounted: bool, rendered: Picture)
    ensures Undo(Delete(p)) == Delete(p)
    ensures Redo(Delete(p)) == Delete(p)
    ensures Reset(Delete(p)) == Delete(p)
    ensures Commit(Delete(p), mounted, rendered) == Delete(p)
  {
  }

  /** `n` undos in a row. */
  function UndoN(p: Page, n: nat): Page
    decreases n
  {
    if n == 0 then p else Undo(UndoN(p, n - 1))
  }

  /** `n` redos in a row. */
  function RedoN(p: Page, n: nat): Page
    decreases n
  {
    if n == 0 then p else RedoN(Redo(p), n - 1)
  }

  /** Both stacks with every entry normalised. */
  function NormalAll(q: seq<Snapshot>): (r: seq<Snapshot>)
    ensures |r| == |q|
    ensures forall i :: 0 <= i < |q| ==> r[i] == Normal(q[i])
  {
    seq(|q|, i requires 0 <= i < |q| => Normal(q[i]))
  }

  /** Two pages that differ at most in how their stored snapshots spell an absent
      scale or rotation. */
  predicate Alike(a: Page, b: Page) {
    Settled(a) == Settled(b)
  }

  /** The page with both stacks normalised. */
  function Settled(p: Page): Page {
    p.(cropHistory := NormalAll(p.cropHistory), redoStack := NormalAll(p.redoStack))
  }

  lemma NormalIdempotent(s: Snapshot)
    ensures Normal(Normal(s)) == Normal(s)
  {
  }

  /** Undo treats alike pages alike. */
  lemma UndoRespectsAlike(a: Page, b: Page)
    requires Alike(a, b)
    ensures Alike(Undo(a), Undo(b))
  {
    var ha, hb := NormalAll(a.cropHistory), NormalAll(b.cropHistory);
    var ra, rb := NormalAll(a.redoStack), NormalAll(b.redoStack);
    assert ha == hb && ra == rb;
    assert |a.cropHistory| == |b.cropHistory| && |a.redoStack| == |b.redoStack|;
    if a.cropHistory != [] {
      var n := |a.cropHistory|;
      assert Normal(a.cropHistory[n - 1]) == Normal(b.cropHistory[n - 1]) by {
        assert ha[n - 1] == hb[n - 1];
      }
      assert NormalAll(Undo(a).cropHistory) == NormalAll(Undo(b).cropHistory) by {
        forall i | 0 <= i < n - 1 ensures Normal(a.cropHistory[i]) == Normal(b.cropHistory[i]) {
          assert ha[i] == hb[i];
        }
      }
      assert NormalAll(Undo(a).redoStack) == NormalAll(Undo(b).redoStack) by {
        forall i | 0 <= i < |Undo(a).redoStack| ensures Normal(Undo(a).redoStack[i]) == Normal(Undo(b).redoStack[i]) {
          if i > 0 {
            assert ra[i - 1] == rb[i - 1];
          }
        }
      }
    }
  }

  /** Redo treats alike pages alike. */
  lemma RedoRespectsAlike(a: Page, b: Page)
    requires Alike(a, b)
    ensures Alike(Redo(a), Redo(b))
  {
    var ha, hb := NormalAll(a.cropHistory), NormalAll(b.cropHistory);
    var ra, rb := NormalAll(a.redoStack), NormalAll(b.redoStack);
    assert ha == hb && ra == rb;
    assert |a.cropHistory| == |b.cropHistory| && |a.redoStack| == |b.redoStack|;
    if a.redoStack != [] {
      assert Normal(a.redoStack[0]) == Normal(b.redoStack[0]) by {
        assert ra[0] == rb[0];
      }
      assert NormalAll(Redo(a).redoStack) == NormalAll(Redo(b).redoStack) by {
        forall i | 0 <= i < |Redo(a).redoStack| ensures Normal(Redo(a).redoStack[i]) == Normal(Redo(b).redoStack[i]) {
          assert ra[i + 1] == rb[i + 1];
        }
      }
      assert NormalAll(Redo(a).cropHistory) == NormalAll(Redo(b).cropHistory) by {
        forall i | 0 <= i < |Redo(a).cropHistory| ensures Normal(Redo(a).cropHistory[i]) == Normal(Redo(b).cropHistory[i]) {
          if i < |a.cropHistory| {
            assert ha[i] == hb[i];
          }
        }
      }
    }
  }

  lemma RedoNRespectsAlike(a: Page, b: Page, n: nat)
    requires Alike(a, b)
    ensures Alike(RedoN(a, n), RedoN(b, n))
    decreases n
  {
    if n > 0 {
      RedoRespectsAlike(a, b);
      RedoNRespectsAlike(Redo(a), Redo(b), n - 1);
    }
  }

  lemma AlikeTransitive(a: Page, b: Page, c: Page)
    requires Alike(a, b) && Alike(b, c)
    ensures Alike(a, c)
  {
  }

  /** A page is alike to the one undo then redo gives back. */
  lemma RedoAfterUndoAlike(p: Page)
    requires p.cropHistory != [] && p.scale != 0.0
    ensures Alike(Redo(Undo(p)), p)
  {
    RedoAfterUndo(p);
    var n := |p.cropHistory|;
    var h := p.cropHistory[..n - 1] + [Normal(p.cropHistory[n - 1])];
    NormalIdempotent(p.cropHistory[n - 1]);
    assert NormalAll(h) == NormalAll(p.cropHistory);
  }

  lemma UndoNKeepsScale(p: Page, n: nat)
    requires p.scale != 0.0
    ensures UndoN(p, n).scale != 0.0
    ensures |UndoN(p, n).cropHistory| == if n <= |p.cropHistory| then |p.cropHistory| - n else 0
    decreases n
  {
    if n > 0 {
      UndoNKeepsScale(p, n - 1);
    }
  }

  /** No handler makes the scale 0: undo and redo restore `scale || 1`, reset and
      delete set 1, and commit, loading and the input handlers leave it alone. */
  lemma HandlersKeepScale(p: Page, mounted: bool, rendered: Picture, natW: real, natH: real,
                          shownW: real, shownH: real, libraryCrop: Rect)
    requires p.scale != 0.0
    ensures Undo(p).scale != 0.0 && Redo(p).scale != 0.0
    ensures Commit(p, mounted, rendered).scale != 0.0
    ensures Reset(p).scale != 0.0 && Delete(p).scale != 0.0 && EmptyPage.scale != 0.0
    ensures CompressorLoaded(p, natW, natH, shownW, shownH, libraryCrop).scale != 0.0
    ensures ResizerLoaded(p, natW, natH, libraryCrop).scale != 0.0
  {
  }

  /** One undo and one redo more leave the result alike. */
  lemma OneMoreUndoRedo(p: Page, n: nat)
    requires 0 < n <= |p.cropHistory| && p.scale != 0.0
    ensures Alike(RedoN(UndoN(p, n), n), RedoN(UndoN(p, n - 1), n - 1))
  {
    var u := UndoN(p, n - 1);
    assert Alike(RedoN(Redo(Undo(u)), n - 1), RedoN(u, n - 1)) by {
      UndoNKeepsScale(p, n - 1);
      RedosAfterUndoAlike(u, n - 1);
    }
    UnfoldUndoRedo(p, n);
  }

  lemma UnfoldUndoRedo(p: Page, n: nat)
    requires n > 0
    ensures RedoN(UndoN(p, n), n) == RedoN(Redo(Undo(UndoN(p, n - 1))), n - 1)
  {
  }

  lemma RedosAfterUndoAlike(u: Page, m: nat)
    requires u.cropHistory != [] && u.scale != 0.0
    ensures Alike(RedoN(Redo(Undo(u)), m), RedoN(u, m))
  {
    RedoAfterUndoAlike(u);
    RedoNRespectsAlike(Redo(Undo(u)), u, m);
  }

  /** Any number of undos, as long as there is history for each, followed by as
      many redos gives the page back, up to how the stored snapshots spell an
      absent scale or rotation: the redo stack is a stack. */
  lemma {:induction false} RedoNAfterUndoN(p: Page, n: nat)
    requires n <= |p.cropHistory| && p.scale != 0.0
    ensures Alike(RedoN(UndoN(p, n), n), p)
    decreases n
  {
    if n > 0 {
      OneMoreUndoRedo(p, n);
      RedoNAfterUndoN(p, n - 1);
      AlikeTransitive(RedoN(UndoN(p, n), n), RedoN(UndoN(p, n - 1), n - 1), p);
    }
  }

  // ---------------------------------------------------------------------------
  // The page as an object

  /** The state of one of the three pages. The handlers update it field by field as
      the corresponding `set...` calls do. */
  class Editor {
    var image: Option<Picture>
    var originalImage: Option<Picture>
    var crop: Option<Rect>
    var completedCrop: Option<Rect>
    var scale: real
    var rotate: real
    var aspect: Option<real>
    var naturalDimensions: Dimensions
    var originalDimensions: Dimensions
    var widthInput: string
    var heightInput: string
    var cropHistory: seq<Snapshot>
    var redoStack: seq<Snapshot>

    /** The page's fields as a value. */
    function Model(): Page
      reads this
    {
      Page(image, originalImage, crop, completedCrop, scale, rotate, aspect,
           naturalDimensions, originalDimensions,
           widthInput, heightInput, cropHistory, redoStack)
    }

    /** The scale is never 0, so `RedoAfterUndo`, `UndoAfterRedo` and
        `RedoNAfterUndoN` apply to every state of the page. */
    ghost predicate Valid()
      reads this
    {
      scale != 0.0
    }

    /** The initial state of every page: nothing loaded, scale 1, rotation 0. */
    constructor ()
      ensures Model() == EmptyPage && Valid()
    {
      image, originalImage, crop, completedCrop := None, None, None, None;
      scale, rotate, aspect := 1.0, 0.0, None;
      naturalDimensions, originalDimensions := Dimensions(0.0, 0.0), Dimensions(0.0, 0.0);
      widthInput, heightInput := "", "";
      cropHistory, redoStack := [], [];
    }

    /** `handleImageUpload`, once the file has been read: the picture becomes both
        the current and the original image. */
    method Upload(picture: Picture)
      modifies this
      requires Valid()
      ensures Valid()
      ensures Model() == old(Model()).(image := Some(picture), originalImage := Some(picture))
    {
      originalImage := Some(picture);
      image := Some(picture);
    }

    method UndoClick()
      modifies this
      requires Valid()
      ensures Valid()
      ensures Model() == Undo(old(Model()))
    {
      if |cropHistory| > 0 {
        var newCropHistory := cropHistory[..|cropHistory| - 1];
        var lastState := cropHistory[|cropHistory| - 1];
        redoStack := [Snapshot(crop, completedCrop, image, Some(scale), Some(rotate))] + redoStack;
        crop := lastState.crop;
        completedCrop := lastState.completedCrop;
        image := lastState.image;
        scale := ScaleOr1(lastState.scale);
        rotate := RotateOr0(lastState.rotate);
        cropHistory := newCropHistory;
      } else {
        crop := None;
        completedCrop := None;
        image := originalImage;
        scale := 1.0;
        rotate := 0.0;
      }
    }

    method RedoClick()
      modifies this
      requires Valid()
      ensures Valid()
      ensures Model() == Redo(old(Model()))
    {
      if |redoStack| > 0 {
        var newRedoStack := redoStack[1..];
        var nextState := redoStack[0];
        cropHistory := cropHistory + [Snapshot(crop, completedCrop, image, Some(scale), Some(rotate))];
        crop := nextState.crop;
        completedCrop := nextState.completedCrop;
        image := nextState.image;
        scale := ScaleOr1(nextState.scale);
        rotate := RotateOr0(nextState.rotate);
        redoStack := newRedoStack;
      }
    }

    method ResetClick()
      modifies this
      requires Valid()
      ensures Valid()
      ensures Model() == Reset(old(Model()))
    {
      image := originalImage;
      crop := None;
      completedCrop := None;
      scale := 1.0;
      rotate := 0.0;
      cropHistory := [];
      redoStack := [];
    }

    /** `handleCropClick`: the image element is mounted exactly when there is an
        image; `canvasMounted` is the routed page's extra preview-canvas check
        (true on the other two pages). */
    method CropClick(canvasMounted: bool, rendered: Picture)
      modifies this
      requires Valid()
      ensures Valid()
      ensures Model() == Commit(old(Model()), image.Some? && canvasMounted, rendered)
    {
      if completedCrop.None? || image.None? || !canvasMounted {
        return;
      }
      cropHistory := cropHistory + [Snapshot(crop, completedCrop, image, None, None)];
      image := Some(rendered);
      redoStack := [];
      crop := None;
      completedCrop := None;
    }

    /** `handleDeleteClick` (Resizer and the nested ImageCompressor page). */
    method DeleteClick()
      modifies this
      requires Valid()
      ensures Valid()
      ensures Model() == EmptyPage
    {
      image, originalImage, crop, completedCrop := None, None, None, None;
      cropHistory, redoStack := [], [];
      scale, rotate, aspect := 1.0, 0.0, None;
      naturalDimensions := Dimensions(0.0, 0.0);
      originalDimensions := Dimensions(0.0, 0.0);
      widthInput, heightInput := "", "";
    }

    method CompressorImageLoaded(natW: real, natH: real, shownW: real, shownH: real, libraryCrop: Rect)
      modifies this
      requires Valid()
      ensures Valid()
      ensures Model() == CompressorLoaded(old(Model()), natW, natH, shownW, shownH, libraryCrop)
    {
      naturalDimensions := Dimensions(natW, natH);
      if originalDimensions.width == 0.0 && originalDimensions.height == 0.0 {
        originalDimensions := Dimensions(natW, natH);
      }
      var defaultCrop := CompressorDefaultCrop;
      if Truthy(aspect) {
        crop := Some(libraryCrop);
      } else {
        crop := Some(defaultCrop);
      }
      completedCrop := Some(ToPixelCrop(defaultCrop, shownW, shownH));
    }

    method ResizerImageLoaded(natW: real, natH: real, libraryCrop: Rect)
      modifies this
      requires Valid()
      ensures Valid()
      ensures Model() == ResizerLoaded(old(Model()), natW, natH, libraryCrop)
    {
      naturalDimensions := Dimensions(natW, natH);
      if originalDimensions.width == 0.0 && originalDimensions.height == 0.0 {
        originalDimensions := Dimensions(natW, natH);
      }
      if Truthy(aspect) {
        crop := Some(libraryCrop);
        completedCrop := Some(libraryCrop);
      } else {
        crop := Some(ResizerDefaultCrop);
        completedCrop := Some(ResizerDefaultCrop);
      }
    }

    /** Hands the result of an input handler to `setCrop` and `setCompletedCrop`. */
    method ApplyEdit(edit: Option<CropEdit>)
      modifies this
      requires Valid()
      ensures Valid()
      ensures edit.None? ==> Model() == old(Model())
      ensures edit.Some? ==>
        Model() == old(Model()).(crop := Some(edit.value.crop), completedCrop := Some(edit.value.completed))
    {
      if edit.Some? {
        crop := Some(edit.value.crop);
        completedCrop := Some(edit.value.completed);
      }
    }
  }
}
