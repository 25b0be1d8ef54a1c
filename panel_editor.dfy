/** The two ImagePannel components (src/components/ImagePannel.jsx and
    src/pages/ImageCompressor/ImagePannel/ImagePannel.jsx). Their history is a
    plain image timeline: `history` holds the earlier images, oldest first, and
    `future` the later ones, nearest first. Crop sizes and offsets are pixels. The
    second component also keeps `croppedImage` in step with the crop, undo and
    reset; `nested` tells the two apart. */
module PanelEditor {
  import opened Wrappers
  import opened JsNumbers
  import opened SnapshotEditor

  // ---------------------------------------------------------------------------
  // The image timeline

  /** The current image with the images before it and after it. An entry may be
      `None` (null): the image pushed by a crop is whatever the page showed. */
  datatype Timeline = Timeline(image: Option<Picture>, history: seq<Option<Picture>>, future: seq<Option<Picture>>)

  /** Every image on the timeline, oldest first. */
  function Images(t: Timeline): seq<Option<Picture>> {
    t.history + [t.image] + t.future
  }

  /** `handleUndo`: step one image back; nothing happens at the start. */
  function Back(t: Timeline): (r: Timeline)
    ensures Images(r) == Images(t)
    ensures |r.history| + |r.future| == |t.history| + |t.future|
    ensures t.history != [] ==> |r.history| == |t.history| - 1 && r.image == t.history[|t.history| - 1]
    ensures t.history == [] ==> r == t
  {
    if |t.history| > 0 then
      var k := |t.history|;
      var r := Timeline(t.history[k - 1], t.history[..k - 1], [t.image] + t.future);
      assert Images(r) == Images(t) by {
        assert t.history == t.history[..k - 1] + [t.history[k - 1]];
      }
      r
    else
      t
  }

  /** `handleRedo`: step one image forward; nothing happens at the end. */
  function Forward(t: Timeline): (r: Timeline)
    ensures Images(r) == Images(t)
    ensures |r.history| + |r.future| == |t.history| + |t.future|
    ensures t.future != [] ==> |r.history| == |t.history| + 1 && r.image == t.future[0]
    ensures t.future == [] ==> r == t
  {
    if |t.future| > 0 then
      var r := Timeline(t.future[0], t.history + [t.image], t.future[1..]);
      assert Images(r) == Images(t) by {
        assert t.future == [t.future[0]] + t.future[1..];
      }
      r
    else
      t
  }

  /** `handleCrop`, timeline part: the new image follows the current one and
      everything that was ahead of it is dropped. */
  function CommitImage(t: Timeline, rendered: Picture): (r: Timeline)
    ensures Images(r) == Images(t)[..|t.history| + 1] + [Some(rendered)]
    ensures r.image == Some(rendered) && r.future == []
  {
    var r := Timeline(Some(rendered), t.history + [t.image], []);
    assert Images(t)[..|t.history| + 1] == t.history + [t.image];
    r
  }

  /** `handleReset`: both stacks emptied; the image becomes `history[0] || image`. */
  function Restart(t: Timeline): (r: Timeline)
    ensures r.history == [] && r.future == []
    ensures t.history != [] && t.history[0].Some? ==> r.image == t.history[0]
    ensures t.history == [] || t.history[0].None? ==> r.image == t.image
  {
    Timeline(if t.history != [] && t.history[0].Some? then t.history[0] else t.image, [], [])
  }

  /** Undo right after redo, and redo right after undo, give the timeline back. */
  lemma ForwardAfterBack(t: Timeline)
    requires t.history != []
    ensures Forward(Back(t)) == t
  {
    var k := |t.history|;
    assert t.history[..k - 1] + [t.history[k - 1]] == t.history;
  }

  lemma BackAfterForward(t: Timeline)
    requires t.future != []
    ensures Back(Forward(t)) == t
  {
    var f := Forward(t);
    assert f.history[..|f.history| - 1] == t.history;
    assert [t.future[0]] + t.future[1..] == t.future;
  }

  /** `n` undos in a row. */
  function BackN(t: Timeline, n: nat): Timeline
    decreases n
  {
    if n == 0 then t else Back(BackN(t, n - 1))
  }

  /** `n` redos in a row. */
  function ForwardN(t: Timeline, n: nat): Timeline
    decreases n
  {
    if n == 0 then t else ForwardN(Forward(t), n - 1)
  }

  /** Undos walk back along the same timeline, one image at a time. */
  lemma {:induction false} BackNWalks(t: Timeline, n: nat)
    requires n <= |t.history|
    ensures Images(BackN(t, n)) == Images(t)
    ensures |BackN(t, n).history| == |t.history| - n
    decreases n
  {
    if n > 0 {
      BackNWalks(t, n - 1);
    }
  }

  /** Any number of undos, as long as there is history for each, followed by as
      many redos gives the timeline back exactly. */
  lemma {:induction false} ForwardNAfterBackN(t: Timeline, n: nat)
    requires n <= |t.history|
    ensures ForwardN(BackN(t, n), n) == t
    decreases n
  {
    if n > 0 {
      var u := BackN(t, n - 1);
      BackNWalks(t, n - 1);
      ForwardAfterBack(u);
      ForwardNAfterBackN(t, n - 1);
    }
  }

  /** Undoing all the way back reaches the oldest image of the timeline. */
  lemma BackToStart(t: Timeline)
    ensures BackN(t, |t.history|).history == []
    ensures BackN(t, |t.history|).image == Images(t)[0]
  {
    var s := BackN(t, |t.history|);
    BackNWalks(t, |t.history|);
    assert Images(s) == [s.image] + s.future;
  }

  /** Reset shows the image that undoing all the way back would show, provided
      that image is not null; the redo stack is emptied instead of filled. */
  lemma RestartShowsStart(t: Timeline)
    requires Images(t)[0].Some?
    ensures Restart(t).image == BackN(t, |t.history|).image
  {
    BackToStart(t);
  }

  // ---------------------------------------------------------------------------
  // The crop rectangle

  /** `imageProperties` as far as the crop uses it: the loaded image's size. */
  datatype Properties = Properties(width: real, height: real)

  /** The component's `crop` state, in pixels. `aspect` is `None` where JavaScript
      would compute a non-finite ratio (a division by a zero height). */
  datatype PanelCrop = PanelCrop(aspect: Option<real>, width: real, height: real, x: real, y: real)

  const InitialCrop: PanelCrop := PanelCrop(Some(5.0 / 4.0), 0.0, 0.0, 0.0, 0.0)

  /** `a / b` as a finite JavaScript number, if it is one. */
  function Ratio(a: real, b: real): (r: Option<real>)
    ensures r.Some? <==> b != 0.0
    ensures r.Some? ==> r.value * b == a
  {
    if b == 0.0 then None else Some(a / b)
  }

  /** `handleCropOptionChange`'s table. Every option keeps the position; an option
      outside the table only sets the aspect back to 5:4. */
  function OptionCrop(c: PanelCrop, p: Properties, option: string): (r: PanelCrop)
    ensures r.x == c.x && r.y == c.y
    ensures option == "Full" ==> r == c.(aspect := Ratio(p.width, p.height), width := p.width, height := p.height)
    ensures option == "Half" ==> r == c.(aspect := Some(1.0 / 2.0), width := p.width / 2.0, height := p.height / 2.0)
    ensures option == "Square" ==>
      && r.aspect == Some(1.0) && r.width == r.height <= p.width && r.height <= p.height
      && (r.width == p.width || r.height == p.height)
    ensures option == "4:4" ==> r == c.(aspect := Some(1.0), width := p.width, height := p.width)
    ensures option == "5:4" ==> r == c.(aspect := Some(5.0 / 4.0), width := p.width, height := p.width * 4.0 / 5.0)
    ensures option !in {"Full", "Half", "Square", "4:4", "5:4"} ==> r == c.(aspect := Some(5.0 / 4.0))
  {
    match option
    case "Full" => c.(aspect := Ratio(p.width, p.height), width := p.width, height := p.height)
    case "Half" => c.(aspect := Some(1.0 / 2.0), width := p.width / 2.0, height := p.height / 2.0)
    case "Square" =>
      var m := if p.width <= p.height then p.width else p.height;
      c.(aspect := Some(1.0 / 1.0), width := m, height := m)
    case "4:4" => c.(aspect := Some(4.0 / 4.0), width := p.width, height := p.width)
    case "5:4" => c.(aspect := Some(5.0 / 4.0), width := p.width, height := (p.width * 4.0) / 5.0)
    case _ => c.(aspect := Some(5.0 / 4.0))
  }

  /** Full, Square, 4:4 and 5:4 give a crop whose own shape is the aspect they
      store. */
  lemma OptionShapeIsAspect(c: PanelCrop, p: Properties, option: string)
    requires p.width > 0.0 && p.height > 0.0
    requires option in {"Full", "Square", "4:4", "5:4"}
    ensures var r := OptionCrop(c, p, option);
      r.height > 0.0 && r.aspect == Some(r.width / r.height)
  {
    var r := OptionCrop(c, p, option);
    if option == "5:4" {
      assert r.height == p.width * 4.0 / 5.0 && r.height > 0.0;
      assert r.width == (5.0 / 4.0) * r.height;
      assert r.width / r.height == 5.0 / 4.0;
    } else if option == "Square" || option == "4:4" {
      assert r.width == r.height && r.width / r.height == 1.0;
    }
  }

  /** Half stores the aspect 1/2 but halves both sides, so its crop has that shape
      only on an image twice as tall as it is wide. */
  lemma HalfShapeIsAspectOnlyWhenTall(c: PanelCrop, p: Properties)
    requires p.width > 0.0 && p.height > 0.0
    ensures var r := OptionCrop(c, p, "Half");
      r.aspect == Some(r.width / r.height) <==> p.height == 2.0 * p.width
  {
    var r := OptionCrop(c, p, "Half");
    assert r.width / r.height == p.width / p.height;
    if p.width / p.height == 1.0 / 2.0 {
      assert p.height == 2.0 * p.width by {
        assert p.width == (p.width / p.height) * p.height;
      }
    }
  }

  /** At the origin, Full, Half and Square fit in the image; 4:4 fits exactly on
      images at least as tall as wide and 5:4 on images at least 4/5 as tall as
      wide. */
  lemma OptionCropFits(c: PanelCrop, p: Properties)
    requires p.width >= 0.0 && p.height >= 0.0
    ensures forall option | option in {"Full", "Half", "Square"} ::
      OptionCrop(c, p, option).width <= p.width && OptionCrop(c, p, option).height <= p.height
    ensures OptionCrop(c, p, "4:4").height <= p.height <==> p.width <= p.height
    ensures OptionCrop(c, p, "5:4").height <= p.height <==> p.width * 4.0 <= p.height * 5.0
  {
  }

  /** The crop option a typed field writes to. */
  datatype Field = Width | Height | X | Y

  /** `handleWidthChange` and its siblings: a number `parseInt` can read replaces
      one field; anything else leaves the crop alone. */
  function Typed(c: PanelCrop, field: Field, text: string): (r: PanelCrop)
    ensures ParseInt(text).None? ==> r == c
    ensures ParseInt(text).Some? ==>
      var v := ParseInt(text).value as real;
      match field
      case Width => r == c.(width := v)
      case Height => r == c.(height := v)
      case X => r == c.(x := v)
      case Y => r == c.(y := v)
  {
    var n := ParseInt(text);
    if n.None? then c
    else
      match field
      case Width => c.(width := n.value as real)
      case Height => c.(height := n.value as real)
      case X => c.(x := n.value as real)
      case Y => c.(y := n.value as real)
  }

  /** Typing a field's shown integer back into it leaves the crop as it was. */
  lemma RetypingKeepsCrop(c: PanelCrop, n: int)
    requires c.width == n as real
    ensures Typed(c, Width, IntToString(n)) == c
  {
    ParseIntOfIntToString(n);
  }

  /** Typing into two different fields gives the same crop in either order. */
  lemma TypedFieldsCommute(c: PanelCrop, f: Field, g: Field, s: string, t: string)
    requires f != g
    ensures Typed(Typed(c, f, s), g, t) == Typed(Typed(c, g, t), f, s)
  {
  }

  // ---------------------------------------------------------------------------
  // The component as an object

  /** All the state of one ImagePannel component. */
  datatype PanelState = PanelState(
    image: Option<Picture>, imageProperties: Properties, crop: PanelCrop,
    croppedImage: Option<Picture>, cropOption: string,
    history: seq<Option<Picture>>, future: seq<Option<Picture>>)

  function LineOf(s: PanelState): Timeline {
    Timeline(s.image, s.history, s.future)
  }

  /** The state with its timeline replaced. */
  function WithLine(s: PanelState, t: Timeline): (r: PanelState)
    ensures LineOf(r) == t
    ensures r.(image := s.image, history := s.history, future := s.future) == s
  {
    s.(image := t.image, history := t.history, future := t.future)
  }

  class Panel {
    /** True for the ImageCompressor page's copy, which also tracks `croppedImage`
        on load, crop and reset. */
    const nested: bool
    var image: Option<Picture>
    var imageProperties: Properties
    var crop: PanelCrop
    var croppedImage: Option<Picture>
    var cropOption: string
    var history: seq<Option<Picture>>
    var future: seq<Option<Picture>>

    function State(): PanelState
      reads this
    {
      PanelState(image, imageProperties, crop, croppedImage, cropOption, history, future)
    }

    /** The initial state: no image, a 5:4 crop of size zero, option "5:4". */
    constructor (nested: bool)
      ensures this.nested == nested
      ensures State() == PanelState(None, Properties(0.0, 0.0), InitialCrop, None, "5:4", [], [])
    {
      this.nested := nested;
      image := None;
      imageProperties := Properties(0.0, 0.0);
      crop := InitialCrop;
      croppedImage := None;
      cropOption := "5:4";
      history, future := [], [];
    }

    /** `img.onload` inside `handleImageUpload`: the picture is shown with a crop
        over all of it and an empty timeline. */
    method ImageLoaded(picture: Picture, width: real, height: real)
      modifies this
      ensures State() == old(State()).(
        image := Some(picture), imageProperties := Properties(width, height),
        crop := PanelCrop(Some(5.0 / 4.0), width, height, 0.0, 0.0),
        history := [], future := [],
        croppedImage := if nested then None else old(croppedImage))
    {
      image := Some(picture);
      imageProperties := Properties(width, height);
      crop := PanelCrop(Some(5.0 / 4.0), width, height, 0.0, 0.0);
      history := [];
      future := [];
      if nested {
        croppedImage := None;
      }
    }

    /** `onCropComplete` with the crop the library reports. `drawable` says whether
        `getCroppedImg` is handed an image element the canvas can draw; only then
        does it return, with `rendered`. Neither copy ever hands it one: the
        components copy passes the image's data-URL string, which `drawImage`
        rejects with a TypeError, and the ImageCompressor copy passes `imgRef.current`,
        which is never attached (nor is this handler wired to its crop widget).
        So in the source `drawable` is always false and `croppedImage` never set. */
    method CropComplete(reported: PanelCrop, drawable: bool, rendered: Picture)
      modifies this
      ensures image.Some? && reported.width != 0.0 && reported.height != 0.0 && drawable ==>
        State() == old(State()).(croppedImage := Some(rendered))
      ensures !drawable ==> State() == old(State())
      ensures !(image.Some? && reported.width != 0.0 && reported.height != 0.0) ==> State() == old(State())
    {
      if image.Some? && reported.width != 0.0 && reported.height != 0.0 {
        if !drawable {
          return;
        }
        croppedImage := Some(rendered);
      }
    }

    /** `handleCropOptionChange`: a copy of the crop is adjusted field by field. */
    method CropOptionChange(option: string)
      modifies this
      ensures State() == old(State()).(cropOption := option, crop := OptionCrop(old(crop), imageProperties, option))
    {
      cropOption := option;
      var newCrop := crop;
      var w, h := imageProperties.width, imageProperties.height;
      if option == "Full" {
        newCrop := newCrop.(aspect := Ratio(w, h));
        newCrop := newCrop.(width := w);
        newCrop := newCrop.(height := h);
      } else if option == "Half" {
        newCrop := newCrop.(aspect := Some(1.0 / 2.0));
        newCrop := newCrop.(width := w / 2.0);
        newCrop := newCrop.(height := h / 2.0);
      } else if option == "Square" {
        newCrop := newCrop.(aspect := Some(1.0 / 1.0));
        newCrop := newCrop.(width := if w <= h then w else h);
        newCrop := newCrop.(height := if w <= h then w else h);
      } else if option == "4:4" {
        newCrop := newCrop.(aspect := Some(4.0 / 4.0));
        newCrop := newCrop.(width := w);
        newCrop := newCrop.(height := w);
      } else if option == "5:4" {
        newCrop := newCrop.(aspect := Some(5.0 / 4.0));
        newCrop := newCrop.(width := w);
        newCrop := newCrop.(height := (w * 4.0) / 5.0);
      } else {
        newCrop := newCrop.(aspect := Some(5.0 / 4.0));
      }
      crop := newCrop;
    }

    /** `handleCrop`. `imgMounted` is `imgRef.current`: on the components page the
        image element carries the ref whenever an image is shown; the
        ImageCompressor copy never attaches it, so there it is always false. */
    method Crop(imgMounted: bool, rendered: Picture)
      modifies this
      ensures imgMounted && old(crop).width != 0.0 && old(crop).height != 0.0 ==>
        State() == WithLine(old(State()), CommitImage(old(LineOf(State())), rendered)).(
          crop := old(crop).(width := 0.0, height := 0.0, x := 0.0, y := 0.0),
          croppedImage := if nested then Some(rendered) else old(croppedImage))
      ensures !(imgMounted && old(crop).width != 0.0 && old(crop).height != 0.0) ==> State() == old(State())
    {
      if imgMounted && crop.width != 0.0 && crop.height != 0.0 {
        history := history + [image];
        image := Some(rendered);
        if nested {
          croppedImage := Some(rendered);
        }
        future := [];
        crop := crop.(width := 0.0, height := 0.0, x := 0.0, y := 0.0);
      }
    }

    method Undo()
      modifies this
      ensures State() == WithLine(old(State()), Back(old(LineOf(State()))))
    {
      if |history| > 0 {
        var previousImage := history[|history| - 1];
        future := [image] + future;
        image := previousImage;
        history := history[..|history| - 1];
      }
    }

    method Redo()
      modifies this
      ensures State() == WithLine(old(State()), Forward(old(LineOf(State()))))
    {
      if |future| > 0 {
        var nextImage := future[0];
        history := history + [image];
        image := nextImage;
        future := future[1..];
      }
    }

    method Reset()
      modifies this
      ensures State() == WithLine(old(State()), Restart(old(LineOf(State())))).(
        croppedImage := if nested then None else old(croppedImage))
    {
      var first := if |history| > 0 then history[0] else None;
      history := [];
      future := [];
      image := if first.Some? then first else image;
      if nested {
        croppedImage := None;
      }
    }

    /** The four number fields. */
    method FieldChange(field: Field, text: string)
      modifies this
      ensures State() == old(State()).(crop := Typed(old(crop), field, text))
    {
      var n := ParseInt(text);
      if n.Some? {
        match field
        case Width => crop := crop.(width := n.value as real);
        case Height => crop := crop.(height := n.value as real);
        case X => crop := crop.(x := n.value as real);
        case Y => crop := crop.(y := n.value as real);
      }
    }
  }
}
