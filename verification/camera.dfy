/** The pure parts of the camera widget and the application: the on/off
    recognition switch, the pairing of locations with names, and the overlay
    drawn for each face on a frame tick. */
module Camera {
  import opened Wrappers
  import opened Reconciler
  import opened Matcher
  import opened FaceStore
  import opened Detect

  /** The state of `KivyCamera` that the model keeps: the recognition flag.
      The capture device and the face recogniser are passed to `Update`. */
  datatype KivyCamera = KivyCamera(recognize: bool)

  /** A newly built camera widget does not recognise faces. */
  function NewCamera(): (c: KivyCamera)
    ensures !c.recognize
  {
    KivyCamera(false)
  }

  /** The "Start Recognition" button. */
  function StartRecognition(c: KivyCamera): (c': KivyCamera)
    ensures c'.recognize
  {
    c.(recognize := true)
  }

  /** The "Stop Recognition" button. */
  function StopRecognition(c: KivyCamera): (c': KivyCamera)
    ensures !c'.recognize
  {
    c.(recognize := false)
  }

  /** A press of one of the two recognition buttons. */
  datatype Button = StartButton | StopButton

  function Press(c: KivyCamera, b: Button): KivyCamera {
    match b
    case StartButton => StartRecognition(c)
    case StopButton => StopRecognition(c)
  }

  /** The camera after a run of button presses, oldest first. */
  function PressAll(c: KivyCamera, presses: seq<Button>): KivyCamera
    decreases |presses|
  {
    if |presses| == 0 then c
    else PressAll(Press(c, presses[0]), presses[1..])
  }

  /** Each button is idempotent: pressing it again changes nothing. */
  lemma PressIdempotent(c: KivyCamera, b: Button)
    ensures Press(Press(c, b), b) == Press(c, b)
  {
  }

  /** The switch has no memory beyond its last press: recognition is on
      exactly when the last button pressed was "Start", and untouched when
      nothing was pressed. */
  lemma {:induction false} LastPressWins(c: KivyCamera, presses: seq<Button>)
    ensures PressAll(c, presses).recognize
            == if |presses| == 0 then c.recognize else presses[|presses| - 1] == StartButton
    decreases |presses|
  {
    if |presses| > 0 {
      LastPressWins(Press(c, presses[0]), presses[1..]);
      if |presses| > 1 {
        assert presses[1..][|presses[1..]| - 1] == presses[|presses| - 1];
      }
    }
  }

  /** Python's `zip`: pairs up two sequences, stopping at the shorter one. */
  function Zip<A, B>(a: seq<A>, b: seq<B>): (z: seq<(A, B)>)
    ensures |z| == if |a| <= |b| then |a| else |b|
    ensures forall i :: 0 <= i < |z| ==> z[i] == (a[i], b[i])
    decreases |a|
  {
    if |a| == 0 || |b| == 0 then []
    else
      var rest := Zip(a[1..], b[1..]);
      assert forall i :: 1 <= i < |rest| + 1 ==> a[1..][i - 1] == a[i] && b[1..][i - 1] == b[i];
      [(a[0], b[0])] + rest
  }

  /** A pixel position `(x, y)` on the full frame. */
  datatype Point = Point(x: int, y: int)

  /** A colour in OpenCV's blue-green-red order. */
  datatype Color = Color(blue: int, green: int, red: int)

  /** Colour of the box and label of an unrecognised face. */
  const UnknownColor: Color := Color(0, 0, 200)
  /** Colour of the box and label of a recognised face. */
  const KnownColor: Color := Color(0, 128, 0)
  /** How far below the box's bottom edge the label's baseline sits. */
  const LabelOffset: int := 25

  /** What is drawn for one face: the label text at `textOrigin`, and the
      rectangle between the corners `boxFrom` and `boxTo`, both in `color`. */
  datatype Overlay = Overlay(text: string, textOrigin: Point, boxFrom: Point, boxTo: Point, color: Color)

  /** The overlay the update loop draws for a face at `loc` named `name`. */
  function DrawFace(loc: Location, name: string): Overlay {
    var color := if name == UnknownName then UnknownColor else KnownColor;
    Overlay(name, Point(loc.left, loc.bottom + LabelOffset),
            Point(loc.left, loc.top), Point(loc.right, loc.bottom), color)
  }

  /** The face location an overlay frames, read back from its rectangle. */
  function FramedLocation(o: Overlay): Location {
    Location(o.boxFrom.y, o.boxTo.x, o.boxTo.y, o.boxFrom.x)
  }

  /** The overlay for a face: its label is the name, red exactly when the
      name is "Unknown" and green otherwise; its rectangle frames exactly the
      face's location; the label starts at the box's left edge, 25 pixels
      below its bottom edge. */
  lemma DrawFaceSpec(loc: Location, name: string)
    ensures DrawFace(loc, name).text == name
    ensures DrawFace(loc, name).color == UnknownColor <==> name == UnknownName
    ensures DrawFace(loc, name).color == KnownColor <==> name != UnknownName
    ensures FramedLocation(DrawFace(loc, name)) == loc
    ensures DrawFace(loc, name).textOrigin.x == DrawFace(loc, name).boxFrom.x
    ensures DrawFace(loc, name).textOrigin.y == DrawFace(loc, name).boxTo.y + LabelOffset
  {
  }

  /** One overlay per (location, name) pair, in order. */
  function DrawFaces(pairs: seq<(Location, string)>): (os: seq<Overlay>)
    ensures |os| == |pairs|
    ensures forall i :: 0 <= i < |pairs| ==>
              && FramedLocation(os[i]) == pairs[i].0
              && os[i].text == pairs[i].1
              && (os[i].color == UnknownColor <==> pairs[i].1 == UnknownName)
              && os[i].textOrigin == Point(pairs[i].0.left, pairs[i].0.bottom + LabelOffset)
  {
    seq(|pairs|, i requires 0 <= i < |pairs| => DrawFace(pairs[i].0, pairs[i].1))
  }

  /** What a timer tick does: no frame from the capture device, a frame shown
      with the given overlays, or an exception out of the recogniser. */
  datatype Tick = NoFrame | Shown(overlays: seq<Overlay>) | Raised(error: MatchError)

  /** `KivyCamera.update` for one tick. `ret` is whether the capture device
      delivered a frame and `det` what the detector would find on it; it is
      consulted only while recognition is on. */
  function Update(c: KivyCamera, ret: bool, sfr: Recognizer, det: Detection, lib: FaceLibrary): (t: Tick)
    requires sfr.Valid() && sfr.frameResizing > 0.0
    ensures t.NoFrame? <==> !ret
    ensures ret && !c.recognize ==> t == Shown([])
    ensures t.Raised? <==> ret && c.recognize && |det.encodings| > 0 && sfr.Size() == 0
    ensures t.Shown? && c.recognize ==>
              |t.overlays| == if |det.locations| <= |det.encodings| then |det.locations| else |det.encodings|
    ensures t.Shown? ==> forall i :: 0 <= i < |t.overlays| ==>
              t.overlays[i].text == UnknownName || t.overlays[i].text in sfr.knownFaceNames
  {
    if !ret then NoFrame
    else if !c.recognize then Shown([])
    else
      match DetectKnownFaces(sfr, det, lib)
      case Failure(e) => Raised(e)
      case Success((locations, names)) =>
        assert forall i :: 0 <= i < |det.encodings| ==> NameFor(sfr, det.encodings[i], lib) == Success(names[i]);
        assert forall i :: 0 <= i < |names| ==> names[i] == UnknownName || names[i] in sfr.knownFaceNames;
        Shown(DrawFaces(Zip(locations, names)))
  }

  /** While recognition is off nothing is detected: the tick is the same
      whatever the detector would have found and whatever the store holds. */
  lemma StoppedIgnoresDetection(c: KivyCamera, ret: bool, s1: Recognizer, s2: Recognizer,
                                d1: Detection, d2: Detection, lib1: FaceLibrary, lib2: FaceLibrary)
    requires s1.Valid() && s1.frameResizing > 0.0 && s2.Valid() && s2.frameResizing > 0.0
    requires !c.recognize
    ensures Update(c, ret, s1, d1, lib1) == Update(c, ret, s2, d2, lib2)
    ensures Update(c, ret, s1, d1, lib1) == if ret then Shown([]) else NoFrame
  {
  }

  /** A tick with recognition on, at the 0.25 resize factor of a freshly
      built recogniser: face i of the detector gets one overlay whose box is
      its downsized location scaled by four, labelled with the name the
      matcher gives its encoding. */
  lemma RecognisedTick(c: KivyCamera, sfr: Recognizer, det: Detection, lib: FaceLibrary, i: nat)
    requires sfr.Valid() && sfr.frameResizing == DefaultFrameResizing
    requires c.recognize && sfr.Size() > 0
    requires i < |det.locations| && i < |det.encodings|
    ensures var t := Update(c, true, sfr, det, lib);
            var loc := det.locations[i];
            && t.Shown? && i < |t.overlays|
            && FramedLocation(t.overlays[i]) == Location(4 * loc.top, 4 * loc.right, 4 * loc.bottom, 4 * loc.left)
            && t.overlays[i].textOrigin == Point(4 * loc.left, 4 * loc.bottom + LabelOffset)
            && NameFor(sfr, det.encodings[i], lib) == Success(t.overlays[i].text)
            && (t.overlays[i].color == UnknownColor <==> t.overlays[i].text == UnknownName)
  {
    var t := Update(c, true, sfr, det, lib);
    var res := DetectKnownFaces(sfr, det, lib);
    RescaleQuarter(det.locations[i]);
    var locations := res.value.0;
    var names := res.value.1;
    assert locations[i] == RescaleLocation(det.locations[i], 0.25);
    DrawFaceSpec(locations[i], names[i]);
  }
}
