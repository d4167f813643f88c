/** `SimpleFacerec.detect_known_faces`: name every face the detector found on
    the downsized frame, then map the face locations back to the full frame.
    The face library is a parameter: its per-pair distance and the tolerance
    its comparison applies. */
module Detect {
  import opened Wrappers
  import opened FaceStore
  import opened Matcher
  import opened Reconciler

  /** The face library's calls: `face_distance` for one pair of encodings, and
      the tolerance `compare_faces` uses (it flags exactly the stored faces
      whose distance is within the tolerance). */
  datatype FaceLibrary = FaceLibrary(distance: (Encoding, Encoding) -> real, tolerance: real)

  /** What the detector and encoder report on the downsized frame: the face
      locations and the face encodings, each in detector order. */
  datatype Detection = Detection(locations: seq<Location>, encodings: seq<Encoding>)

  /** `face_distance(known_face_encodings, face)`: one distance per stored face. */
  function FaceDistances(known: seq<Encoding>, face: Encoding, lib: FaceLibrary): (d: seq<real>)
    ensures |d| == |known|
    ensures forall i :: 0 <= i < |known| ==> d[i] == lib.distance(known[i], face)
  {
    seq(|known|, i requires 0 <= i < |known| => lib.distance(known[i], face))
  }

  /** `compare_faces(known_face_encodings, face)`: one flag per stored face. */
  function CompareFaces(known: seq<Encoding>, face: Encoding, lib: FaceLibrary): (m: seq<bool>)
    ensures FlagsAgree(FaceDistances(known, face, lib), m, lib.tolerance)
  {
    seq(|known|, i requires 0 <= i < |known| => lib.distance(known[i], face) <= lib.tolerance)
  }

  /** The name the loop body assigns to one observed face. */
  function NameFor(r: Recognizer, face: Encoding, lib: FaceLibrary): Result<string, MatchError>
    requires r.Valid()
  {
    BestMatch(r.knownFaceNames,
              FaceDistances(r.knownFaceEncodings, face, lib),
              CompareFaces(r.knownFaceEncodings, face, lib))
  }

  /** The loop over the observed encodings: one name per face, in detector
      order; an empty store raises at the first face. */
  function FaceNames(r: Recognizer, encodings: seq<Encoding>, lib: FaceLibrary): (res: Result<seq<string>, MatchError>)
    requires r.Valid()
    ensures res.Failure? <==> |encodings| > 0 && r.Size() == 0
    ensures res.Success? ==> |res.value| == |encodings|
    ensures res.Success? ==>
              forall i :: 0 <= i < |encodings| ==> NameFor(r, encodings[i], lib) == Success(res.value[i])
    ensures res.Success? ==>
              forall i :: 0 <= i < |encodings| ==> res.value[i] == UnknownName || res.value[i] in r.knownFaceNames
    decreases |encodings|
  {
    if |encodings| == 0 then Success([])
    else
      match NameFor(r, encodings[0], lib)
      case Failure(e) => Failure(e)
      case Success(name) =>
        match FaceNames(r, encodings[1..], lib)
        case Failure(e) => Failure(e)
        case Success(rest) =>
          assert forall i :: 1 <= i < |encodings| ==> encodings[1..][i - 1] == encodings[i];
          Success([name] + rest)
  }

  /** `detect_known_faces`: the names of the observed faces and their
      locations rescaled to the full frame. */
  function DetectKnownFaces(r: Recognizer, det: Detection, lib: FaceLibrary)
    : (res: Result<(seq<Location>, seq<string>), MatchError>)
    requires r.Valid() && r.frameResizing > 0.0
    ensures res.Failure? <==> |det.encodings| > 0 && r.Size() == 0
    ensures res.Success? ==> |res.value.0| == |det.locations| && |res.value.1| == |det.encodings|
    ensures res.Success? ==>
              forall i :: 0 <= i < |det.locations| ==>
                res.value.0[i] == RescaleLocation(det.locations[i], r.frameResizing)
    ensures res.Success? ==>
              forall i :: 0 <= i < |det.encodings| ==> NameFor(r, det.encodings[i], lib) == Success(res.value.1[i])
  {
    match FaceNames(r, det.encodings, lib)
    case Failure(e) => Failure(e)
    case Success(names) => Success((RescaleLocations(det.locations, r.frameResizing), names))
  }

  /** Whether some stored face is within the library's tolerance of `face`. */
  predicate SomeStoredFaceClose(r: Recognizer, face: Encoding, lib: FaceLibrary) {
    exists k :: 0 <= k < |r.knownFaceEncodings| && lib.distance(r.knownFaceEncodings[k], face) <= lib.tolerance
  }

  /** What a face is called, in terms of the store alone: "Unknown" when no
      stored face is within tolerance; otherwise the name of the first of the
      nearest stored faces, which is itself within tolerance. That name is
      "Unknown" only if a reference image was itself labelled "Unknown". */
  lemma NameForIff(r: Recognizer, face: Encoding, lib: FaceLibrary)
    requires r.Valid() && r.Size() > 0
    ensures !SomeStoredFaceClose(r, face, lib) ==> NameFor(r, face, lib) == Success(UnknownName)
    ensures SomeStoredFaceClose(r, face, lib) ==>
              exists k: nat :: && IsFirstMin(FaceDistances(r.knownFaceEncodings, face, lib), k)
                               && lib.distance(r.knownFaceEncodings[k], face) <= lib.tolerance
                               && NameFor(r, face, lib) == Success(r.knownFaceNames[k])
    ensures SomeStoredFaceClose(r, face, lib) && UnknownName !in r.knownFaceNames ==>
              NameFor(r, face, lib) != Success(UnknownName)
  {
    var d := FaceDistances(r.knownFaceEncodings, face, lib);
    var m := CompareFaces(r.knownFaceEncodings, face, lib);
    RecognisedIff(d, m, lib.tolerance);
    var k := ArgMin(d);
    if SomeStoredFaceClose(r, face, lib) {
      var i :| 0 <= i < |r.knownFaceEncodings| && lib.distance(r.knownFaceEncodings[i], face) <= lib.tolerance;
      assert d[i] <= lib.tolerance;
      assert MatchIndex(d, m) == Some(k);
    } else {
      assert forall i :: 0 <= i < |d| ==> d[i] > lib.tolerance;
      assert !m[k];
    }
  }
}
