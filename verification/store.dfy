/** The state of `SimpleFacerec` and its reference loader
    (`load_encoding_images`): two parallel, append-only lists of face
    encodings and the names they were registered under. */
module FaceStore {
  import opened Wrappers
  import Paths

  /** A face encoding, as produced by the face library's encoder. */
  type Encoding = seq<real>

  /** What reading one image and encoding the faces in it gives back:
      `Unreadable` when the image reader returns nothing (the colour
      conversion that follows then raises), otherwise every face encoding
      found, in the encoder's order. */
  datatype Decoded = Unreadable | Faces(encodings: seq<Encoding>)

  /** The exceptions that stop a batch load. */
  datatype LoadError =
    | UnreadableImage(path: string)
    | NoFaceFound(path: string)

  /** Resize factor applied to video frames before detection. */
  const DefaultFrameResizing: real := 0.25

  /** `SimpleFacerec`: the reference encodings, their names, and the frame
      resize factor. */
  datatype Recognizer = Recognizer(
    knownFaceEncodings: seq<Encoding>,
    knownFaceNames: seq<string>,
    frameResizing: real)
  {
    /** The two lists are parallel: entry i of one belongs to entry i of the other. */
    predicate Valid() {
      |knownFaceEncodings| == |knownFaceNames|
    }

    function Size(): nat {
      |knownFaceNames|
    }
  }

  /** A freshly constructed recognizer. */
  function Init(): (r: Recognizer)
    ensures r.Valid() && r.Size() == 0
    ensures r.frameResizing == 0.25
  {
    Recognizer([], [], DefaultFrameResizing)
  }

  /** The encoding registered for one image: the first face the encoder
      reports; an image with no face fails at index 0. */
  function FirstEncoding(path: string, encode: string -> Decoded): (r: Result<Encoding, LoadError>)
    ensures r.Success? <==> encode(path).Faces? && |encode(path).encodings| > 0
    ensures r.Success? ==> r.value == encode(path).encodings[0]
    ensures r.Failure? ==> r.error.path == path
    ensures r.Failure? ==> (r.error.NoFaceFound? <==> encode(path).Faces?)
  {
    match encode(path)
    case Unreadable => Failure(UnreadableImage(path))
    case Faces(es) => if |es| == 0 then Failure(NoFaceFound(path)) else Success(es[0])
  }

  /** Append one (encoding, name) pair to both lists. */
  function Append(r: Recognizer, e: Encoding, name: string): (r': Recognizer)
    requires r.Valid()
    ensures r'.Valid() && r'.Size() == r.Size() + 1
    ensures r'.knownFaceEncodings == r.knownFaceEncodings + [e]
    ensures r'.knownFaceNames == r.knownFaceNames + [name]
    ensures r'.frameResizing == r.frameResizing
  {
    r.(knownFaceEncodings := r.knownFaceEncodings + [e],
       knownFaceNames := r.knownFaceNames + [name])
  }

  /** The state after a load together with the exception that ended it, if
      any: entries appended before the exception stay in the store. */
  datatype LoadOutcome = LoadOutcome(recognizer: Recognizer, error: Option<LoadError>)

  /** Every image in `paths` can be read and shows at least one face. */
  predicate AllHaveFaces(paths: seq<string>, encode: string -> Decoded) {
    forall j :: 0 <= j < |paths| ==> FirstEncoding(paths[j], encode).Success?
  }

  /** The labels of a run of image paths, in path order. */
  function Labels(paths: seq<string>): seq<string> {
    seq(|paths|, j requires 0 <= j < |paths| => Paths.Stem(paths[j]))
  }

  /** The first encodings of a run of images that all show a face, in path order. */
  function FirstEncodings(paths: seq<string>, encode: string -> Decoded): seq<Encoding>
    requires AllHaveFaces(paths, encode)
  {
    seq(|paths|, j requires 0 <= j < |paths| => FirstEncoding(paths[j], encode).value)
  }

  /** Splitting off the first path of a run splits off its label and encoding. */
  lemma RunCons(paths: seq<string>, n: nat, encode: string -> Decoded)
    requires 1 <= n <= |paths|
    requires AllHaveFaces(paths[..n], encode)
    ensures AllHaveFaces(paths[1..][..n - 1], encode)
    ensures Labels(paths[..n]) == [Paths.Stem(paths[0])] + Labels(paths[1..][..n - 1])
    ensures FirstEncodings(paths[..n], encode)
            == [FirstEncoding(paths[0], encode).value] + FirstEncodings(paths[1..][..n - 1], encode)
  {
    var head := paths[..n];
    var tail := paths[1..][..n - 1];
    assert forall j :: 0 <= j < n - 1 ==> tail[j] == head[j + 1];
  }

  /** Number of entries a load appended. */
  function Added(before: Recognizer, out: LoadOutcome): int {
    out.recognizer.Size() - before.Size()
  }

  /** What `load_encoding_images` promises about the state `out` it leaves
      after loading `paths` into `r`: with n the number of entries appended,
      the first n paths all showed a face, the names grew by exactly their
      labels and the encodings by exactly their first encodings, in path
      order and with the earlier entries untouched; the load completed iff
      n covers every path, and otherwise path n is the one that failed. */
  predicate LoadPost(r: Recognizer, paths: seq<string>, encode: string -> Decoded, out: LoadOutcome) {
    var n := Added(r, out);
    && out.recognizer.Valid()
    && out.recognizer.frameResizing == r.frameResizing
    && 0 <= n <= |paths|
    && AllHaveFaces(paths[..n], encode)
    && out.recognizer.knownFaceNames == r.knownFaceNames + Labels(paths[..n])
    && out.recognizer.knownFaceEncodings == r.knownFaceEncodings + FirstEncodings(paths[..n], encode)
    && (out.error.None? <==> n == |paths|)
    && (out.error.Some? ==> FirstEncoding(paths[n], encode) == Failure(out.error.value))
  }

  /** A run whose first image and remaining images all show a face. */
  lemma FacesCons(paths: seq<string>, n: nat, encode: string -> Decoded)
    requires 1 <= n <= |paths|
    requires FirstEncoding(paths[0], encode).Success?
    requires AllHaveFaces(paths[1..][..n - 1], encode)
    ensures AllHaveFaces(paths[..n], encode)
  {
    forall j | 0 <= j < n ensures FirstEncoding(paths[..n][j], encode).Success? {
      if j > 0 { assert paths[..n][j] == paths[1..][..n - 1][j - 1]; }
    }
  }

  /** The recursive step of the loader: registering the first path and then
      loading the rest establishes the loader's promise for the whole run. */
  lemma LoadStep(r: Recognizer, paths: seq<string>, encode: string -> Decoded, enc: Encoding, out: LoadOutcome)
    requires r.Valid() && |paths| > 0
    requires FirstEncoding(paths[0], encode) == Success(enc)
    requires LoadPost(Append(r, enc, Paths.Stem(paths[0])), paths[1..], encode, out)
    ensures LoadPost(r, paths, encode, out)
  {
    var r1 := Append(r, enc, Paths.Stem(paths[0]));
    var n := Added(r, out);
    var rest := paths[1..];
    assert Added(r1, out) == n - 1;
    assert AllHaveFaces(rest[..n - 1], encode);
    FacesCons(paths, n, encode);
    RunCons(paths, n, encode);
    assert out.recognizer.knownFaceNames == r.knownFaceNames + Labels(paths[..n]);
    assert out.recognizer.knownFaceEncodings == r.knownFaceEncodings + FirstEncodings(paths[..n], encode);
    if out.error.Some? {
      assert paths[n] == rest[n - 1];
    }
  }

  /** `load_encoding_images` over the given image paths, in order. Each path
      appends its first encoding under the path's stem; the first path that
      cannot be read or shows no face ends the batch with that error. */
  function LoadEncodingImages(r: Recognizer, paths: seq<string>, encode: string -> Decoded): (out: LoadOutcome)
    requires r.Valid()
    ensures LoadPost(r, paths, encode, out)
    decreases |paths|
  {
    if |paths| == 0 then
      assert paths[..0] == [];
      LoadOutcome(r, None)
    else
      match FirstEncoding(paths[0], encode)
      case Failure(e) =>
        assert paths[..0] == [];
        LoadOutcome(r, Some(e))
      case Success(enc) =>
        var out := LoadEncodingImages(Append(r, enc, Paths.Stem(paths[0])), paths[1..], encode);
        LoadStep(r, paths, encode, enc, out);
        out
  }

  /** A batch load completes exactly when every image in it can be read and
      shows at least one face. */
  lemma LoadCompletesIff(r: Recognizer, paths: seq<string>, encode: string -> Decoded)
    requires r.Valid()
    ensures LoadEncodingImages(r, paths, encode).error.None? <==> AllHaveFaces(paths, encode)
  {
    var out := LoadEncodingImages(r, paths, encode);
    if out.error.Some? {
      var k := Added(r, out);
      assert FirstEncoding(paths[k], encode).Failure?;
    } else {
      assert paths[..|paths|] == paths;
    }
  }

  /** Loading `p1 + p2` is loading `p1` and then, unless that raised, `p2`:
      a batch is the same as its parts loaded one after the other. */
  lemma {:induction false} LoadConcat(r: Recognizer, p1: seq<string>, p2: seq<string>, encode: string -> Decoded)
    requires r.Valid()
    ensures LoadEncodingImages(r, p1 + p2, encode) ==
            (var o := LoadEncodingImages(r, p1, encode);
             if o.error.Some? then o else LoadEncodingImages(o.recognizer, p2, encode))
    decreases |p1|
  {
    if |p1| == 0 {
      assert p1 + p2 == p2;
    } else {
      assert (p1 + p2)[0] == p1[0];
      assert (p1 + p2)[1..] == p1[1..] + p2;
      match FirstEncoding(p1[0], encode)
      case Failure(e) =>
      case Success(enc) =>
        LoadConcat(Append(r, enc, Paths.Stem(p1[0])), p1[1..], p2, encode);
    }
  }

  /** Loading the same images twice registers each of them twice: the second
      load appends the same entries again instead of replacing them. */
  lemma LoadTwiceDuplicates(r: Recognizer, paths: seq<string>, encode: string -> Decoded)
    requires r.Valid()
    requires LoadEncodingImages(r, paths, encode).error.None?
    ensures var once := LoadEncodingImages(r, paths, encode).recognizer;
            var twice := LoadEncodingImages(once, paths, encode);
            && twice.error.None?
            && twice.recognizer.knownFaceNames == once.knownFaceNames + once.knownFaceNames[r.Size()..]
            && twice.recognizer.knownFaceEncodings == once.knownFaceEncodings + once.knownFaceEncodings[r.Size()..]
  {
    var once := LoadEncodingImages(r, paths, encode).recognizer;
    LoadCompletesIff(r, paths, encode);
    LoadCompletesIff(once, paths, encode);
    assert paths[..|paths|] == paths;
    assert once.knownFaceNames[r.Size()..] == Labels(paths);
    assert once.knownFaceEncodings[r.Size()..] == FirstEncodings(paths, encode);
  }
}
