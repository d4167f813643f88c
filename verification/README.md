# Face recognition core, modelled in Dafny

This project models the decision logic of a small face-recognition camera app.
The app registers reference face images under names. On each video frame it reports a
box and a name, or "Unknown", for every face it sees.

- **`SimpleFacerec`** (`facerecognition.py`) holds the reference store: two parallel,
  append-only lists of face encodings and names, plus the frame resize factor 0.25.
- **`load_encoding_images`** appends the first encoding of each image under the file's
  stem. The first image that cannot be read or shows no face aborts the rest of the
  batch. Entries appended before the abort stay in the store.
- **`detect_known_faces`** names each observed face. It picks the nearest stored face
  (`np.argmin`, so the first minimum wins ties). It reports that face's name only if the
  library's match flag for it is set. It then divides every face location by 0.25 and
  truncates it to an integer.
- **The camera widget** (`main.py`) has an on/off recognition switch. On each tick with
  recognition on, it zips locations with names and draws a red (unknown) or green (known)
  box and label per face.

Modules:

| file | module | models |
|---|---|---|
| wrappers.dfy | `Wrappers` | `Option` and `Result`, which stand in for Python exceptions |
| paths.dfy | `Paths` | `os.path.basename` and the root of `os.path.splitext` (POSIX `/` only) |
| store.dfy | `FaceStore` | `SimpleFacerec` state and `load_encoding_images` |
| matcher.dfy | `Matcher` | the argmin and the threshold decision for one observed face |
| reconciler.dfy | `Reconciler` | face locations and their rescaling to the full frame |
| detect.dfy | `Detect` | `detect_known_faces`, with the face library as a parameter |
| camera.dfy | `Camera` | recognition toggle, `zip`, per-face overlay, `KivyCamera.update` |

Two behaviours are kept as the code has them, though a more forgiving implementation would change them:
- An empty store with at least one observed face is an error. `np.argmin` raises on an
  empty distance vector; the code does not answer "Unknown" here.
- A faceless image aborts the batch load; it is not skipped.

The face library is an input, a `FaceLibrary` record. It holds a distance function
(`face_distance` for one pair) and the tolerance that `compare_faces` applies. The match
flags are built from these as `distance <= tolerance`. This is the assumed contract of
`compare_faces`.

A reference image whose file stem is literally `Unknown` gets a name equal to the
matcher's default. Its matches are then drawn in the unknown colour
(`Camera.DrawFaceSpec` keys the colour on the name alone).

## Model

| member | source | states |
|---|---|---|
| FaceStore.Init | facerecognition.py:8-13 | a new recogniser has empty, equal-length encoding and name lists and resize factor 0.25 |
| FaceStore.FirstEncoding | facerecognition.py:26-32 | an image yields a store entry iff it is readable and shows a face, and the entry is its first encoding; a faceless image fails with NoFaceFound and an unreadable one with UnreadableImage, both naming the path |
| FaceStore.Append | facerecognition.py:35-36 | appending one (encoding, name) pair keeps the two lists parallel, adds exactly that pair at the end of each list and leaves the resize factor unchanged |
| FaceStore.LoadEncodingImages | facerecognition.py:24-36 | after a load, with n entries appended: the lists are still parallel and the factor is unchanged; the old entries are an unchanged prefix; the names grew by exactly the labels of the first n paths and the encodings by their first encodings, in path order; the load completed iff n = number of paths; otherwise path n is the one that failed, with that error |
| FaceStore.LoadStep | facerecognition.py:24-36 | registering the first path and then loading the rest establishes the whole run's load promise (the loop step) |
| FaceStore.LoadCompletesIff | facerecognition.py:24-36 | a batch load completes without raising iff every image in it is readable and shows a face |
| FaceStore.LoadConcat | facerecognition.py:24-36 | loading p1 + p2 equals loading p1 and then, unless that raised, p2 |
| FaceStore.LoadTwiceDuplicates | facerecognition.py:24-36 | after a load that completed, loading the same images again succeeds and appends the same names and encodings a second time (no deduplication) |
| Paths.LastSepEndSpec | facerecognition.py:30 | the split point is just after the last '/', and no '/' follows it |
| Paths.LastDotSpec | facerecognition.py:30 | the dot found is the last '.', or there is none at all |
| Paths.BasenameSpec | facerecognition.py:30 | the base name is the suffix of the path after its last '/', and contains no '/' |
| Paths.StemSpec | facerecognition.py:30 | the label is a prefix of the base name with no '/'; it is the base name cut just before its last dot when some non-dot character precedes that dot, and the whole base name when there is no dot or only dots precede the last one |
| Paths.StemOfImageFile | facerecognition.py:30 | `dir/name.ext` is labelled `name` for any directory, when name does not start with a dot and ext has no dot |
| Matcher.ArgMin | facerecognition.py:63 | the index returned has a minimal distance, and every earlier index has a strictly larger one (first minimum wins ties) |
| Matcher.FirstMinUnique | facerecognition.py:63 | there is at most one first minimum, so the argmin is determined by the distances |
| Matcher.MatchIndex | facerecognition.py:59-65 | the reported index, if any, is the first minimum and has its match flag set; a name is reported iff the first minimum's flag is set |
| Matcher.BestMatch | facerecognition.py:58-65 | fails iff the store is empty; otherwise the result is "Unknown" or a stored name; it is the first minimum's name when its flag is set and "Unknown" when it is not |
| Matcher.RecognisedIff | facerecognition.py:58-65 | with flags = (distance <= tolerance), a face is recognised iff some stored face is within tolerance, and index k is reported iff k is the first minimum and within tolerance |
| Matcher.NearestWins | facerecognition.py:62-65 | if two stored faces are both within tolerance and the first is strictly nearer, the second is never reported, and the reported one is at least as near as the first |
| Matcher.EarliestWinsTies | facerecognition.py:63 | of two equally near stored faces, the later one is never reported |
| Matcher.SingleEntryNeedsThreshold | facerecognition.py:58-65 | with one stored face, its name is reported iff its distance is within tolerance, and "Unknown" otherwise |
| Matcher.ExactFaceRecognised | facerecognition.py:58-65 | with non-negative distances and tolerance, a face at distance zero from a stored face is recognised, as a stored face at distance zero |
| Reconciler.Trunc | facerecognition.py:69 | the integer cast truncates toward zero: the result lies within one of the real, on the zero side |
| Reconciler.ScaleCoordBounds | facerecognition.py:69 | for a non-negative coordinate and any positive factor, the rescaled coordinate y is non-negative and satisfies y*factor <= x < y*factor + factor |
| Reconciler.ScaleByQuarter | facerecognition.py:69 | at factor 0.25 the rescaled coordinate is exactly 4 times the detected one, for every integer |
| Reconciler.RescaleQuarter | facerecognition.py:69 | at factor 0.25 each location is scaled by four in all four coordinates, and dividing by four gives back the detected location |
| Reconciler.RescaleLocations | facerecognition.py:69 | rescaling keeps one location per detected face, in detector order, each rescaled coordinate by coordinate |
| Reconciler.RescaleAppend | facerecognition.py:69 | rescaling a concatenation of location lists is the concatenation of their rescalings |
| Detect.FaceDistances | facerecognition.py:62 | `face_distance`: one distance per stored encoding, in store order, each the library's distance between that stored encoding and the observed one |
| Detect.CompareFaces | facerecognition.py:58 | `compare_faces`: one flag per stored encoding, set exactly when that encoding's distance is within the tolerance (the assumed library contract) |
| Detect.FaceNames | facerecognition.py:55-66 | fails iff there is an observed face and the store is empty; otherwise gives one name per observed encoding, in order, each the matcher's verdict for that encoding and each "Unknown" or a stored name |
| Detect.DetectKnownFaces | facerecognition.py:40-70 | fails iff a face is observed against an empty store; otherwise returns all detected locations rescaled by the factor, in order, and one matcher verdict per observed encoding, in order |
| Detect.NameForIff | facerecognition.py:58-65 | against a non-empty store, a face is "Unknown" when no stored face is within tolerance; otherwise it gets the name of the first nearest stored face, which is within tolerance, and that name is not "Unknown" unless some stored name is "Unknown" |
| Camera.NewCamera | main.py:17-22 | a new camera widget starts with recognition off |
| Camera.StartRecognition | main.py:78-80 | the start button turns recognition on |
| Camera.StopRecognition | main.py:82-84 | the stop button turns recognition off |
| Camera.PressIdempotent | main.py:78-84 | pressing the same button twice has the effect of pressing it once |
| Camera.LastPressWins | main.py:78-84 | after any sequence of presses, recognition is on iff the last press was start; with no press it is unchanged |
| Camera.Zip | main.py:30 | pairs locations with names position by position, stopping at the shorter list |
| Camera.DrawFaceSpec | main.py:31-39 | the label is the name; the colour is (0,0,200) iff the name is "Unknown" and (0,128,0) otherwise; the box frames exactly (left, top)-(right, bottom); the label starts at (left, bottom + 25) |
| Camera.DrawFaces | main.py:30-39 | one overlay per zipped (location, name) pair, in order: overlay i frames exactly location i, is labelled with name i at (left, bottom + 25), and is red iff name i is "Unknown" |
| Camera.Update | main.py:24-39 | no frame means nothing happens; recognition off gives a frame with no overlays; an exception is raised iff recognition is on, a face is observed and the store is empty; otherwise there is one overlay per zipped pair, each labelled "Unknown" or a stored name |
| Camera.StoppedIgnoresDetection | main.py:26-29 | while recognition is off, a tick does not depend on what the detector would find, on the store, or on the library |
| Camera.RecognisedTick | main.py:27-39 | with recognition on, a non-empty store and factor 0.25: face i's overlay box is its detected location times four, its label is at (4*left, 4*bottom + 25), its text is the matcher's verdict, and it is red iff the text is "Unknown" |

## Left out

- Directory scanning. `glob.glob(os.path.join(path, "*.*"))` and its filesystem-dependent
  order are not modelled. The loader takes the list of image paths as given.
- Image reading and colour conversion. `cv2.imread` and `cvtColor` become the `encode`
  parameter. It returns `Unreadable` where `imread` gives nothing, and otherwise the face
  encodings found.
- The face library. `face_locations`, `face_encodings`, `face_distance` and
  `compare_faces` are foreign calls. A frame's detections arrive as the `Detection`
  parameter. Distances and the tolerance arrive as the `FaceLibrary` parameter. The
  library's default tolerance value is not fixed by the model.
- Frame downsizing. `cv2.resize` to a quarter size is pixel work and is left out. The
  detections are taken to be those on the downsized frame.
- Floating point. Distances and the tolerance are exact reals, so NaN distances cannot
  occur. The division by 0.25 is exact real division. The int64 range of `astype(int)` is
  not modelled; coordinates are unbounded integers.
- Paths.Stem follows POSIX `os.path`: only `/` separates directories. The extra `\`
  separator that Windows paths use is not modelled.
- Drawing and display. The font, the font scale 1.5 and the line thicknesses 2 and 3 are
  not modelled. Neither are pixel rendering, the vertical flip, the texture blit or the
  widget layout. An overlay records text, anchor, rectangle corners and colour.
- Kivy lifecycle. `Clock.schedule_interval` timing, `build`, `on_stop` and
  `capture.release` are not modelled. What Kivy does with an exception raised in `update`
  is not modelled either; the tick reports it as `Raised`.
- Adding an image (`add_image`, `select_image`). The file chooser, the `isfile` check, the
  file copy and `makedirs` are filesystem and UI work. The copy overwrites an image that
  has the same base name. `select_image` then reloads `<script dir>/images`
  (main.py:98-105). `build` loaded `images/` relative to the working directory
  (main.py:55). These are the same directory only when the app starts in the script's
  directory. The reload lists that directory again, in filesystem order, with the new file
  among the paths. The model does not describe that listing. `FaceStore.LoadTwiceDuplicates`
  covers only the case where the second load gets the identical path list: the same
  entries are then appended a second time. `FaceStore.LoadConcat` describes any reload
  once its path list is given.
- Progress messages printed by the loader are not modelled.
