# Face-recognition access helper: enrollment and match decision

This project models the decision logic of the recognition script `test.py` of a
small access-control helper. The script has two parts. First it loads a face
database from a folder tree, where each directory is one person. Then it labels
every face seen by a camera.

- **Enrollment** (module `Enrollment`, `enrollment.dfy`). The script walks the
  database folder. It ignores entries that are not directories, and files whose
  names do not end in `.jpg` or `.png`. For each remaining image in which the
  face library finds at least one face, it appends the first face's encoding to
  `encodings` and the directory name to `names`. The model is a method with two
  nested loops, `LoadFaceDatabase`. It is proved against a specification
  function `Samples`, and the source's promises are lemmas about `Samples`:
  - the two lists stay in lockstep;
  - every name is the directory its image came from;
  - every accepted image is enrolled;
  - ignored entries and files change nothing;
  - one accepted image adds exactly one reference, at its place in the listing.

  When nothing was loaded, the script exits before recognition
  (`Enroll`, `RecognitionStartsIff`).
- **Match decision** (module `Recognition`, `recognition.dfy`). For each face,
  the face library returns one boolean per enrolled encoding (`matches`). With
  no true entry, the label stays `"Visitor - Access Pending"` and the script
  posts a `"No user Match"` notification. Otherwise the label is chosen by
  `max(set(matched_names), key=matched_names.count)`. The model has these parts:
  - `MatchedNames` is the list comprehension;
  - `MostFrequent` is the `max` over the set;
  - `DecideLabel` makes the decision for one face;
  - `LabelFaces` is the loop over the faces of one frame, which yields the
    labels and the notification requests.

  The tie-break between equally frequent names follows Python's set iteration
  order, which depends on string hashing. The model therefore promises only
  *some* most frequent name (`IsMostFrequent`). `TieAdmitsEither` shows that
  both names of a tie are admissible. The code has no deterministic tie-break
  (such as the first name in enrollment order), and the model follows the code.

The face library (`load_image_file`, `face_encodings`, `face_locations`,
`compare_faces` with `tolerance=0.7`) is not modelled. Its results are inputs:
each image file comes with the list of encodings found in it, and each face
comes with its `matches` vector, one entry per enrolled encoding. The folder
listings (`os.listdir`) are inputs too, as sequences in listing order.

## Model

| member | source | states |
|---|---|---|
| `Enrollment.EndsWith` | test.py:22 | `str.endswith` is case-sensitive: a name ends with a suffix exactly when it is some stem followed by that suffix. |
| `Enrollment.IsImageName` | test.py:22 | The file filter admits exactly the names of the form stem + `.jpg` or stem + `.png`. |
| `Enrollment.FileSamples` | test.py:22-32 | One file yields at most one reference; it yields one exactly when its name is a `.jpg`/`.png` name and a face was found in it, and that reference is the first face under the person's name. |
| `Enrollment.EntrySamples` | test.py:18-20 | An entry of the database folder that is not a directory yields nothing; a directory yields at most one reference per file it lists, each under its own name. |
| `Enrollment.Samples` | test.py:18-32 | The database yields at most one reference per file listed in its directories. |
| `Enrollment.LoadFaceDatabase` | test.py:18-36 | The nested loop builds `encodings` and `names` of equal length, and position by position they are the encoding and the name of the references the database yields (`Samples`), in listing order. |
| `Enrollment.FolderSamples` | test.py:21-32 | A person's folder yields at most one reference per file, and every reference it yields carries that folder's name. |
| `Enrollment.SampleProvenance` | test.py:18-32 | Every enrolled (name, encoding) pair comes from a directory entry of the database: the name is that directory's name, and the encoding is the first face of one of its `.jpg`/`.png` images in which a face was found. |
| `Enrollment.SampleCompleteness` | test.py:18-32 | Conversely, the first face of every such image is enrolled under its directory's name. |
| `Enrollment.Enroll` | test.py:18-43 | Loading followed by the empty check: the two lists are those of `LoadFaceDatabase`, and the script goes on to recognition exactly when some directory holds a `.jpg`/`.png` image with a detected face, which is exactly when some encoding was loaded. |
| `Enrollment.RecognitionStartsIff` | test.py:41-43 | Recognition starts (at least one encoding was loaded) exactly when some directory holds a `.jpg`/`.png` image with a detected face; otherwise the script stops before recognition. |
| `Enrollment.NonDirectoryIgnored` | test.py:18-20 | An entry of the database folder that is not a directory changes nothing, wherever it is listed. |
| `Enrollment.FolderIgnoresFile` | test.py:22-36 | Within a folder, a file whose name does not end in `.jpg` or `.png`, or an image with no detected face, contributes nothing, wherever it is listed. |
| `Enrollment.IgnoredFileChangesNothing` | test.py:22-36 | Adding such a file to any person's folder leaves both lists exactly as they were. |
| `Enrollment.AcceptedFileAddsOne` | test.py:28-32 | Adding an accepted image to a directory inserts exactly one reference, its first face under the directory's name, at the place of the image in the listing: the references of the earlier directories and earlier files come before it, those of the later files and directories after it, all unchanged. An image with several faces still adds only that one. |
| `Recognition.MatchedNames` | test.py:69 | `matched_names` has one name per true entry of `matches`, is empty exactly when no entry is true, and holds only enrolled names. |
| `Recognition.TrueIndices` | test.py:69 | The positions of the true entries of `matches`, strictly increasing, each one a true position, and every true position among them. |
| `Recognition.MatchedNamesSelect` | test.py:69 | `matched_names` is exactly `names` read at the true positions of `matches`, in index order. |
| `Recognition.Count` | test.py:70 | `list.count` never exceeds the length of the list, and is positive exactly when the name occurs in it. |
| `Recognition.MostFrequent` | test.py:70 | `max(set(s), key=s.count)` returns a name of `s` that no other name of `s` outnumbers, whatever the set's iteration order. |
| `Recognition.MostFrequentExists` | test.py:70 | Every non-empty list of names has such a most frequent name. |
| `Recognition.DistinctCountsBounded` | test.py:70 | Two different names together occur at most as often as the list is long. |
| `Recognition.StrictMajorityWins` | test.py:70 | A name that holds more than half of the list is the only possible result of the majority vote. |
| `Recognition.DecideLabel` | test.py:66-71 | With no true entry in `matches`, the label is exactly `"Visitor - Access Pending"`. Otherwise it is a most frequent name among the matched names, and so an enrolled name. |
| `Recognition.DecisionExists` | test.py:66-70 | Every `matches` vector admits a label. |
| `Recognition.MajorityDecides` | test.py:66-70 | When one name holds a strict majority of the matching encodings, the label is that name. |
| `Recognition.TieAdmitsEither` | test.py:70 | With `matches = [true, true]` and `names = ["alice", "bob"]`, both names are admissible labels: the tie-break is not fixed. |
| `Recognition.UnmatchedFaces` | test.py:68-85 | The number of faces in a frame that matched nobody is at most the number of faces, and it is zero exactly when every face matched some encoding. |
| `Recognition.LabelFaces` | test.py:58-85 | For every face of a frame: a label that is an admissible decision for its `matches`, and one notification request with title `"No user Match"` and body `"unregistred people"` for each face that matched nobody. |

## Left out

- Camera capture, colour conversion, face location, drawing boxes and labels, the window, and the ESC key (test.py:45-56, test.py:87-100) are video and user-interface I/O. The endless frame loop and its exits on a failed capture or on ESC are not modelled; `LabelFaces` models the body for one frame.
- The face library calls `load_image_file`, `face_encodings`, `face_locations` and `compare_faces` with tolerance 0.7 (test.py:27-28, test.py:55-56, test.py:63-65) are floating-point computations in a library that is not part of this model. Their results are inputs.
- Exceptions while loading are not modelled. The loading loop has no `try`, so any exception ends the script: a missing `faces/` folder (the path set at test.py:12, listed by `os.listdir` at test.py:18) or an unreadable person folder (`os.listdir`, test.py:21), an unreadable or undecodable image (`load_image_file`, test.py:27), and a subdirectory whose name ends in `.jpg` or `.png` (test.py:22, test.py:27).
- `LoadFaceDatabase`, `Enroll`: describe only runs in which every listed `.jpg`/`.png` entry of every person folder is a readable image; in any other run the script stops with an exception before recognition.
- `RecognitionStartsIff`: "recognition starts exactly when some directory holds an accepted image" holds only for those runs; an exception while loading stops the script even when some image was accepted.
- `os.listdir` and `os.path.isdir` are file-system I/O. Their results are the input listing, in whatever order the operating system returns it.
- The HTTP `requests.post` to `{API_URL}/send_notification/` and its printed response (test.py:73-82) are network I/O. `LabelFaces` returns the request payloads the script would post, and `FCM_TOKEN` is a parameter. When that environment variable is unset, Python sends `null`; the model has no such case.
- `time.sleep(8)` (test.py:83) refers to `time`, which `test.py` never imports. The call raises `NameError`, which the `except` at test.py:84 swallows. So no pause or cooldown exists between notifications, and none is modelled. Every unmatched face of every frame attempts one request. When `API_URL` is unset, the URL is malformed and `requests.post` raises before anything is sent; the `except` swallows that too.
- The printed progress and error messages (`print`) are console output.
- `main.py` (sign-up and sign-in over MongoDB with bcrypt) and `socketio_server.py` (meant to broadcast a status string over Socket.IO from a background thread) are not part of this model. They are CRUD, transport and concurrency plumbing with no decision logic of their own. The background loop of `socketio_server.py` only ever assigns one fixed status string (socketio_server.py:41).
- `MostFrequent`: the result is specified only as some most frequent name. The real choice depends on Python's string hashing, which is randomised per process unless `PYTHONHASHSEED` is fixed.
