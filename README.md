# Face-recognition attendance: a verified model

This project models the logic that the Streamlit attendance application
(`app.py`) owns itself. Face detection, face encoding and the distance test
are done by the `face_recognition` library and are taken as inputs here.

The model has four parts, one Dafny module each, plus a small `Wrappers`
module that holds `Option`:

- **Training** (`training.dfy`, `train_faces`). The training directory is
  given as the sequence of entries a listing would yield. Each entry is either
  a person's folder or a file that is not a directory. An image is the
  sequence of face encodings the detector finds in it. `TrainFaces` (the loop
  over the directory) and `EncodePersonFolder` (the loop over one folder)
  build the two parallel lists `encodings` and `names`. The contract of
  `TrainFaces` states that the lists have equal length and are equal, position
  by position, to the specification `Enrollments`. Lemmas about `Enrollments`
  show that faceless images and plain files contribute nothing, that each
  face-bearing image contributes exactly its first encoding under the folder's
  name, and that the pair count equals the number of face-bearing images.
- **Recognition** (`recognition.dfy`, `recognize_faces`). For each probe face,
  `compare_faces` returns one flag per known encoding. The model takes that
  row of flags as input. `Label` picks the name at the least index whose flag
  is set (`matches.index(True)`), or `"Unknown"` when no flag is set.
  `FirstMatchWins` shows that flags after the first match never change the
  label: the rule is first match, not nearest neighbour. `RecognizeFaces` is
  the loop that emits one label per face, in order.
- **Ledger** (`ledger.dfy`, `mark_attendance` and the "View Attendance" step).
  The attendance directory is the class `AttendanceFolder`. Its field `files`
  maps each file path to the `(Name, Timestamp)` rows stored there, and a
  missing key means a missing file. `Ledger.LedgerPath` gives the daily path
  `Attendance/Attendance_<date>.csv`, and different dates give different
  paths. `MarkSheet` is the read-modify-append on one day's rows. The method
  `Mark` loads the day's rows, treating a missing file as an empty table. It
  appends and writes back only when the name is new, and it reports `Marked`
  or `AlreadyMarked`. Lemmas cover idempotence, the first timestamp being
  kept, distinct names staying distinct, and the first mark of a new day
  giving a one-row ledger.
- **App** (`app.dfy`, the upload flow). `MarkRecognized` is the loop that marks
  every recognised label except `"Unknown"`. `HandleUpload` covers the three
  outcomes of an upload: no saved model, no face detected, or labels
  recognised and marked. The contract of the specification `MarkAll` states
  that existing rows are never changed. Lemmas about `MarkAll` show the rest.
  A name ends up on the ledger exactly when it was there before or is a label
  other than `"Unknown"`. A ledger without duplicate names stays without them.
  A new name gets the time of its first sighting. Re-uploading a picture
  changes nothing. An end-to-end lemma ties the ledger
  of a fresh day to the first matches of the faces.

The model keeps one quirk of the source: a known person whose name is
literally `"Unknown"` is recognised but never marked.

## Behaviour kept

- Training walks a directory of person folders (app.py:31-41).
- The ledger columns are `Name` and `Timestamp` (app.py:57, 62).
- Using the app before training returns `ModelMissing`, the "train the model first" error (app.py:111, 133-134).
- Viewing a day with no file returns `None`, the "no attendance has been marked" message (app.py:146-147).

## Model

| member | source | states |
|---|---|---|
| `Recognition.FirstTrue` | app.py:85-86 | None exactly when no flag is true; otherwise the index of a true flag with no true flag before it (`matches.index(True)`) |
| `Recognition.Label` | app.py:83-87 | "Unknown" when no known encoding matches; otherwise the name at the first matching index; the result is always "Unknown" or a known name |
| `Recognition.FirstMatchWins` | app.py:83-87 | two flag rows that agree up to and including the first match give that entry's name, whatever later flags say: first match wins, not nearest neighbour |
| `Recognition.Labels` | app.py:76-89 | one label per probe face; each is "Unknown" or a known name, and "Unknown" whenever that face matches nothing |
| `Recognition.RecognizeFaces` | app.py:76-89 | exactly one label per probe face, in input order, each the first-match label of that face |
| `Training.FolderEnrollments` | app.py:34-41 | one folder contributes at most one pair per image, each under the folder's person name |
| `Training.Enrollments` | app.py:31-41 | every enrolled name is the person of some folder in the listing |
| `Training.TrainFaces` | app.py:24-42 | `encodings` and `names` have equal length and pair up, position by position, with the enrolments of the directory walk |
| `Training.EncodePersonFolder` | app.py:34-41 | the two lists stay of equal length and are extended by exactly the enrolments of that folder's images |
| `Training.EnrollmentsAppend` | app.py:31-41 | training on two listings in sequence gives the concatenation of their enrolments |
| `Training.FacelessImageIgnored` | app.py:37-41 | an image with no detected face contributes nothing |
| `Training.FaceImageContributesOne` | app.py:38-41 | an image with a detected face contributes exactly one pair: its first encoding and the folder's person name |
| `Training.OtherFileIgnored` | app.py:32-33 | a directory entry that is not a folder contributes nothing |
| `Training.EnrollmentCount` | app.py:28-41 | the number of known faces equals the number of face-bearing images across all person folders |
| `Training.EnrollmentsSound` | app.py:31-41 | every known face is the first encoding of some face-bearing image in some person folder, under that folder's name |
| `Ledger.LedgerPath` | app.py:51-52 | the path lies in the attendance directory, ends in ".csv", and holds the date right after "Attendance_" |
| `Ledger.LedgerPathInjective` | app.py:51-52 | the daily ledger path determines the date, so different dates use different files |
| `Ledger.TimestampOf` | app.py:59-60 | a timestamp is found for a name exactly when the name is in the Name column, and it is the one on the name's first row |
| `Ledger.MarkSheet` | app.py:54-64 | reports Marked exactly when the name is not in the Name column; the name is present afterwards; earlier rows are kept; one row `{name, time}` is added at the end when marked, none otherwise |
| `Ledger.MarkKeepsFirstTimestamp` | app.py:59-64 | after a mark, the name's timestamp is the earlier one if it was present, otherwise the given time |
| `Ledger.MarkLeavesOthers` | app.py:60-64 | marking one name leaves every other name's timestamp unchanged |
| `Ledger.MarkIdempotent` | app.py:59-67 | a second mark of the same name reports already marked and leaves the ledger of the first mark |
| `Ledger.MarkPreservesDistinct` | app.py:59-64 | if the Name column was free of duplicates before a mark, it is afterwards |
| `Ledger.FirstMarkOfDay` | app.py:54-57 | marking on an empty (missing) ledger yields the one-row ledger `{name, time}` and Marked |
| `Ledger.AttendanceFolder.constructor` | app.py:13-19 | the folder starts with whatever ledgers the attendance directory already holds |
| `Ledger.AttendanceFolder.LoadSheet` | app.py:54-57 | a missing file reads as an empty table; an existing one as its stored rows |
| `Ledger.AttendanceFolder.View` | app.py:139-147 | shows the stored rows of the day's path, or nothing exactly when that file does not exist |
| `Ledger.AttendanceFolder.Mark` | app.py:47-67 | the status and the day's new rows are those of MarkSheet on the stored rows (empty if the file is missing); the file is written only when marked; the ledgers of other dates are unchanged |
| `App.MarkRecognized` | app.py:125-128 | the day's ledger becomes MarkAll of its old rows; the file exists afterwards exactly when it existed or grew; no other file changes; other dates' views are unchanged |
| `App.HandleUpload` | app.py:109-134 | with no saved model or no detected face the ledger files are untouched and the matching outcome is returned; otherwise the labels are returned and marked, the day's file exists afterwards exactly when it existed or grew, and no other file changes |
| `App.MarkAll` | app.py:125-128 | the rows before the loop remain a prefix of the ledger after it, and at most one row is added per label |
| `App.MarkAllNames` | app.py:125-128 | a name is on the ledger after the loop exactly when it was before or is a label other than "Unknown" |
| `App.MarkAllDistinct` | app.py:125-128 | a ledger without duplicate names stays without them, however often a face recurs |
| `App.MarkAllKeepsTimestamp` | app.py:125-128 | names already on the ledger keep their timestamps |
| `App.MarkAllFirstSighting` | app.py:125-128 | a new name is stored with the time of its first occurrence among the labels |
| `App.MarkAllIdempotent` | app.py:121-128 | processing the same labels again on the same day leaves the ledger unchanged |
| `App.RecognizeThenMark` | app.py:72-89 | on a fresh day, recognising then marking gives a ledger of distinct names holding exactly the known names some face matched first, except "Unknown" |
| `App.EnrolRecognizeMarkScenario` | app.py:98-128 | a single photo of Carol trains one known face; her photo yields ["Carol"] and a one-row ledger; a stranger yields ["Unknown"] and leaves the ledger unchanged |

## Left out

- Face detection, face encoding and `compare_faces` (app.py:36-39, 77-82) are in a foreign library and use floating-point distances with a tolerance. An image is given as its detected encodings (opaque values). A probe face is given as its row of match flags.
- `Recognition.Label`, `Recognition.FirstMatchWins`, `Recognition.Labels`, `Recognition.RecognizeFaces`, `App.RecognizeThenMark` and `App.HandleUpload` require each flag row to have one flag per known name. This holds because `compare_faces` returns one flag per known encoding, and training keeps encodings and names parallel.
- The order of `os.listdir` (app.py:31, 34) is not modelled: the walk is an input sequence. Reading a file that is not an image would raise, and that is not modelled either.
- `np.save`/`np.load` of the trained model (app.py:100-101, 111-113) is not modelled. The saved names are an `Option`, None when the files are missing. The saved encodings enter only through the match flags.
- The temporary image file (app.py:116-118) is not modelled.
- CSV reading and writing is not modelled (app.py:55, 64, 143): a file holds its rows directly. So pandas' column type inference is not captured. If every name in a file is made only of digits, the Name column is read back as numbers, the membership test then misses a name, and a second row can be added. A column that mixes such names with others stays text. Names that look like floating-point numbers or booleans ("1.5", "True") are inferred in the same way. Names that match pandas' default missing-value strings ("NA", "nan", "null", "N/A", the empty string) are read back as missing even in a text column, so such a person gets a new row on every mark. The removal of `DataFrame.append` in recent pandas is not modelled either.
- `datetime.now()` (app.py:51, 61, 139) is not read. The date and each mark's time are parameters. `App.MarkRecognized` uses one date for the whole loop, so a loop that runs past midnight is not modelled. `strftime` formatting is not modelled: the date string goes into the file name as given.
- Directory creation (app.py:15-19) is not modelled. The attendance folder starts from a given map of existing files.
- `os.path.join` is modelled with the POSIX separator "/".
- The Streamlit interface (app.py:94-147) is not modelled: titles, buttons, the uploader, image display, table display and every message. What is kept is the mark status, the upload outcome, and the rule that "Unknown" is never marked.
- Concurrency is not modelled: the application has no locking and assumes a single user.
