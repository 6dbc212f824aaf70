/**
 * The upload flow of app.py's user interface, stripped of its rendering:
 * recognise the faces of an uploaded picture and mark attendance for every
 * face that is not "Unknown".
 */
module App {

  import opened Wrappers
  import opened Recognition
  import opened Ledger
  import Training

  /** A day's rows after the driver loop: the labels are taken in order,
      "Unknown" is skipped and every other label is marked at its own time. */
  function MarkAll(sheet: Sheet, labels: seq<string>, times: seq<string>): (r: Sheet)
    requires |labels| == |times|
    ensures sheet <= r
    ensures |r| <= |sheet| + |labels|
  {
    if labels == [] then sheet
    else
      var n := |labels| - 1;
      var before := MarkAll(sheet, labels[..n], times[..n]);
      if labels[n] == Unknown then before else MarkSheet(before, labels[n], times[n]).sheet
  }

  /** The loop over the recognised labels: `times[k]` is the clock reading
      taken when `recognized[k]` is marked. */
  method MarkRecognized(folder: AttendanceFolder, recognized: seq<string>, date: string, times: seq<string>)
    requires |times| == |recognized|
    modifies folder
    ensures folder.LoadSheet(date) == MarkAll(old(folder.LoadSheet(date)), recognized, times)
    ensures (LedgerPath(date) in folder.files)
              == (LedgerPath(date) in old(folder.files)
                  || |folder.LoadSheet(date)| > |old(folder.LoadSheet(date))|)
    ensures folder.files - {LedgerPath(date)} == old(folder.files) - {LedgerPath(date)}
    ensures forall d :: d != date ==> folder.View(d) == old(folder.View(d))
  {
    var k := 0;
    while k < |recognized|
      invariant 0 <= k <= |recognized|
      invariant folder.LoadSheet(date) == MarkAll(old(folder.LoadSheet(date)), recognized[..k], times[..k])
      invariant (LedgerPath(date) in folder.files)
                  == (LedgerPath(date) in old(folder.files)
                      || |folder.LoadSheet(date)| > |old(folder.LoadSheet(date))|)
      invariant folder.files - {LedgerPath(date)} == old(folder.files) - {LedgerPath(date)}
      invariant forall d :: d != date ==> folder.View(d) == old(folder.View(d))
    {
      assert recognized[..k + 1][..k] == recognized[..k];
      assert times[..k + 1][..k] == times[..k];
      var name := recognized[k];
      if name != Unknown {
        var _ := folder.Mark(name, date, times[k]);
      }
      k := k + 1;
    }
    assert recognized[..k] == recognized;
    assert times[..k] == times;
  }

  /** What the upload step shows. */
  datatype UploadOutcome =
    | ModelMissing                       // "Please train the model first"
    | NoFacesDetected                    // "No faces detected in the uploaded image"
    | Recognized(labels: seq<string>)    // one line per face, and the marks

  /** One uploaded picture. `knownNames` is the saved model (None when its
      files are missing) and `faceMatches` holds, per face detected in the
      picture, the flags compare_faces returns against the known encodings. */
  method HandleUpload(folder: AttendanceFolder, knownNames: Option<seq<string>>,
                      faceMatches: seq<seq<bool>>, date: string, times: seq<string>)
    returns (outcome: UploadOutcome)
    requires |times| == |faceMatches|
    requires knownNames.Some? ==>
               forall k :: 0 <= k < |faceMatches| ==> |faceMatches[k]| == |knownNames.value|
    modifies folder
    ensures knownNames.None? ==> outcome == ModelMissing && folder.files == old(folder.files)
    ensures knownNames.Some? && faceMatches == [] ==>
              outcome == NoFacesDetected && folder.files == old(folder.files)
    ensures knownNames.Some? && faceMatches != [] ==>
              outcome == Recognized(Labels(knownNames.value, faceMatches))
              && folder.LoadSheet(date)
                   == MarkAll(old(folder.LoadSheet(date)), Labels(knownNames.value, faceMatches), times)
    ensures (LedgerPath(date) in folder.files)
              == (LedgerPath(date) in old(folder.files)
                  || |folder.LoadSheet(date)| > |old(folder.LoadSheet(date))|)
    ensures folder.files - {LedgerPath(date)} == old(folder.files) - {LedgerPath(date)}
    ensures forall d :: d != date ==> folder.View(d) == old(folder.View(d))
  {
    if knownNames.None? {
      return ModelMissing;
    }
    var recognizedNames := RecognizeFaces(knownNames.value, faceMatches);
    if recognizedNames == [] {
      return NoFacesDetected;
    }
    MarkRecognized(folder, recognizedNames, date, times);
    outcome := Recognized(recognizedNames);
  }

  /** After the loop, a name is on the ledger exactly when it was there
      before or is one of the labels other than "Unknown". */
  lemma {:induction false} MarkAllNames(sheet: Sheet, labels: seq<string>, times: seq<string>, name: string)
    requires |labels| == |times|
    ensures (name in NameColumn(MarkAll(sheet, labels, times)))
              == (name in NameColumn(sheet) || (name in labels && name != Unknown))
    decreases |labels|
  {
    if labels != [] {
      var n := |labels| - 1;
      var before := MarkAll(sheet, labels[..n], times[..n]);
      MarkAllNames(sheet, labels[..n], times[..n], name);
      assert labels == labels[..n] + [labels[n]];
      if labels[n] != Unknown && labels[n] !in NameColumn(before) {
        NameColumnAppend(before, Entry(labels[n], times[n]));
      }
    }
  }

  /** However many times a face is seen, each name is recorded at most once. */
  lemma {:induction false} MarkAllDistinct(sheet: Sheet, labels: seq<string>, times: seq<string>)
    requires |labels| == |times|
    requires Distinct(NameColumn(sheet))
    ensures Distinct(NameColumn(MarkAll(sheet, labels, times)))
    decreases |labels|
  {
    if labels != [] {
      var n := |labels| - 1;
      MarkAllDistinct(sheet, labels[..n], times[..n]);
      if labels[n] != Unknown {
        MarkPreservesDistinct(MarkAll(sheet, labels[..n], times[..n]), labels[n], times[n]);
      }
    }
  }

  /** A name already on the ledger keeps its timestamp. */
  lemma {:induction false} MarkAllKeepsTimestamp(sheet: Sheet, labels: seq<string>, times: seq<string>, name: string)
    requires |labels| == |times|
    requires name in NameColumn(sheet)
    ensures TimestampOf(MarkAll(sheet, labels, times), name) == TimestampOf(sheet, name)
    decreases |labels|
  {
    if labels != [] {
      var n := |labels| - 1;
      var before := MarkAll(sheet, labels[..n], times[..n]);
      MarkAllKeepsTimestamp(sheet, labels[..n], times[..n], name);
      MarkAllNames(sheet, labels[..n], times[..n], name);
      if labels[n] != Unknown {
        MarkKeepsFirstTimestamp(before, labels[n], times[n]);
        if labels[n] != name {
          MarkLeavesOthers(before, labels[n], times[n], name);
        }
      }
    }
  }

  /** A new name is recorded at the time of its first sighting. */
  lemma {:induction false} MarkAllFirstSighting(sheet: Sheet, labels: seq<string>, times: seq<string>, k: int)
    requires |labels| == |times|
    requires 0 <= k < |labels| && labels[k] != Unknown
    requires labels[k] !in NameColumn(sheet)
    requires forall j :: 0 <= j < k ==> labels[j] != labels[k]
    ensures TimestampOf(MarkAll(sheet, labels, times), labels[k]) == Some(times[k])
    decreases |labels|
  {
    var n := |labels| - 1;
    var name := labels[k];
    var before := MarkAll(sheet, labels[..n], times[..n]);
    if k == n {
      MarkAllNames(sheet, labels[..n], times[..n], name);
      MarkKeepsFirstTimestamp(before, name, times[n]);
    } else {
      MarkAllFirstSighting(sheet, labels[..n], times[..n], k);
      MarkAllNames(sheet, labels[..n], times[..n], name);
      assert name in labels[..n];
      if labels[n] != Unknown {
        MarkKeepsFirstTimestamp(before, labels[n], times[n]);
        if labels[n] != name {
          MarkLeavesOthers(before, labels[n], times[n], name);
        }
      }
    }
  }

  /** Labels whose names are all on the ledger change nothing. */
  lemma {:induction false} MarkAllPresent(sheet: Sheet, labels: seq<string>, times: seq<string>)
    requires |labels| == |times|
    requires forall k :: 0 <= k < |labels| && labels[k] != Unknown ==> labels[k] in NameColumn(sheet)
    ensures MarkAll(sheet, labels, times) == sheet
    decreases |labels|
  {
    if labels != [] {
      var n := |labels| - 1;
      MarkAllPresent(sheet, labels[..n], times[..n]);
    }
  }

  /** Uploading the same picture again the same day leaves the ledger as the
      first upload left it. */
  lemma MarkAllIdempotent(sheet: Sheet, labels: seq<string>, t1: seq<string>, t2: seq<string>)
    requires |labels| == |t1| == |t2|
    ensures MarkAll(MarkAll(sheet, labels, t1), labels, t2) == MarkAll(sheet, labels, t1)
  {
    var once := MarkAll(sheet, labels, t1);
    forall k | 0 <= k < |labels| && labels[k] != Unknown
      ensures labels[k] in NameColumn(once)
    {
      MarkAllNames(sheet, labels, t1, labels[k]);
    }
    MarkAllPresent(once, labels, t2);
  }

  /** End to end, on a day whose ledger does not exist yet: the ledger lists
      each recognised person once, and exactly the known people some face
      matched first. */
  lemma RecognizeThenMark(knownNames: seq<string>, faceMatches: seq<seq<bool>>, times: seq<string>, name: string)
    requires forall k :: 0 <= k < |faceMatches| ==> |faceMatches[k]| == |knownNames|
    requires |times| == |faceMatches|
    ensures Distinct(NameColumn(MarkAll([], Labels(knownNames, faceMatches), times)))
    ensures (name in NameColumn(MarkAll([], Labels(knownNames, faceMatches), times)))
              == (name != Unknown
                  && exists k, i :: 0 <= k < |faceMatches| && IsFirstMatch(faceMatches[k], i)
                                    && knownNames[i] == name)
  {
    var labels := Labels(knownNames, faceMatches);
    MarkAllDistinct([], labels, times);
    MarkAllNames([], labels, times, name);
    if name in labels && name != Unknown {
      var k :| 0 <= k < |labels| && labels[k] == name;
      assert true in faceMatches[k];
    }
    if exists k, i :: 0 <= k < |faceMatches| && IsFirstMatch(faceMatches[k], i) && knownNames[i] == name {
      var k, i :| 0 <= k < |faceMatches| && IsFirstMatch(faceMatches[k], i) && knownNames[i] == name;
      FirstMatchWins(knownNames, faceMatches[k], faceMatches[k], i);
      assert labels[k] == name;
    }
  }

  /** The flow on a fresh install: Carol is enrolled from one photo, a photo
      of Carol marks her, and a stranger's photo leaves the ledger alone. */
  lemma EnrolRecognizeMarkScenario(carolFace: int, t1: string, t2: string)
    ensures Training.Enrollments([Training.PersonFolder("Carol", [[carolFace]])])
              == [Training.Enrollment(carolFace, "Carol")]
    ensures Labels(["Carol"], [[true]]) == ["Carol"]
    ensures MarkAll([], ["Carol"], [t1]) == [Entry("Carol", t1)]
    ensures Labels(["Carol"], [[false]]) == [Unknown]
    ensures MarkAll([Entry("Carol", t1)], [Unknown], [t2]) == [Entry("Carol", t1)]
  {
    var images: seq<seq<int>> := [[carolFace]];
    assert images[..0] == [];
    assert Training.FolderEnrollments("Carol", images) == [Training.Enrollment(carolFace, "Carol")];
    var entries := [Training.PersonFolder("Carol", images)];
    assert entries[..0] == [];
    assert Training.Enrollments(entries)
             == Training.Enrollments(entries[..0]) + Training.EntryEnrollments(entries[0]);
    assert ["Carol"][..0] == [];
    assert [Unknown][..0] == [];
  }
}
