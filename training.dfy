/**
 * Training (train_faces in app.py): walk the training directory and collect
 * one known encoding per usable image, next to the name of the person whose
 * folder holds the image.
 *
 * The directory walk is given as the sequence of entries `os.listdir` would
 * yield, and each image as the sequence of face encodings the detector finds
 * in it (empty when no face is located). Encodings are opaque tokens of type E.
 */
module Training {

  /** One entry of the training directory: a person's folder of images, or
      anything that is not a directory (skipped by the walk). */
  datatype DirEntry<E> =
    | PersonFolder(person: string, images: seq<seq<E>>)
    | OtherFile(fileName: string)

  /** One known face: an encoding and the name it was enrolled under. */
  datatype Enrollment<E> = Enrollment(encoding: E, name: string)

  /** What the images of one folder contribute, in order: the first detected
      encoding of every image in which a face was found. */
  function FolderEnrollments<E>(person: string, images: seq<seq<E>>): (r: seq<Enrollment<E>>)
    ensures |r| <= |images|
    ensures forall k :: 0 <= k < |r| ==> r[k].name == person
  {
    if images == [] then []
    else
      var last := images[|images| - 1];
      FolderEnrollments(person, images[..|images| - 1])
        + (if last != [] then [Enrollment(last[0], person)] else [])
  }

  /** What one directory entry contributes. */
  function EntryEnrollments<E>(entry: DirEntry<E>): seq<Enrollment<E>>
  {
    match entry
    case PersonFolder(person, images) => FolderEnrollments(person, images)
    case OtherFile(_) => []
  }

  /** What the whole walk contributes, entry after entry. */
  function Enrollments<E>(entries: seq<DirEntry<E>>): (r: seq<Enrollment<E>>)
    ensures forall k :: 0 <= k < |r| ==> IsPersonName(entries, r[k].name)
  {
    if entries == [] then []
    else
      var init, last := entries[..|entries| - 1], entries[|entries| - 1];
      var r := Enrollments(init) + EntryEnrollments(last);
      assert forall k :: 0 <= k < |r| ==> IsPersonName(entries, r[k].name) by {
        forall k | 0 <= k < |r|
          ensures IsPersonName(entries, r[k].name)
        {
          if k < |Enrollments(init)| {
            var i :| 0 <= i < |init| && init[i].PersonFolder? && init[i].person == r[k].name;
            assert entries[i] == init[i];
          } else {
            assert last.PersonFolder?;
            assert entries[|entries| - 1] == last;
          }
        }
      }
      r
  }

  /** `name` is the person of one of the folders in `entries`. */
  ghost predicate IsPersonName<E>(entries: seq<DirEntry<E>>, name: string)
  {
    exists i :: 0 <= i < |entries| && entries[i].PersonFolder? && entries[i].person == name
  }

  /** The two parallel lists read as one list of pairs. */
  function Pairs<E>(encodings: seq<E>, names: seq<string>): seq<Enrollment<E>>
    requires |encodings| == |names|
  {
    seq(|names|, k requires 0 <= k < |names| => Enrollment(encodings[k], names[k]))
  }

  /** The outer loop of train_faces over the training directory: two
      parallel lists, one pair appended per image with a detected face. */
  method TrainFaces<E>(entries: seq<DirEntry<E>>) returns (encodings: seq<E>, names: seq<string>)
    ensures |encodings| == |names|
    ensures Pairs(encodings, names) == Enrollments(entries)
    ensures |names| == |Enrollments(entries)|
    ensures forall k :: 0 <= k < |names| ==>
              Enrollments(entries)[k] == Enrollment(encodings[k], names[k])
  {
    encodings, names := [], [];
    var i := 0;
    while i < |entries|
      invariant 0 <= i <= |entries|
      invariant |encodings| == |names|
      invariant Pairs(encodings, names) == Enrollments(entries[..i])
    {
      EnrollmentsExtend(entries, i);
      if entries[i].PersonFolder? {
        encodings, names := EncodePersonFolder(entries[i].person, entries[i].images, encodings, names);
      }
      i := i + 1;
    }
    assert entries[..i] == entries;
  }

  /** The inner loop of train_faces over one person's folder: the first
      detected encoding of each face-bearing image is appended to
      `encodings`, and the person's name to `names`. */
  method EncodePersonFolder<E>(personName: string, images: seq<seq<E>>, encodings0: seq<E>, names0: seq<string>)
    returns (encodings: seq<E>, names: seq<string>)
    requires |encodings0| == |names0|
    ensures |encodings| == |names|
    ensures Pairs(encodings, names) == Pairs(encodings0, names0) + FolderEnrollments(personName, images)
  {
    encodings, names := encodings0, names0;
    var j := 0;
    while j < |images|
      invariant 0 <= j <= |images|
      invariant |encodings| == |names|
      invariant Pairs(encodings, names) == Pairs(encodings0, names0) + FolderEnrollments(personName, images[..j])
    {
      FolderEnrollmentsExtend(personName, images, j);
      var faceEncodings := images[j];
      if faceEncodings != [] {
        PairsAppend(encodings, names, faceEncodings[0], personName);
        encodings := encodings + [faceEncodings[0]];
        names := names + [personName];
      }
      j := j + 1;
    }
    assert images[..j] == images;
  }

  lemma FolderEnrollmentsExtend<E>(person: string, images: seq<seq<E>>, j: int)
    requires 0 <= j < |images|
    ensures FolderEnrollments(person, images[..j + 1])
              == FolderEnrollments(person, images[..j])
                 + (if images[j] != [] then [Enrollment(images[j][0], person)] else [])
  {
    assert images[..j + 1][..j] == images[..j];
  }

  lemma EnrollmentsExtend<E>(entries: seq<DirEntry<E>>, i: int)
    requires 0 <= i < |entries|
    ensures Enrollments(entries[..i + 1]) == Enrollments(entries[..i]) + EntryEnrollments(entries[i])
  {
    assert entries[..i + 1][..i] == entries[..i];
  }

  lemma PairsAppend<E>(encodings: seq<E>, names: seq<string>, e: E, name: string)
    requires |encodings| == |names|
    ensures Pairs(encodings + [e], names + [name]) == Pairs(encodings, names) + [Enrollment(e, name)]
  {
  }

  /** Number of images with at least one detected face. */
  function FaceImageCount<E>(images: seq<seq<E>>): nat
  {
    if images == [] then 0
    else FaceImageCount(images[1..]) + (if images[0] != [] then 1 else 0)
  }

  /** Number of face-bearing images over all person folders. */
  function EntriesFaceImageCount<E>(entries: seq<DirEntry<E>>): nat
  {
    if entries == [] then 0
    else
      EntriesFaceImageCount(entries[1..])
        + (if entries[0].PersonFolder? then FaceImageCount(entries[0].images) else 0)
  }

  lemma {:induction false} FolderEnrollmentsAppend<E>(person: string, a: seq<seq<E>>, b: seq<seq<E>>)
    ensures FolderEnrollments(person, a + b)
              == FolderEnrollments(person, a) + FolderEnrollments(person, b)
    decreases |b|
  {
    if b == [] {
      assert a + b == a;
    } else {
      var b', last := b[..|b| - 1], b[|b| - 1];
      var tail := if last != [] then [Enrollment(last[0], person)] else [];
      assert (a + b)[..|a + b| - 1] == a + b';
      assert (a + b)[|a + b| - 1] == last;
      assert FolderEnrollments(person, a + b) == FolderEnrollments(person, a + b') + tail;
      assert FolderEnrollments(person, b) == FolderEnrollments(person, b') + tail;
      FolderEnrollmentsAppend(person, a, b');
    }
  }

  /** Training distributes over the concatenation of two directory listings. */
  lemma {:induction false} EnrollmentsAppend<E>(a: seq<DirEntry<E>>, b: seq<DirEntry<E>>)
    ensures Enrollments(a + b) == Enrollments(a) + Enrollments(b)
    decreases |b|
  {
    if b == [] {
      assert a + b == a;
    } else {
      var b', last := b[..|b| - 1], b[|b| - 1];
      assert (a + b)[..|a + b| - 1] == a + b';
      assert (a + b)[|a + b| - 1] == last;
      assert Enrollments(a + b) == Enrollments(a + b') + EntryEnrollments(last);
      assert Enrollments(b) == Enrollments(b') + EntryEnrollments(last);
      EnrollmentsAppend(a, b');
    }
  }

  /** An image in which no face is detected contributes nothing. */
  lemma {:induction false} FacelessImageIgnored<E>(person: string, a: seq<seq<E>>, b: seq<seq<E>>)
    ensures FolderEnrollments(person, a + [[]] + b) == FolderEnrollments(person, a + b)
  {
    FolderEnrollmentsAppend(person, a + [[]], b);
    FolderEnrollmentsAppend(person, a, [[]]);
    FolderEnrollmentsAppend(person, a, b);
    var faceless: seq<seq<E>> := [[]];
    assert faceless[..0] == [];
  }

  /** An image with at least one detected face contributes exactly one pair:
      its first encoding under the folder's person name. */
  lemma {:induction false} FaceImageContributesOne<E>(person: string, a: seq<seq<E>>, image: seq<E>, b: seq<seq<E>>)
    requires image != []
    ensures FolderEnrollments(person, a + [image] + b)
              == FolderEnrollments(person, a) + [Enrollment(image[0], person)]
                   + FolderEnrollments(person, b)
  {
    FolderEnrollmentsAppend(person, a + [image], b);
    FolderEnrollmentsAppend(person, a, [image]);
    assert FolderEnrollments(person, [image]) == [Enrollment(image[0], person)] by {
      assert [image][..0] == [];
    }
  }

  /** A directory entry that is not a folder contributes nothing. */
  lemma {:induction false} OtherFileIgnored<E>(a: seq<DirEntry<E>>, fileName: string, b: seq<DirEntry<E>>)
    ensures Enrollments(a + [OtherFile(fileName)] + b) == Enrollments(a + b)
  {
    var other: seq<DirEntry<E>> := [OtherFile(fileName)];
    assert other[..0] == [];
    assert Enrollments(other) == [];
    EnrollmentsAppend(a + other, b);
    EnrollmentsAppend(a, other);
    EnrollmentsAppend(a, b);
  }

  lemma {:induction false} FolderCount<E>(person: string, images: seq<seq<E>>)
    ensures |FolderEnrollments(person, images)| == FaceImageCount(images)
    decreases |images|
  {
    if images != [] {
      FolderEnrollmentsAppend(person, [images[0]], images[1..]);
      assert [images[0]] + images[1..] == images;
      assert [images[0]][..0] == [];
      FolderCount(person, images[1..]);
    }
  }

  /** The number of known faces is the number of face-bearing images. */
  lemma {:induction false} EnrollmentCount<E>(entries: seq<DirEntry<E>>)
    ensures |Enrollments(entries)| == EntriesFaceImageCount(entries)
    decreases |entries|
  {
    if entries != [] {
      EnrollmentsAppend([entries[0]], entries[1..]);
      assert [entries[0]] + entries[1..] == entries;
      assert [entries[0]][..0] == [];
      EnrollmentCount(entries[1..]);
      if entries[0].PersonFolder? {
        FolderCount(entries[0].person, entries[0].images);
      }
    }
  }

  /** `e` was enrolled from some image of some person folder: its name is the
      folder's person and its encoding is that image's first detected face. */
  ghost predicate FromImage<E>(entries: seq<DirEntry<E>>, e: Enrollment<E>)
  {
    exists i, j :: 0 <= i < |entries| && entries[i].PersonFolder?
      && 0 <= j < |entries[i].images| && entries[i].images[j] != []
      && e == Enrollment(entries[i].images[j][0], entries[i].person)
  }

  lemma {:induction false} FolderSound<E>(person: string, images: seq<seq<E>>, k: int)
    requires 0 <= k < |FolderEnrollments(person, images)|
    ensures exists j :: 0 <= j < |images| && images[j] != []
              && FolderEnrollments(person, images)[k] == Enrollment(images[j][0], person)
    decreases |images|
  {
    var n := |images|;
    var prefix := FolderEnrollments(person, images[..n - 1]);
    if k < |prefix| {
      FolderSound(person, images[..n - 1], k);
      var j :| 0 <= j < n - 1 && images[..n - 1][j] != []
                 && prefix[k] == Enrollment(images[..n - 1][j][0], person);
      assert images[..n - 1][j] == images[j];
    } else {
      assert images[n - 1] != [];
    }
  }

  /** Every known face comes from a face-bearing image of a person folder. */
  lemma {:induction false} EnrollmentsSound<E>(entries: seq<DirEntry<E>>, k: int)
    requires 0 <= k < |Enrollments(entries)|
    ensures FromImage(entries, Enrollments(entries)[k])
    decreases |entries|
  {
    var n := |entries|;
    var init := entries[..n - 1];
    var prefix := Enrollments(init);
    var e := Enrollments(entries)[k];
    if k < |prefix| {
      EnrollmentsSound(init, k);
      var i, j :| 0 <= i < |init| && init[i].PersonFolder?
        && 0 <= j < |init[i].images| && init[i].images[j] != []
        && e == Enrollment(init[i].images[j][0], init[i].person);
      assert init[i] == entries[i];
    } else {
      var last := entries[n - 1];
      assert last.PersonFolder?;
      FolderSound(last.person, last.images, k - |prefix|);
      var j :| 0 <= j < |last.images| && last.images[j] != []
                 && FolderEnrollments(last.person, last.images)[k - |prefix|]
                      == Enrollment(last.images[j][0], last.person);
      assert entries[n - 1] == last;
    }
  }
}
