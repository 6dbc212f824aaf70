/**
 * Face recognition of one probe image (recognize_faces in app.py).
 *
 * Face detection, encoding and the distance test of `compare_faces` live in a
 * foreign library. What the application owns is the choice of a label from the
 * match flags that `compare_faces` returns: one flag per known encoding, in
 * the order of the known set. Each probe face is therefore given to the model
 * as its row of flags.
 */
module Recognition {

  import opened Wrappers

  /** The label given to a probe face that matches no known encoding. */
  const Unknown: string := "Unknown"

  /** `i` is the least index whose flag is set. */
  ghost predicate IsFirstMatch(flags: seq<bool>, i: int)
  {
    0 <= i < |flags| && flags[i] && forall j :: 0 <= j < i ==> !flags[j]
  }

  /** `flags.index(True)`, or None when no flag is set. */
  function FirstTrue(flags: seq<bool>): (r: Option<nat>)
    ensures r.None? <==> true !in flags
    ensures r.Some? ==> IsFirstMatch(flags, r.value)
  {
    if flags == [] then None
    else if flags[0] then Some(0)
    else
      match FirstTrue(flags[1..])
      case None => None
      case Some(k) => Some(k + 1)
  }

  /** The label of one probe face: the name of the first matching known
      encoding, or "Unknown" when nothing matches. */
  function Label(knownNames: seq<string>, flags: seq<bool>): (chosen: string)
    requires |flags| == |knownNames|
    ensures true !in flags ==> chosen == Unknown
    ensures true in flags ==> exists i :: IsFirstMatch(flags, i) && chosen == knownNames[i]
    ensures chosen == Unknown || chosen in knownNames
  {
    match FirstTrue(flags)
    case None => Unknown
    case Some(i) => knownNames[i]
  }

  /** One label per probe face, in detection order. */
  function Labels(knownNames: seq<string>, faceMatches: seq<seq<bool>>): (labels: seq<string>)
    requires forall k :: 0 <= k < |faceMatches| ==> |faceMatches[k]| == |knownNames|
    ensures |labels| == |faceMatches|
    ensures forall k :: 0 <= k < |labels| ==> labels[k] == Unknown || labels[k] in knownNames
    ensures forall k :: 0 <= k < |labels| && true !in faceMatches[k] ==> labels[k] == Unknown
  {
    seq(|faceMatches|, k requires 0 <= k < |faceMatches| => Label(knownNames, faceMatches[k]))
  }

  /** The loop of recognize_faces: one label appended per probe face. */
  method RecognizeFaces(knownNames: seq<string>, faceMatches: seq<seq<bool>>)
    returns (recognized: seq<string>)
    requires forall k :: 0 <= k < |faceMatches| ==> |faceMatches[k]| == |knownNames|
    ensures |recognized| == |faceMatches|
    ensures forall k :: 0 <= k < |faceMatches| ==> recognized[k] == Label(knownNames, faceMatches[k])
    ensures recognized == Labels(knownNames, faceMatches)
  {
    recognized := [];
    var k := 0;
    while k < |faceMatches|
      invariant 0 <= k <= |faceMatches|
      invariant |recognized| == k
      invariant forall m :: 0 <= m < k ==> recognized[m] == Label(knownNames, faceMatches[m])
    {
      var flags := faceMatches[k];
      var name := Unknown;
      if true in flags {
        var firstMatchIndex := FirstTrue(flags).value;
        name := knownNames[firstMatchIndex];
      }
      recognized := recognized + [name];
      k := k + 1;
    }
  }

  /** The first match decides the label, whatever the later flags say:
      two flag rows that agree up to and including their first match give the
      same label. This is first-match-wins, not nearest neighbour. */
  lemma FirstMatchWins(knownNames: seq<string>, f: seq<bool>, g: seq<bool>, i: int)
    requires |f| == |knownNames| && |g| == |knownNames|
    requires IsFirstMatch(f, i)
    requires f[..i + 1] == g[..i + 1]
    ensures Label(knownNames, f) == knownNames[i]
    ensures Label(knownNames, g) == knownNames[i]
  {
    assert g[i] == g[..i + 1][i] == f[..i + 1][i] == f[i];
    forall j | 0 <= j < i
      ensures !g[j]
    {
      assert g[j] == g[..i + 1][j] == f[..i + 1][j] == f[j];
    }
    assert IsFirstMatch(g, i);
    assert IsFirstMatch(f, FirstTrue(f).value);
    assert IsFirstMatch(g, FirstTrue(g).value);
  }
}
