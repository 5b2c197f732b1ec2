/**
  The matching rule of the door: the distances from every enrolled face to the
  probe face, the index of the smallest one (numpy's argmin) and the strict
  threshold test on it.  The embedding distance itself is an external
  capability and is passed in as a function.
 */
module Matcher {

  /** One face embedding (face_recognition's 128-number vector). */
  type Signature = seq<real>

  /** The external face distance; the model assumes nothing about it. */
  type Distance = (Signature, Signature) -> real

  /** A face matches when its distance is strictly below this constant. */
  const Threshold: real := 0.4

  /** face_distance(enrolled, probe): one distance per enrolled face, in enrolment order. */
  function Distances(faces: seq<Signature>, probe: Signature, distance: Distance): seq<real>
  {
    seq(|faces|, i requires 0 <= i < |faces| => distance(faces[i], probe))
  }

  /**
    numpy's argmin: the index of the smallest value, the first one when the
    smallest value occurs several times.
   */
  function ArgMin(ds: seq<real>): (k: nat)
    requires |ds| > 0
    ensures k < |ds|
    ensures forall i :: 0 <= i < |ds| ==> ds[k] <= ds[i]
    ensures forall i :: 0 <= i < k ==> ds[k] < ds[i]
    decreases |ds|
  {
    if |ds| == 1 then 0
    else
      var front := ds[..|ds| - 1];
      var k := ArgMin(front);
      assert forall i :: 0 <= i < |ds| - 1 ==> front[i] == ds[i];
      if ds[|ds| - 1] < ds[k] then |ds| - 1 else k
  }

  /**
    The decision of a detection attempt over a non-empty enrolled list: take the
    first face found in the frame, if any, and test the nearest enrolled face
    against the threshold.  It holds exactly when a face was found and SOME
    enrolled face is strictly closer to it than the threshold.
   */
  function Matches(faces: seq<Signature>, encodings: seq<Signature>, distance: Distance): (authorized: bool)
    requires |faces| > 0
    ensures authorized <==>
      |encodings| > 0 && exists i :: 0 <= i < |faces| && distance(faces[i], encodings[0]) < Threshold
  {
    if |encodings| > 0 then
      var ds := Distances(faces, encodings[0], distance);
      var best := ArgMin(ds);
      assert forall i :: 0 <= i < |faces| ==> ds[i] == distance(faces[i], encodings[0]);
      ds[best] < Threshold
    else
      false
  }
}
