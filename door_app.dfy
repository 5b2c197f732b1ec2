/**
  The running service: the five globals as fields of one object, updated in
  place by one method per route.  Each method says which fields it may change
  (its modifies clause names single fields), what the new values are, and that
  it does what the state machine in module Session prescribes, so every lemma
  proved there holds of the object.
 */
module App {
  import opened Wrappers
  import opened Matcher
  import opened Session

  class DoorApp {
    /** The external face library the service calls. */
    const caps: Capabilities

    var enrolledFaces: seq<Signature>
    var lastImage: Frame
    var detectMode: bool
    var lastResult: Result
    var resultTimestamp: real

    /** The globals as one value of the state machine. */
    function Snapshot(): State
      reads this
    {
      State(enrolledFaces, lastImage, detectMode, lastResult, resultTimestamp)
    }

    /** Startup: the initial globals, with the enrolled list read from the face store file when it exists. */
    constructor (caps: Capabilities, saved: Option<seq<Signature>>)
      ensures this.caps == caps
      ensures Snapshot() == Session.Init(saved)
      ensures enrolledFaces == (if saved.Some? then saved.value else [])
      ensures lastImage == [] && !detectMode && lastResult == Ready && resultTimestamp == 0.0
    {
      this.caps := caps;
      enrolledFaces := [];
      lastImage := [];
      detectMode := false;
      lastResult := Ready;
      resultTimestamp := 0.0;
      if saved.Some? {
        enrolledFaces := saved.value;
      }
    }

    /** view: expire a result older than the window, then render the page. */
    method View(now: real) returns (page: Page)
      modifies this`lastResult
      ensures (Snapshot(), page) == Session.View(old(Snapshot()), now)
      ensures old(lastResult) != Ready && now - resultTimestamp > ExpiryWindow ==> lastResult == Ready
      ensures old(lastResult) == Ready || now - resultTimestamp <= ExpiryWindow ==> lastResult == old(lastResult)
      ensures page == Page(lastImage, lastResult, |enrolledFaces|)
    {
      if lastResult == Authorized || lastResult == Unauthorized {
        if now - resultTimestamp > ExpiryWindow {
          lastResult := Ready;
        }
      }
      page := Page(lastImage, lastResult, |enrolledFaces|);
    }

    /** start_detect: arm one detection attempt; nothing else changes. */
    method StartDetect()
      modifies this`detectMode
      ensures Snapshot() == Session.StartDetect(old(Snapshot()))
      ensures detectMode
    {
      detectMode := true;
    }

    /** enroll: append the first face found in the last frame; nothing else changes. */
    method Enroll()
      modifies this`enrolledFaces
      ensures Snapshot() == Session.Enroll(old(Snapshot()), caps)
      ensures |lastImage| == 0 ==> enrolledFaces == old(enrolledFaces)
      ensures |lastImage| > 0 && |caps.encodeForEnroll(lastImage)| > 0 ==>
                enrolledFaces == old(enrolledFaces) + [caps.encodeForEnroll(lastImage)[0]]
      ensures |lastImage| > 0 && |caps.encodeForEnroll(lastImage)| == 0 ==> enrolledFaces == old(enrolledFaces)
    {
      if |lastImage| == 0 {
        return;
      }
      var encodings := caps.encodeForEnroll(lastImage);
      if |encodings| > 0 {
        enrolledFaces := enrolledFaces + [encodings[0]];
      }
    }

    /**
      recognize: record the frame and, when armed, spend the arm on one detection attempt.
      Since the flag is always false afterwards, a caller that runs StartDetect and then
      Recognize twice can conclude from this contract alone that the second call answers Idle.
     */
    method Recognize(image: Frame, now: real) returns (status: Status)
      modifies this`lastImage, this`detectMode, this`lastResult, this`resultTimestamp
      ensures (Snapshot(), status) == Session.Recognize(old(Snapshot()), image, caps, now)
      ensures lastImage == image && !detectMode
      ensures !old(detectMode) ==>
                status == Idle && lastResult == old(lastResult) && resultTimestamp == old(resultTimestamp)
      ensures old(detectMode) && |enrolledFaces| == 0 ==>
                status == NoFacesEnrolled && lastResult == old(lastResult) && resultTimestamp == old(resultTimestamp)
      ensures old(detectMode) && |enrolledFaces| > 0 ==>
                && resultTimestamp == now
                && (status == MatchFound <==> lastResult == Authorized)
                && (status == Unknown <==> lastResult == Unauthorized)
                && (lastResult == Authorized || lastResult == Unauthorized)
                && (lastResult == Authorized <==>
                      |caps.encodeForRecognize(image)| > 0 &&
                      exists i :: 0 <= i < |enrolledFaces| &&
                        caps.distance(enrolledFaces[i], caps.encodeForRecognize(image)[0]) < Threshold)
    {
      lastImage := image;
      if !detectMode {
        return Idle;
      }
      if |enrolledFaces| == 0 {
        detectMode := false;
        return NoFacesEnrolled;
      }
      var encodings := caps.encodeForRecognize(image);
      detectMode := false;
      if |encodings| > 0 {
        var distances := Distances(enrolledFaces, encodings[0], caps.distance);
        var bestMatch := ArgMin(distances);
        if distances[bestMatch] < Threshold {
          lastResult := Authorized;
          resultTimestamp := now;
          return MatchFound;
        }
      }
      lastResult := Unauthorized;
      resultTimestamp := now;
      return Unknown;
    }
  }
}
