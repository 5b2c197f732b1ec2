/**
  The door's session state machine as values: the five module-level globals of
  the service, one transition function per route, and the properties of those
  transitions, alone and over any sequence of requests.
 */
module Session {
  import opened Wrappers
  import opened Matcher

  /** An uploaded camera frame, as raw bytes (the service keeps it base64-encoded). */
  type Frame = seq<bv8>

  /** face_encodings applied to a frame: every face found, in detection order. */
  type Encoder = Frame -> seq<Signature>

  /**
    The external face library: enrolment encodes the full colour frame,
    recognition the half-size frame at the face locations it found first, so the
    two are separate capabilities.
   */
  datatype Capabilities = Capabilities(
    encodeForEnroll: Encoder,
    encodeForRecognize: Encoder,
    distance: Distance)

  /** The displayed door result. */
  datatype Result = Ready | Authorized | Unauthorized

  /** The reply of the recognize route. */
  datatype Status = Idle | NoFacesEnrolled | MatchFound | Unknown
  {
    function Text(): string
    {
      match this
      case Idle => "IDLE"
      case NoFacesEnrolled => "NO FACES ENROLLED"
      case MatchFound => "MATCH FOUND"
      case Unknown => "UNKNOWN"
    }

    function HttpCode(): int
    {
      match this
      case Idle => 200
      case NoFacesEnrolled => 400
      case MatchFound => 200
      case Unknown => 401
    }
  }

  /** What the view route renders: the last frame, the result and the enrolled count. */
  datatype Page = Page(image: Frame, result: Result, count: nat)

  /** The service's globals. An empty lastImage means no frame is shown. */
  datatype State = State(
    enrolledFaces: seq<Signature>,
    lastImage: Frame,
    detectMode: bool,
    lastResult: Result,
    resultTimestamp: real)

  /** Seconds a shown AUTHORIZED or UNAUTHORIZED result is kept before READY returns. */
  const ExpiryWindow: real := 3.0

  /** The state at startup, given the contents of the face store file if it exists. */
  function Init(saved: Option<seq<Signature>>): State
  {
    State(if saved.Some? then saved.value else [], [], false, Ready, 0.0)
  }

  /** view: expire a shown result lazily, then render. */
  function View(s: State, now: real): (State, Page)
  {
    var s' := if (s.lastResult == Authorized || s.lastResult == Unauthorized)
                 && now - s.resultTimestamp > ExpiryWindow
              then s.(lastResult := Ready)
              else s;
    (s', Page(s'.lastImage, s'.lastResult, |s'.enrolledFaces|))
  }

  /** start_detect: arm one detection attempt. */
  function StartDetect(s: State): State
  {
    s.(detectMode := true)
  }

  /** enroll: store the first face of the last frame, if there is a frame and a face in it. */
  function Enroll(s: State, caps: Capabilities): State
  {
    if |s.lastImage| == 0 then s
    else
      var encodings := caps.encodeForEnroll(s.lastImage);
      if |encodings| > 0 then s.(enrolledFaces := s.enrolledFaces + [encodings[0]]) else s
  }

  /**
    recognize: record the frame; when armed, consume the arm and, when faces
    are enrolled, decide and stamp the result.
   */
  function Recognize(s: State, image: Frame, caps: Capabilities, now: real): (State, Status)
  {
    var s1 := s.(lastImage := image);
    if !s1.detectMode then (s1, Idle)
    else if |s1.enrolledFaces| == 0 then (s1.(detectMode := false), NoFacesEnrolled)
    else
      var encodings := caps.encodeForRecognize(image);
      var s2 := s1.(detectMode := false);
      if Matches(s2.enrolledFaces, encodings, caps.distance)
      then (s2.(lastResult := Authorized, resultTimestamp := now), MatchFound)
      else (s2.(lastResult := Unauthorized, resultTimestamp := now), Unknown)
  }

  // ---------------------------------------------------------------------------
  // Requests and runs of requests

  datatype Request = ViewRequest(now: real) | StartDetectRequest | EnrollRequest | RecognizeRequest(image: Frame, now: real)

  function Step(s: State, r: Request, caps: Capabilities): State
  {
    match r
    case ViewRequest(now) => View(s, now).0
    case StartDetectRequest => StartDetect(s)
    case EnrollRequest => Enroll(s, caps)
    case RecognizeRequest(image, now) => Recognize(s, image, caps, now).0
  }

  /** The state after serving the requests one after another. */
  function Run(s: State, rs: seq<Request>, caps: Capabilities): State
    decreases |rs|
  {
    if rs == [] then s else Run(Step(s, rs[0], caps), rs[1..], caps)
  }

  /** How many recognize requests in the run performed a detection attempt (did not answer IDLE). */
  function Attempts(s: State, rs: seq<Request>, caps: Capabilities): nat
    decreases |rs|
  {
    if rs == [] then 0
    else
      var here := if rs[0].RecognizeRequest? && Recognize(s, rs[0].image, caps, rs[0].now).1 != Idle then 1 else 0;
      here + Attempts(Step(s, rs[0], caps), rs[1..], caps)
  }

  predicate NoArming(rs: seq<Request>)
  {
    forall i :: 0 <= i < |rs| ==> !rs[i].StartDetectRequest?
  }

  // ---------------------------------------------------------------------------
  // start_detect

  /** Arming sets the flag, changes nothing else, and arming twice is arming once. */
  lemma StartDetectArms(s: State)
    ensures StartDetect(s).detectMode
    ensures StartDetect(s).enrolledFaces == s.enrolledFaces && StartDetect(s).lastImage == s.lastImage
    ensures StartDetect(s).lastResult == s.lastResult && StartDetect(s).resultTimestamp == s.resultTimestamp
    ensures StartDetect(StartDetect(s)) == StartDetect(s)
  {
  }

  // ---------------------------------------------------------------------------
  // recognize

  /** Whatever the mode, the submitted frame becomes the shown frame and the arm is gone afterwards. */
  lemma RecognizeRecordsFrame(s: State, image: Frame, caps: Capabilities, now: real)
    ensures Recognize(s, image, caps, now).0.lastImage == image
    ensures !Recognize(s, image, caps, now).0.detectMode
    ensures Recognize(s, image, caps, now).0.enrolledFaces == s.enrolledFaces
  {
  }

  /** Not armed: IDLE, and only the frame changes. */
  lemma RecognizeIdle(s: State, image: Frame, caps: Capabilities, now: real)
    requires !s.detectMode
    ensures Recognize(s, image, caps, now) == (s.(lastImage := image), Idle)
    ensures var status := Recognize(s, image, caps, now).1;
      status.HttpCode() == 200 && status.Text() == "IDLE"
  {
  }

  /** Armed with nothing enrolled: the arm is consumed, the error status returned, the result untouched. */
  lemma RecognizeNoFacesEnrolled(s: State, image: Frame, caps: Capabilities, now: real)
    requires s.detectMode && |s.enrolledFaces| == 0
    ensures Recognize(s, image, caps, now) == (s.(lastImage := image, detectMode := false), NoFacesEnrolled)
    ensures var status := Recognize(s, image, caps, now).1;
      status.HttpCode() == 400 && status.Text() == "NO FACES ENROLLED"
  {
  }

  /**
    Armed with faces enrolled: the arm is consumed, the result is stamped with
    now, and it is AUTHORIZED (MATCH FOUND) exactly when the frame has a face
    and some enrolled face is strictly closer to it than the threshold, else
    UNAUTHORIZED (UNKNOWN), which includes a frame without a face.
   */
  lemma RecognizeDecides(s: State, image: Frame, caps: Capabilities, now: real)
    requires s.detectMode && |s.enrolledFaces| > 0
    ensures var (s', status) := Recognize(s, image, caps, now);
      && s'.enrolledFaces == s.enrolledFaces && s'.lastImage == image && !s'.detectMode
      && s'.resultTimestamp == now
      && (status == MatchFound <==> s'.lastResult == Authorized)
      && (status == Unknown <==> s'.lastResult == Unauthorized)
      && (status == MatchFound || status == Unknown)
      && status.HttpCode() == (if s'.lastResult == Authorized then 200 else 401)
      && status.Text() == (if s'.lastResult == Authorized then "MATCH FOUND" else "UNKNOWN")
      && (s'.lastResult == Authorized <==>
            var encodings := caps.encodeForRecognize(image);
            |encodings| > 0 &&
            exists i :: 0 <= i < |s.enrolledFaces| && caps.distance(s.enrolledFaces[i], encodings[0]) < Threshold)
  {
  }

  /** A second frame without a new arm is answered IDLE: one attempt per arm. */
  lemma SecondRecognizeIsIdle(s: State, first: Frame, second: Frame, caps: Capabilities, t1: real, t2: real)
    ensures var s1 := Recognize(s, first, caps, t1).0;
      Recognize(s1, second, caps, t2) == (s1.(lastImage := second), Idle)
  {
  }

  /**
    Over any run of requests that contains no start_detect, at most one
    recognize performs a detection attempt, and none does if the state was not
    armed to begin with.
   */
  lemma {:induction false} AtMostOneAttemptPerArm(s: State, rs: seq<Request>, caps: Capabilities)
    requires NoArming(rs)
    ensures Attempts(s, rs, caps) <= (if s.detectMode then 1 else 0)
    decreases |rs|
  {
    if rs != [] {
      var s' := Step(s, rs[0], caps);
      assert NoArming(rs[1..]) by {
        forall i | 0 <= i < |rs[1..]| ensures !rs[1..][i].StartDetectRequest? {
          assert rs[1..][i] == rs[i + 1];
        }
      }
      AtMostOneAttemptPerArm(s', rs[1..], caps);
      if rs[0].RecognizeRequest? {
        RecognizeRecordsFrame(s, rs[0].image, caps, rs[0].now);
      }
    }
  }

  // ---------------------------------------------------------------------------
  // view

  /** view renders the frame, the (possibly expired) result and the enrolled count, and changes only the result. */
  lemma ViewRenders(s: State, now: real)
    ensures var (s', page) := View(s, now);
      && s' == s.(lastResult := s'.lastResult)
      && page == Page(s.lastImage, s'.lastResult, |s.enrolledFaces|)
  {
  }

  /** A shown result older than the window becomes READY. */
  lemma ViewExpires(s: State, now: real)
    requires s.lastResult != Ready && now - s.resultTimestamp > ExpiryWindow
    ensures View(s, now).0 == s.(lastResult := Ready)
  {
  }

  /** A shown result at most the window old, exactly 3 seconds included, is kept; READY is never changed. */
  lemma ViewKeeps(s: State, now: real)
    requires s.lastResult == Ready || now - s.resultTimestamp <= ExpiryWindow
    ensures View(s, now).0 == s
  {
  }

  /** The result of an attempt at time t is shown at t + 3 and gone at any later time. */
  lemma ResultShownForWindow(s: State, image: Frame, caps: Capabilities, t: real, later: real)
    requires s.detectMode && |s.enrolledFaces| > 0
    requires later > t + ExpiryWindow
    ensures var s1 := Recognize(s, image, caps, t).0;
      && View(s1, t + ExpiryWindow).1.result == s1.lastResult != Ready
      && View(s1, later).1.result == Ready
  {
  }

  // ---------------------------------------------------------------------------
  // enroll

  /** enroll appends exactly the first face found in the last frame, or changes nothing. */
  lemma EnrollAppends(s: State, caps: Capabilities)
    ensures var s' := Enroll(s, caps);
      && s'.lastImage == s.lastImage && s'.detectMode == s.detectMode
      && s'.lastResult == s.lastResult && s'.resultTimestamp == s.resultTimestamp
      && (|s.lastImage| == 0 ==> s' == s)
      && (|s.lastImage| > 0 && |caps.encodeForEnroll(s.lastImage)| > 0 ==>
            |s'.enrolledFaces| == |s.enrolledFaces| + 1
            && s'.enrolledFaces[..|s.enrolledFaces|] == s.enrolledFaces
            && s'.enrolledFaces[|s.enrolledFaces|] == caps.encodeForEnroll(s.lastImage)[0])
      && (|s.lastImage| > 0 && |caps.encodeForEnroll(s.lastImage)| == 0 ==> s' == s)
  {
  }

  /** No request removes or rewrites an enrolled face: the old list is a prefix of the new one. */
  lemma StepOnlyGrows(s: State, r: Request, caps: Capabilities)
    ensures s.enrolledFaces <= Step(s, r, caps).enrolledFaces
  {
  }

  /** Over any run of requests, the enrolled list only grows at its end. */
  lemma {:induction false} EnrolledOnlyGrows(s: State, rs: seq<Request>, caps: Capabilities)
    ensures s.enrolledFaces <= Run(s, rs, caps).enrolledFaces
    decreases |rs|
  {
    if rs != [] {
      StepOnlyGrows(s, rs[0], caps);
      EnrolledOnlyGrows(Step(s, rs[0], caps), rs[1..], caps);
    }
  }

  // ---------------------------------------------------------------------------
  // Scenarios

  /** Fresh store: arming and submitting a frame answers NO FACES ENROLLED and the result stays READY. */
  lemma FreshStoreScenario(image: Frame, caps: Capabilities, now: real)
    ensures var (s, status) := Recognize(StartDetect(Init(None)), image, caps, now);
      status == NoFacesEnrolled && s.lastResult == Ready && !s.detectMode
  {
  }

  /**
    A frame showing face F is submitted while idle and enrolled; after arming,
    a frame whose face is within the threshold of F is authorized, and the
    grant is shown for the expiry window.
   */
  lemma EnrollThenMatchScenario(enrolFrame: Frame, probeFrame: Frame, caps: Capabilities, t0: real, t: real)
    requires |enrolFrame| > 0 && |caps.encodeForEnroll(enrolFrame)| > 0
    requires |caps.encodeForRecognize(probeFrame)| > 0
    requires caps.distance(caps.encodeForEnroll(enrolFrame)[0], caps.encodeForRecognize(probeFrame)[0]) < Threshold
    ensures var s := Run(Init(None), [RecognizeRequest(enrolFrame, t0), EnrollRequest, StartDetectRequest,
                                      RecognizeRequest(probeFrame, t)], caps);
      && s.enrolledFaces == [caps.encodeForEnroll(enrolFrame)[0]]
      && s.lastResult == Authorized && !s.detectMode
      && View(s, t + ExpiryWindow).1.result == Authorized
  {
    var rs := [RecognizeRequest(enrolFrame, t0), EnrollRequest, StartDetectRequest, RecognizeRequest(probeFrame, t)];
    var f := caps.encodeForEnroll(enrolFrame)[0];
    var s1 := Recognize(Init(None), enrolFrame, caps, t0).0;
    var s2 := Enroll(s1, caps);
    assert s2.enrolledFaces == [f];
    var s3 := StartDetect(s2);
    var (s4, status) := Recognize(s3, probeFrame, caps, t);
    RecognizeDecides(s3, probeFrame, caps, t);
    assert status == MatchFound;
    assert Run(s4, rs[4..], caps) == s4;
    assert Run(s3, rs[3..], caps) == s4;
    assert Run(s2, rs[2..], caps) == s4;
    assert Run(s1, rs[1..], caps) == s4;
  }
}
