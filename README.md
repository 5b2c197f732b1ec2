# Smart facial door: the session state machine

A model of the door service in `app.py`. The service keeps five globals: the
enrolled face signatures, the last camera frame, the detect-armed flag, the
shown result (READY, AUTHORIZED or UNAUTHORIZED) and the time that result was
set. Four routes change them:

- `start_detect` arms one detection attempt.
- `recognize` records the submitted frame. When armed, it spends the arm and,
  if faces are enrolled, decides AUTHORIZED or UNAUTHORIZED. The decision takes
  the nearest enrolled face (numpy's argmin) and tests its distance strictly
  below 0.4.
- `enroll` appends the first face found in the last frame.
- `view` turns a shown result back to READY once it is more than 3 seconds old,
  then renders the page.

Files:

- `matcher.dfy` (module `Matcher`): the distances, argmin and threshold rule.
- `session.dfy` (module `Session`): the globals as a `State` value, one
  transition function per route, and lemmas about single transitions and about
  any run of requests.
- `door_app.dfy` (module `App`): class `DoorApp`. Its fields are the globals
  and it has one method per route. Each method's `modifies` clause names the
  single fields the route assigns. Each method is proved equal to its `Session`
  transition, so the `Session` lemmas hold of the object.
- `wrappers.dfy`: an `Option` type for the face store file read at startup.

External capabilities are parameters:

- The face library is a `Capabilities` value holding two encoders and a
  distance function. Enrolment works on the full frame. Recognition works on a
  half-size frame at the face locations it finds. So the two encoders differ.
- The clock is a `now` parameter.
- The face store file read at startup is the constructor's `saved` argument:
  `None` when the file is absent.

## Model

| member | source | states |
|---|---|---|
| Matcher.ArgMin | app.py:148 | the index is valid, no distance is smaller, and every earlier distance is strictly larger (the first minimum, as numpy returns) |
| Matcher.Matches | app.py:146-150 | over a non-empty enrolled list: authorized iff the frame has a face and some enrolled face is strictly closer to it than 0.4 |
| Session.StartDetectArms | app.py:98-101 | arming sets the flag, leaves the other four globals alone, and arming twice equals arming once |
| Session.RecognizeRecordsFrame | app.py:127-128 | whatever the mode, the submitted frame becomes the last frame, the flag is clear afterwards and the enrolled list is untouched |
| Session.RecognizeIdle | app.py:130-131 | not armed: IDLE with code 200, and only the frame changes |
| Session.RecognizeNoFacesEnrolled | app.py:133-135 | armed with nothing enrolled: flag cleared, NO FACES ENROLLED (400), result and timestamp untouched |
| Session.RecognizeDecides | app.py:137-157 | armed with faces enrolled: flag cleared, timestamp = now, MATCH FOUND (200) with AUTHORIZED iff a face was found and some enrolled face is within the threshold, else UNKNOWN (401) with UNAUTHORIZED |
| Session.SecondRecognizeIsIdle | app.py:130-144 | a second recognize with no new arm answers IDLE and changes only the frame |
| Session.AtMostOneAttemptPerArm | app.py:124-157 | over any run of requests with no start_detect, at most one recognize performs an attempt, and none if not armed at the start |
| Session.ViewRenders | app.py:90-95 | view renders the last frame, the current result and the enrolled count, and changes nothing but the result |
| Session.ViewExpires | app.py:86-88 | a shown result more than 3 seconds old becomes READY |
| Session.ViewKeeps | app.py:86-88 | a result at most 3 seconds old, exactly 3 included, is kept; READY is never changed |
| Session.ResultShownForWindow | app.py:86-88 | the result of an attempt at time t is still shown at t + 3 and is READY at any later time |
| Session.EnrollAppends | app.py:104-121 | no frame or no face found: nothing changes; else the list grows by one, the old elements are kept and the new last one is the first face found; flag, result and timestamp never change |
| Session.StepOnlyGrows | app.py:116-117 | after every request, the old enrolled list is a prefix of the new one |
| Session.EnrolledOnlyGrows | app.py:83-157 | over any run of requests, the enrolled list only grows at its end |
| Session.FreshStoreScenario | app.py:130-135 | fresh service, arm, submit: NO FACES ENROLLED, the result stays READY, the flag is cleared |
| Session.EnrollThenMatchScenario | app.py:104-157 | submit a frame with F, enroll, arm, submit a frame within the threshold of F: the list is [F], AUTHORIZED, still shown 3 seconds later |
| App.DoorApp.constructor | app.py:15-27 | the initial globals, with the enrolled list taken from the store file when it exists |
| App.DoorApp.View | app.py:83-95 | changes only the result, expiring it after more than 3 seconds, and returns the page |
| App.DoorApp.StartDetect | app.py:98-101 | changes only the flag, which becomes true |
| App.DoorApp.Enroll | app.py:104-121 | changes only the enrolled list, appending the first face of the last frame when there is a frame and a face |
| App.DoorApp.Recognize | app.py:124-157 | sets the frame and clears the flag; IDLE, NO FACES ENROLLED or the decision as in RecognizeDecides; the decision is stamped with now |

Three behaviours of the code worth knowing:

- When armed with nothing enrolled, `recognize` leaves the shown result as it
  was. It does not reset it to READY, so a stale result can stay on screen
  until it expires.
- `view` resets the stored result when it expires, rather than only reporting
  READY.
- `enroll` reports no outcome to its caller. It redirects in every case.

## Left out

- Flask routing, redirects, the HTML template and the HTTP status plumbing. The recognize replies are kept as `Status`, with their text and code.
- Image handling, which is treated as opaque: cv2 decoding, colour conversion and resizing, and base64. The model keeps the raw frame bytes, not the base64 text. The base64 text is empty exactly when the bytes are empty, so enroll's "no frame" test is `|lastImage| == 0`. An empty upload therefore also counts as "no frame".
- The face_recognition embedding and distance calls. They are parameters and nothing is assumed about them. Distances and times are exact reals. Floating-point rounding of the `< 0.4` and `> 3` comparisons is not modelled.
- Matcher.Matches: requires a non-empty enrolled list. The code only calls argmin after its own emptiness check, and argmin on an empty list raises.
- Exceptions from a malformed frame or a corrupt store file. The code does not handle them. An exception before the flag is cleared would leave the service armed. The model has no exceptions.
- Writing the store file after enroll. It is file I/O. The code has no atomic write and no rollback.
- Reading the clock. `now` is a parameter.
- Concurrency between request threads. The code has no locking. Each route is one atomic step.
