# Face recognition log-in: a verified model

The system is a face-recognition log-in application. It has three parts:

- **The recogniser back end** (Python, Flask and Socket.IO).
  - It registers a user from an uploaded photo. It stores the user's name with a face embedding in a JSON file.
  - It answers `authenticate` socket events. Each event carries a webcam frame: the back end finds the stored user nearest to the frame's embedding, or answers "Unknown".
  - backend/routes/api_routes.py defines REST handlers over a login log and the user store. The app as shown never imports or registers them.
- **The client** (React).
  - A registration page crops the first confident face the detector sees and uploads it.
  - A streaming authenticator sends confident frames over a socket for five seconds.
  - There is an administrator dashboard and a user dashboard.
- **A first-generation client.** It is written to register one face descriptor in local storage and to authenticate against it. Its image conversion takes a data-URL string where face-api.js expects a `Blob`, so in practice the detection is rejected.

The model keeps each component's decisions, and its list and record operations, with the same branches, constants and error replies.

Some things become inputs of the operation that uses them:

- the face detector and DeepFace embedder;
- base64 decoding (section 4 of RFC 4648) and the image decoder;
- Euclidean distances;
- date parsing and name collation;
- the server's replies to the client;
- the clock.

Floats are `real`.

The modules follow the source files:

| module | file | what it holds |
|---|---|---|
| `JsonModel` | json.dfy | JSON values, Python truthiness, `dict.get` |
| `DataStorage` | data_storage.dfy | the two JSON files, `load_data`, what a `for` loop visits |
| `FrameProcessing` | frame_processing.dfy | `process_frame`: data-URL header strip (section 3 of RFC 2397), decoding, the resize rule |
| `AuthenticateSocket` | authenticate_socket.dfy | the `authenticate` handler, with a frame counter, a semaphore and the best-match loop |
| `ApiRoutes` | api_routes.dfy | login log append, user listing, log query, delete by name |
| `AuthRoutes` | auth_routes.dfy | `register` |
| `StreamingAuthentication` | streaming_authenticator.dfy | the real-time authenticator: session start, interval tick, sent-image history |
| `FaceRegistration` | face_registration.dfy | the registration page: detector tick, capture-once, crop geometry, upload |
| `AdminDashboard` | admin_dashboard.dfy | the administrator dashboard |
| `UserDashboard` | user_dashboard.dfy | the user dashboard |
| `LogOrder` | log_order.dfy | the date key and the newest-first order both dashboards use |
| `LegacyRegistration`, `LegacyAuthentication` | legacy_*.dfy | the first-generation client |
| `Text`, `Sequences`, `Sorting`, `Browser`, `Wrappers` | | split/join/reverse, order-preserving filter, sorting, local storage and routes, Option/Result |

Components that keep state are classes. Their methods change the fields and state the new state in full:

- the socket handler, whose fields are the module-level counter and semaphore;
- the data files;
- each React component, whose fields are its `useState` variables, plus the requests, navigations and toasts it issues.

An `await` whose intermediate state can be observed splits a handler into two steps: a click, then the reply arriving.

The best-match loop and the delete loop are methods with loop invariants. Each is proved against a declarative statement of its result:

- the first strict minimum;
- the order-preserving filter.

## Model

| member | source | states |
|---|---|---|
| JsonModel.Truthy | backend/sockets/authenticate_socket.py:35 | Python's `bool`: a value is false iff it is None, False, 0, the empty string, the empty list or the empty dict |
| JsonModel.Get | backend/routes/api_routes.py:16-18 | `dict.get`: the value under the key when present, None otherwise |
| DataStorage.LoadData | backend/helpers/data_storage.py:6-12 | a parsed file gives its JSON value; a missing or unparsable file gives the empty list |
| DataStorage.ListItems | backend/routes/api_routes.py:92-96 | what a `for` loop visits in a loaded value: a list gives its items, an empty dict or string gives nothing, any other value makes the loop raise |
| FrameProcessing.StripHeader | backend/helpers/frame_processing.py:10-11 | input that is not a `data:image` string passes unchanged; a data URL succeeds iff it contains a comma, and then gives exactly the text between the first and second comma |
| FrameProcessing.ResizeEmptiesIffFlat | backend/helpers/frame_processing.py:21-23 | the resize meets OpenCV's empty-size check exactly when the image is wider than the maximum and its scaled height, height × maximum / width, is at most one half, so it rounds to 0 |
| FrameProcessing.FitWidth | backend/helpers/frame_processing.py:21-23 | the resize raises exactly when the scaled image would be empty; otherwise the image changes iff it is wider than the maximum, and then it is scaled by maximum/width |
| FrameProcessing.FlatImageFailsResize | backend/helpers/frame_processing.py:21-23 | a decodable 1281×1 image makes the resize raise, while a 1280×2 image shrinks to 640×1 |
| FrameProcessing.FitWidthBound | backend/helpers/frame_processing.py:21-23 | after a resize that succeeds no image is wider than a positive maximum; a scaled image is exactly the maximum wide, with a factor strictly between 0 and 1 |
| FrameProcessing.ProcessFrame | backend/helpers/frame_processing.py:7-28 | succeeds iff header strip, base64 decoding, image decoding and the resize all succeed, and then gives the decoded image fitted to the width; a header without a comma and a non-text payload raise, and a decoded image whose resize would be empty raises the resize error |
| FrameProcessing.PlainPayloadPassesThrough | backend/helpers/frame_processing.py:10-15 | a string that is not a data URL reaches the base64 decoder as it is |
| FrameProcessing.HeaderWithoutCommaRaises | backend/helpers/frame_processing.py:10-11 | a data URL without a comma raises instead of reaching a decoder |
| FrameProcessing.UndecodableBytesRejected | backend/helpers/frame_processing.py:13-18 | bytes the image decoder cannot read raise "Invalid image data" |
| AuthenticateSocket.FindBestMatch | backend/sockets/authenticate_socket.py:47-57 | the loop's result is the name and distance of the earliest user at the smallest distance (ties keep the first, by the strict `<`); it is "no users" for an empty store, and a failure when a distance cannot be computed or a user who becomes the best so far has no name |
| AuthenticateSocket.FirstMinimumUnique | backend/sockets/authenticate_socket.py:51-57 | at most one user is the first strict minimum |
| AuthenticateSocket.MatchOutcomeUnique | backend/sockets/authenticate_socket.py:47-57 | the loop's outcome is determined by the users, the probe and the distances |
| AuthenticateSocket.MatchReply | backend/sockets/authenticate_socket.py:60-70 | a failed loop gives "Processing failed", an empty store gives "Unknown", and a best match gives its name iff its distance is below 8, "Unknown" otherwise |
| AuthenticateSocket.NameRepliedIffClose | backend/sockets/authenticate_socket.py:47-65 | the reply is the first-minimum user's name iff that user's distance is below 8, and "Unknown" when it is not or when the store is empty |
| AuthenticateSocket.RecognizerSocket.constructor | backend/sockets/authenticate_socket.py:14-15 | the counter starts at 0 with MAX_CONCURRENT_PROCESSES (4) permits |
| AuthenticateSocket.RecognizerSocket.Authenticate | backend/sockets/authenticate_socket.py:17-72 | an invalid payload gives "Invalid data format" and no free permit gives "Server busy", both leaving the counter alone; otherwise the counter grows by one and nothing is emitted unless it is a multiple of FRAME_SKIP (3); then a missing image gives "Image is required" and an image gives the processing reply; the permit count after the call equals the count before |
| AuthenticateSocket.RecognizerSocket.Process | backend/sockets/authenticate_socket.py:38-70 | a timeout gives "Processing timeout", a frame error or a store that cannot be looped over gives "Processing failed", a falsy embedding gives "Face not detected", and otherwise the reply is the match reply of the loop's outcome |
| ApiRoutes.StoredLogs | backend/routes/api_routes.py:31-36 | the log list before appending: the stored list, or the empty list when the file is missing or holds something else |
| ApiRoutes.LogEntry | backend/routes/api_routes.py:23-27 | the entry has exactly the keys name, date and time |
| ApiRoutes.RecordLoginLog | backend/routes/api_routes.py:14-43 | a request missing the username, date or time, or with one of them empty, gets 400 and the log is untouched; otherwise the log becomes the stored list with exactly one entry appended, and the reply is 201; the user store is never touched |
| ApiRoutes.AppendedLogExtends | backend/routes/api_routes.py:38-39 | the appended log is one longer, keeps every earlier entry in place and ends with the new entry |
| ApiRoutes.Public | backend/routes/api_routes.py:53-56 | the record loses its `embedding` key and keeps every other key and value |
| ApiRoutes.GetAllUsers | backend/routes/api_routes.py:47-60 | 200 iff the store can be looped over and holds only records; then every user is listed, in order, without its embedding; otherwise 500 |
| ApiRoutes.GetLoginLogs | backend/routes/api_routes.py:64-84 | a missing or non-list log gives `[]`; no username, or an empty one, gives every entry; a username gives the entries whose name equals it, in stored order |
| ApiRoutes.UnknownNameHasNoLogs | backend/routes/api_routes.py:76-78 | querying a name that no entry has gives 200 with an empty list |
| ApiRoutes.FilteredLogsAreTheUsers | backend/routes/api_routes.py:76-78 | a user's query returns only that user's entries, each as often as stored, in stored order |
| ApiRoutes.RemoveNamed | backend/routes/api_routes.py:92-100 | the loop keeps the users whose name differs, in order, and its flag is set iff some user has the name; it raises iff an element is not a record |
| ApiRoutes.SurvivorsAreFiltered | backend/routes/api_routes.py:93-100 | what the loop keeps is the order-preserving filter of the users by "name differs" |
| ApiRoutes.Survivors | backend/routes/api_routes.py:93-100 | the users the delete keeps: never more than before, and none of them has the name |
| ApiRoutes.DeleteUserByAdmin | backend/routes/api_routes.py:88-109 | the reply is 200, 404 or 500. 404 iff the store can be looped over, holds only records and no user has the name, with "User not found". 200 iff it can be looped over, holds only records and some user has the name; then the survivors are written back. Every other case is 500 with "Failed to delete user" and the name. Only a 200 writes the store, and the log is never touched |
| ApiRoutes.DeleteRemovesEveryMatch | backend/routes/api_routes.py:95-100 | after a delete no user with the name is left, every other user is kept as often as before, and the order is unchanged |
| AuthRoutes.UserRecord | backend/routes/auth_routes.py:33 | the stored record has exactly a name and an embedding, and carries the given name |
| AuthRoutes.RegistrationFailed | backend/routes/auth_routes.py:39-40 | the failure reply is a 500 whose error starts with "Registration failed: " |
| AuthRoutes.RegisteredImage | backend/routes/auth_routes.py:18-25 | the image reaches the embedder iff it decodes and its resize is not empty, and then it is the decoded image fitted to 640 pixels |
| AuthRoutes.Register | backend/routes/auth_routes.py:10-40 | a missing name or image gives 400 and leaves the store as it was. Past that check, an image that does not decode or whose resize would be empty gives 500, an image without a face gives 400 "Face not detected", and a store that is not a list gives 500. Success (200) happens iff the image decodes, the shrunk image has an embedding and the store is a list; success appends exactly one `{name, embedding}` after the earlier records. Every 500 starts with "Registration failed: ", and only a 200 writes the store |
| AuthRoutes.RegisterAddsOneRecord | backend/routes/auth_routes.py:32-33 | names are not unique: registering a stored name adds one more record with it, and other names' counts are unchanged |
| AuthRoutes.RegisterOnEmptyStore | backend/routes/auth_routes.py:32-33 | a missing or unparsable store becomes a store holding only the new user |
| Sequences.Filter | backend/routes/api_routes.py:77 | the comprehension never gives more elements than it reads |
| Sequences.FilterKeepsExactly | backend/routes/api_routes.py:77 | the comprehension keeps only matching elements, keeps each matching element as often as the input has it, and keeps their order |
| Sequences.FilterAll | frontend/src/components/AdminDashboard.jsx:92 | a filter that keeps every element gives back the list unchanged |
| Sequences.FilterNone | backend/routes/api_routes.py:76-78 | a filter that keeps no element gives the empty list |
| Text.Split | backend/helpers/frame_processing.py:11 | `split` always gives at least one field |
| Text.SplitFieldsFree | backend/helpers/frame_processing.py:11 | no field of a split contains the separator |
| Text.JoinSplit | frontend/src/components/AdminDashboard.jsx:53 | joining the fields of a split with the same separator gives the text back |
| Text.SplitJoin | frontend/src/components/AdminDashboard.jsx:53 | splitting the join of separator-free fields gives the fields back |
| Text.SecondFieldExists | backend/helpers/frame_processing.py:11 | `split(c)[1]` exists iff the text contains `c` |
| Text.SecondField | backend/helpers/frame_processing.py:11 | `split(c)[1]` is the text after the first `c`, up to the next `c` |
| Text.ReverseInvolution | frontend/src/components/AdminDashboard.jsx:53 | reversing twice gives the sequence back |
| Sorting.SortBy | frontend/src/components/AdminDashboard.jsx:25 | the result is sorted by the key and is a permutation of the input |
| LogOrder.DateKey | frontend/src/components/AdminDashboard.jsx:53-54 | `split('-').reverse().join('-')`: the key's dash-separated fields are the date's fields in reverse order |
| LogOrder.DateKeyOfDayMonthYear | frontend/src/components/AdminDashboard.jsx:52-54 | the date key turns "DD-MM-YYYY" into "YYYY-MM-DD" |
| LogOrder.DateKeyInvolution | frontend/src/components/AdminDashboard.jsx:53 | applying the date key twice gives any date text back |
| LogOrder.Timestamp | frontend/src/components/AdminDashboard.jsx:53-54 | the instant of an entry is the parsed text of its date key, "T", and its time |
| LogOrder.TimestampOfDayMonthYear | frontend/src/components/AdminDashboard.jsx:52-54 | an entry dated "DD-MM-YYYY" at time t is the instant parsed from "YYYY-MM-DDTt" |
| LogOrder.NewestFirst | frontend/src/components/AdminDashboard.jsx:51-56 | the log is a permutation of the received entries, ordered by instant, newest first; the user dashboard uses the same comparator |
| Browser.GetItem | frontend/src/components/UserDashboard.jsx:16 | `localStorage.getItem`: the stored string iff the key is present |
| StreamingAuthentication.AppendToHistory | frontend/src/components/Faceauthenticate.jsx:84 | the new history is the last at most five previous images followed by the new one, so at most six, with the new one last |
| StreamingAuthentication.HistoryTracksSent | frontend/src/components/Faceauthenticate.jsx:84-85 | appending to the last six sent images gives the last six of the extended sent list, so the history always shows the most recent frames sent |
| StreamingAuthentication.StreamingAuthenticator.Dormant | frontend/src/components/Faceauthenticate.jsx:140 | with no interval running and `isConfidenceHigh` and loading both false, the button is disabled and there is no interval to tick. Every operation needs an enabled button or a running interval, so none can run |
| StreamingAuthentication.StreamingAuthenticator.constructor | frontend/src/components/Faceauthenticate.jsx:7-11 | the mounted component is dormant: `isConfidenceHigh` is false, no interval exists and the timer ids start at 0, so no session ever starts |
| StreamingAuthentication.StreamingAuthenticator.CanStart | frontend/src/components/Faceauthenticate.jsx:140 | the start button is enabled only after a confident frame and while no session is loading |
| StreamingAuthentication.StreamingAuthenticator.StartSession | frontend/src/components/Faceauthenticate.jsx:42-49 | a click on the enabled button sets loading and the "Authenticating in real time..." status, and starts one interval stamped with the current time |
| StreamingAuthentication.StreamingAuthenticator.Tick | frontend/src/components/Faceauthenticate.jsx:49-92 | past 5 s the tick clears its own interval, sets the "Frames sent" status and clears loading, and does nothing else. A missing screenshot sets the webcam error and the failure status and clears loading, but keeps the interval. With no webcam or no detection nothing changes. A detection shows its confidence; a frame is sent and added to the history iff the confidence is at least 90.00%, and `isConfidenceHigh` becomes exactly that test |
| StreamingAuthentication.StreamingAuthenticator.Expire | frontend/src/components/Faceauthenticate.jsx:50-55 | the cutoff removes exactly this tick's interval, sets the "Frames sent" status and clears loading; nothing else changes |
| StreamingAuthentication.StreamingAuthenticator.TakeFrame | frontend/src/components/Faceauthenticate.jsx:58-91 | a missing screenshot reports the capture failure; no detection changes nothing; a detection shows its confidence and sends the frame iff it is at least 90.00% |
| StreamingAuthentication.StreamingAuthenticator.Send | frontend/src/components/Faceauthenticate.jsx:84-85 | the frame is sent and added to the history, which stays the last six frames sent |
| FaceRegistration.IsHighConfidence | frontend/src/components/Faceregistor.jsx:44 | `score * 100 > 90`: a score is high iff it exceeds 0.9 strictly, so 0.9 itself is not |
| FaceRegistration.CanvasSide | frontend/src/components/Faceregistor.jsx:103-104 | a side assigned to a canvas becomes a whole number of pixels below 2^32; a non-negative side below 2^32 is truncated to the whole pixels it contains |
| FaceRegistration.CropOf | frontend/src/components/Faceregistor.jsx:103-116 | the crop draws the detected box at its own size, so it is copied unscaled |
| FaceRegistration.CropIsExactBox | frontend/src/components/Faceregistor.jsx:103-116 | the crop is the only drawing of the box that is unscaled, placed at the origin, onto a canvas whose sides are the box's sides truncated to whole pixels; there is no padding and no rescaling |
| FaceRegistration.WholeBoxFillsCanvas | frontend/src/components/Faceregistor.jsx:103-116 | a box with whole-pixel sides fills its canvas exactly |
| FaceRegistration.FractionalSideIsClipped | frontend/src/components/Faceregistor.jsx:103-116 | the canvas is never wider than the box; it is as wide iff the width is whole, and a fractional width leaves part of the drawn box outside the canvas |
| FaceRegistration.FractionalBoxExample | frontend/src/components/Faceregistor.jsx:103-116 | a 100.6 by 80.4 box gets a 100 by 80 canvas, which the drawn box overruns |
| FaceRegistration.RegistrationPage.constructor | frontend/src/components/Faceregistor.jsx:15-21 | nothing is detected or captured, the name is empty and the register button is disabled |
| FaceRegistration.RegistrationPage.DetectTick | frontend/src/components/Faceregistor.jsx:48-93 | after a capture, or with no video, the tick changes nothing, so at most one capture happens per mount. A confident face (score×100 > 90) sets detected, hides the no-face message and captures the crop of its box. A weak face changes nothing. No face clears detected |
| FaceRegistration.RegistrationPage.EditName | frontend/src/components/Faceregistor.jsx:212-214 | typing, possible only once a face is detected, sets the name and nothing else |
| FaceRegistration.RegistrationPage.RegisterClick | frontend/src/components/Faceregistor.jsx:122-141 | with an empty name there is an error toast and no request; otherwise loading is set and the captured crop is posted with the name |
| FaceRegistration.RegistrationPage.UploadSettled | frontend/src/components/Faceregistor.jsx:143-152 | loading is cleared on success and on failure; success marks the face registered and schedules navigation to "/" after 3000 ms; failure shows an error and schedules nothing |
| AdminDashboard.Toggled | frontend/src/components/AdminDashboard.jsx:73 | the toggle always changes the view |
| AdminDashboard.ToggleTwice | frontend/src/components/AdminDashboard.jsx:72-74 | toggling twice restores the view |
| AdminDashboard.ByName | frontend/src/components/AdminDashboard.jsx:25 | the users are a permutation of the reply, in ascending name order |
| AdminDashboard.WithoutUser | frontend/src/components/AdminDashboard.jsx:92 | the list never grows, and deleting a name no row has leaves it as it was |
| AdminDashboard.WithoutUserDropsExactlyTheName | frontend/src/components/AdminDashboard.jsx:92 | after a delete no row has the name, every other row is kept as often as before, and the order is kept |
| AdminDashboard.Dashboard.constructor | frontend/src/components/AdminDashboard.jsx:11-20 | the dashboard mounts in the users view with the user request sent and the users loading |
| AdminDashboard.Dashboard.UsersLoaded | frontend/src/components/AdminDashboard.jsx:21-35 | a reply gives the users ordered by name, a failure gives the empty list, and loading is cleared either way |
| AdminDashboard.Dashboard.ToggleView | frontend/src/components/AdminDashboard.jsx:41-74 | the view is toggled, and switching to the log view requests the log and sets its loading flag |
| AdminDashboard.Dashboard.LogsLoaded | frontend/src/components/AdminDashboard.jsx:46-65 | a reply gives the log newest first, a failure gives the empty list, and loading is cleared either way |
| AdminDashboard.Dashboard.DeleteUser | frontend/src/components/AdminDashboard.jsx:76-100 | a declined confirmation sends nothing; a confirmed delete sends the request; the list loses every row with the name iff the request succeeded and is unchanged otherwise |
| AdminDashboard.Dashboard.Logout | frontend/src/components/AdminDashboard.jsx:102-107 | removes `authenticatedUser` and `userRole` from storage, keeps every other key and navigates home |
| UserDashboard.Dashboard.constructor | frontend/src/components/UserDashboard.jsx:15-32 | with no stored user, or an empty one, it navigates home and requests nothing; otherwise it shows that user and requests the log filtered by that username |
| UserDashboard.Dashboard.LogsLoaded | frontend/src/components/UserDashboard.jsx:33-48 | a reply gives the history newest first, a failure gives the empty list, and loading is cleared either way |
| UserDashboard.Dashboard.Logout | frontend/src/components/UserDashboard.jsx:55-60 | removes both session keys, keeps every other key and navigates home |
| UserDashboard.Dashboard.DeleteAccountRequest | frontend/src/components/UserDashboard.jsx:62-66 | navigates to "/authenticate" carrying a delete intent for the current user |
| UserDashboard.LogoutThenRemount | frontend/src/components/UserDashboard.jsx:16-20 | after a logout, mounting the dashboard again navigates home and requests no history |
| LegacyRegistration.WithRegistration | Face_Recognition_frontend/Faceregistor.jsx:63-64 | the storage holds the name and the serialized descriptor under their keys and keeps every other key |
| LegacyRegistration.LastRegistrationWins | Face_Recognition_frontend/Faceregistor.jsx:63-64 | storage is one slot: a second registration leaves no trace of the first |
| LegacyRegistration.RegistrationPage.constructor | Face_Recognition_frontend/Faceregistor.jsx:6-9 | nothing is registered, loading or failed, and the name is empty |
| LegacyRegistration.RegistrationPage.EditName | Face_Recognition_frontend/Faceregistor.jsx:105 | typing sets the name and nothing else |
| LegacyRegistration.RegistrationPage.HandleRegister | Face_Recognition_frontend/Faceregistor.jsx:31-68 | a click needs the button enabled, so loading is clear. An empty name alerts and changes nothing else, not even loading. Past that check, no screenshot sets the webcam error and stores nothing. A rejected detection (image conversion or detector) ends the handler with loading still set, so the page stays disabled, with nothing stored and no alert. No face alerts and stores nothing. A face writes the name and descriptor and marks the page registered. Every exit past the name check except the rejection clears loading |
| LegacyAuthentication.RegisteredDescriptor | Face_Recognition_frontend/Faceauthenticate.jsx:52-55 | a missing key reads as a falsy value (`JSON.parse(null)` is null); otherwise it is what the stored text parses to: a descriptor, a falsy value, or a syntax error |
| LegacyAuthentication.AuthenticationPage.constructor | Face_Recognition_frontend/Faceauthenticate.jsx:6-8 | the status is empty, with no loading and no webcam error |
| LegacyAuthentication.AuthenticationPage.HandleAuthenticate | Face_Recognition_frontend/Faceauthenticate.jsx:28-71 | a click needs the button enabled, so loading is clear. Afterwards loading stays set, and the page disabled, iff the status is still "Authenticating...", which happens exactly when the handler ends in an exception: a rejected detection, a `JSON.parse` syntax error, or a distance that throws. No screenshot sets the webcam error and the capture failure, and a screenshot clears the error. No face gives "No face detected" and a falsy stored value gives "No registered face found". Otherwise authentication succeeds iff the distance is strictly below 0.6, and fails otherwise |
| LegacyAuthentication.RegisterThenAuthenticate | Face_Recognition_frontend/Faceauthenticate.jsx:52-64 | right after a registration, authentication succeeds iff the text just serialized parses to a descriptor whose distance to the probe is computable and below 0.6, whatever was stored before; a falsy parse gives "No registered face found"; when parsing reads back the registered descriptor itself, success is iff its distance to the probe is below 0.6 |

## Left out

- Floating point is modelled with `real`. NaN and infinities are not modelled, and neither is rounding in `toFixed`. The resize rounds only in its empty-size check. The scaled image stays symbolic, so its rounded sides are not modelled. The client's confidence enters as hundredths of a percent, already rounded.
- The face detector, the DeepFace embedder, base64 decoding, the image decoder, the Euclidean norm, `JSON.parse`/`JSON.stringify`, `Date` parsing and `localeCompare` are parameters. The collation is a rank of each name, and date parsing gives milliseconds. The resize is the symbolic `Scaled(image, factor)`.
- Concurrency is not modelled: the semaphore's blocking and threads, overlapping socket events, overlapping interval ticks, and async continuations interleaving with other events. Each event, tick or reply is one atomic step. The semaphore is an integer count of free permits.
- Timing is not modelled. The eventlet timeout is a per-call input saying whether the five-second limit was hit. `Date.now()` is a parameter of each tick. A `setTimeout` is recorded as a scheduled navigation and is not carried out.
- The socket and HTTP transports are not modelled: the echo-server mock, `emit`, axios and `fetch`. A step records the request it sends, and the reply arrives as an input of a later step.
- File I/O is not modelled. A file is its content: missing, unparsable or parsed JSON. `save_data` swallows write errors, so a write is an assignment.
- AuthenticateSocket.RecognizerSocket.Process: the text of an exception is not modelled; only the reply it leads to is.
- AuthRoutes.Register: the decoder's exception text is modelled as the fixed "image decoder error". The resize's text is OpenCV's assertion message without its version and file prefix.
- ApiRoutes.RecordLoginLog: a body that is not a JSON object raises before the handler's `try`; this is modelled as Flask's generic 500 reply. The handler's own "Failed to log login" 500 cannot happen once writes cannot fail.
- Sorting.SortBy: the stability of JavaScript's sort is not stated. Entries with equal keys may come out in any order.
- LogOrder.Timestamp: an unparsable date (`Invalid Date`, a NaN difference) is not modelled. The parser is total.
- `getScreenshot` on an unmounted webcam throws; that is not modelled. The new authenticator checks for it first, and its tick takes whether the webcam is mounted as an input.
- LegacyAuthentication.RegisterThenAuthenticate: the model does not assume that parsing gives back the descriptor that was serialized. face-api.js descriptors are `Float32Array`s, which `JSON.stringify` writes as an object keyed "0", "1", …, so `JSON.parse` gives a plain object rather than an array. What `faceapi.euclideanDistance` does with that object is library behaviour outside the model; it is the `distance` parameter, which may throw.
- AuthRoutes.Register: every stored number is named 'float' in the "object has no attribute 'append'" failure text. Python would say 'int' for a number written without a fraction, and the model's numbers do not keep that distinction.
- The delete intent the user dashboard passes to "/authenticate" is recorded in the route. The authentication page never reads it, so nothing acts on it.
- Canvas drawing, labels, styling, toasts' texts and alerts' texts are not modelled. Toasts and alerts are recorded as kinds. A crop records the canvas size and the `drawImage` rectangles, not the pixels. The limit of 2^31 − 1 on a canvas side is not modelled either.
- LegacyRegistration.RegistrationPage.HandleRegister and LegacyAuthentication.AuthenticationPage.HandleAuthenticate: the detector is opaque. Both pages hand the screenshot's data-URL string to `faceapi.bufferToImage`, which expects a `Blob`. The `DetectionRejected` outcome is therefore the one these pages reach in practice, and the model keeps the other outcomes only because the library is outside it.
- FaceRegistration.RegistrationPage.UploadSettled: a failure to turn the captured data URL into a file is folded into a failed upload.
- backend/model/Facenet.py is not part of this model. Its whole body is a string literal, and it is training code.
- The home pages, the particle background, the route tables and the Flask app wiring are not part of this model.
- The handlers of backend/routes/api_routes.py are modelled as callable, with a log file. As written, `api_bp` is never registered by backend/scripts/app.py, and the module imports `LOG_FILE`, which backend/config.py does not define. Importing that module would therefore raise, and the app as written would answer the dashboards' `/api/...` requests with 404.
- A data URL (section 3 of RFC 2397) may carry commas in its data part. Base64 payloads never do, and the model, like the code, keeps only the second comma-separated field.

Three behaviours of the code are worth stating plainly:

- The registration crop draws the detector's box at its own size, with no padding and no clamping to a square. The canvas truncates the box's fractional sides, so the last partial column and row are cut off.
- No socket event answers a delete request.
- Detection ticks have no reentrancy guard.
