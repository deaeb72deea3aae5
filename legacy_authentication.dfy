/** The first-generation authentication page: it takes one webcam
    screenshot, runs the face detector on it and compares the descriptor it
    finds with the one stored in local storage by registration; a Euclidean
    distance strictly below 0.6 authenticates. The screenshot, the detector,
    `JSON.parse` and the distance are inputs. */
module LegacyAuthentication {
  import opened Wrappers
  import Browser
  import opened LegacyRegistration

  const MATCH_THRESHOLD: real := 0.6

  predicate IsMatch(distance: real) {
    distance < MATCH_THRESHOLD
  }

  datatype Status =
    | Blank
    | Authenticating
    | CaptureFailed          // "❌ Failed to capture image. Please try again."
    | NoFace                 // "❌ No face detected. Please try again."
    | NoRegisteredFace       // "❌ No registered face found. Please register first."
    | AuthenticationSucceeded
    | AuthenticationFailed

  /** What `JSON.parse` makes of the stored text: a descriptor, a falsy value
      (`null` among them), or a `SyntaxError`. */
  datatype StoredRead = Registered(descriptor: Descriptor) | Falsy | SyntaxError

  /** `JSON.parse(localStorage.getItem("faceDescriptor"))`; a missing key reads
      as `null`, which parses to `null`. */
  function RegisteredDescriptor(entries: map<string, string>, parse: string -> StoredRead): (r: StoredRead)
    ensures DESCRIPTOR_KEY !in entries ==> r == Falsy
    ensures DESCRIPTOR_KEY in entries ==> r == parse(entries[DESCRIPTOR_KEY])
  {
    match Browser.GetItem(entries, DESCRIPTOR_KEY)
    case None => Falsy
    case Some(text) => parse(text)
  }

  class AuthenticationPage {
    var status: Status
    var loading: bool
    var webcamError: bool

    constructor ()
      ensures status == Blank && !loading && !webcamError
    {
      status := Blank;
      loading := false;
      webcamError := false;
    }

    /** `handleAuthenticate`, with the screenshot the webcam gives, what the
        detector makes of it, the parser of the stored text and
        `faceapi.euclideanDistance`, which is None where it throws. */
    method HandleAuthenticate(storage: Browser.LocalStorage, screenshot: Option<string>,
                              detection: Detection, parse: string -> StoredRead,
                              distance: (Descriptor, Descriptor) -> Option<real>)
      requires !loading  // the button is `disabled={loading}`
      modifies this
      // the button stays disabled exactly when the handler ends in an exception
      ensures loading <==> status == Authenticating
      ensures screenshot.None? ==> webcamError && status == CaptureFailed
      ensures screenshot.Some? ==> !webcamError
      ensures screenshot.Some? && detection.DetectionRejected? ==> status == Authenticating
      ensures screenshot.Some? && detection.NoFaceFound? ==> status == NoFace
      ensures screenshot.Some? && detection.FaceFound? ==>
        match RegisteredDescriptor(storage.entries, parse)
        case SyntaxError => status == Authenticating
        case Falsy => status == NoRegisteredFace
        case Registered(registered) =>
          match distance(registered, detection.descriptor)
          case None => status == Authenticating
          case Some(d) =>
            && (status == AuthenticationSucceeded <==> IsMatch(d))
            && (status == AuthenticationSucceeded || status == AuthenticationFailed)
    {
      loading := true;
      status := Authenticating;
      if screenshot.None? {
        webcamError := true;
        status := CaptureFailed;
        loading := false;
        return;
      }
      webcamError := false;
      if detection.DetectionRejected? {
        return;
      }
      if detection.NoFaceFound? {
        status := NoFace;
        loading := false;
        return;
      }
      var registered := RegisteredDescriptor(storage.entries, parse);
      if registered.SyntaxError? {
        return;
      }
      if registered.Falsy? {
        status := NoRegisteredFace;
        loading := false;
        return;
      }
      var d := distance(registered.descriptor, detection.descriptor);
      if d.None? {
        return;
      }
      if IsMatch(d.value) {
        status := AuthenticationSucceeded;
      } else {
        status := AuthenticationFailed;
      }
      loading := false;
    }
  }

  /** A successful registration followed by an authentication compares the
      probe against whatever parsing the text just serialized gives,
      whatever was stored before. */
  method RegisterThenAuthenticate(storage: Browser.LocalStorage, name: string, screenshot: string,
                                  registered: Descriptor, probe: Descriptor,
                                  stringify: Descriptor -> string, parse: string -> StoredRead,
                                  distance: (Descriptor, Descriptor) -> Option<real>)
    returns (page: AuthenticationPage)
    requires name != ""
    modifies storage
    ensures page.status == AuthenticationSucceeded <==>
      && parse(stringify(registered)).Registered?
      && distance(parse(stringify(registered)).descriptor, probe).Some?
      && IsMatch(distance(parse(stringify(registered)).descriptor, probe).value)
    ensures parse(stringify(registered)).Falsy? ==> page.status == NoRegisteredFace
    // where parsing reads back what serializing wrote, the registered descriptor itself is compared
    ensures parse(stringify(registered)) == Registered(registered) && distance(registered, probe).Some? ==>
      (page.status == AuthenticationSucceeded <==> IsMatch(distance(registered, probe).value))
  {
    var registration := new RegistrationPage();
    registration.EditName(name);
    registration.HandleRegister(storage, Some(screenshot), FaceFound(registered), stringify);
    page := new AuthenticationPage();
    page.HandleAuthenticate(storage, Some(screenshot), FaceFound(probe), parse, distance);
  }
}
