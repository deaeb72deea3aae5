/** The first-generation registration page: it takes one webcam screenshot,
    runs the face detector on it and keeps the name and the serialized face
    descriptor in local storage, in one slot that each registration
    overwrites. The screenshot, the detector and `JSON.stringify` are inputs. */
module LegacyRegistration {
  import opened Wrappers
  import Browser

  /** A face-api.js face descriptor. */
  type Descriptor = seq<real>

  /** The storage keys of the single registration slot. */
  const NAME_KEY: string := "name"
  const DESCRIPTOR_KEY: string := "faceDescriptor"

  datatype Alert = EnterNameFirst | NoFaceDetected

  /** How `faceapi.bufferToImage` followed by `detectSingleFace` with landmarks
      and descriptor settles: a face and its descriptor, no face, or a
      rejected promise, which ends the handler with an exception. */
  datatype Detection = FaceFound(descriptor: Descriptor) | NoFaceFound | DetectionRejected

  /** The slot as a registration leaves it. */
  function WithRegistration(entries: map<string, string>, name: string, serialized: string): (r: map<string, string>)
    ensures r.Keys == entries.Keys + {NAME_KEY, DESCRIPTOR_KEY}
    ensures forall k :: k in entries && k != NAME_KEY && k != DESCRIPTOR_KEY ==> r[k] == entries[k]
    ensures Browser.GetItem(r, NAME_KEY) == Some(name)
    ensures Browser.GetItem(r, DESCRIPTOR_KEY) == Some(serialized)
  {
    entries[NAME_KEY := name][DESCRIPTOR_KEY := serialized]
  }

  /** One slot: a second registration leaves no trace of the first. */
  lemma LastRegistrationWins(entries: map<string, string>, first: string, firstSerialized: string,
                             second: string, secondSerialized: string)
    ensures WithRegistration(WithRegistration(entries, first, firstSerialized), second, secondSerialized)
         == WithRegistration(entries, second, secondSerialized)
  {
  }

  class RegistrationPage {
    var name: string
    var isFaceRegistered: bool
    var loading: bool
    var webcamError: bool
    var alerts: seq<Alert>

    constructor ()
      ensures name == "" && !isFaceRegistered && !loading && !webcamError && alerts == []
    {
      name := "";
      isFaceRegistered := false;
      loading := false;
      webcamError := false;
      alerts := [];
    }

    method EditName(text: string)
      modifies this
      ensures name == text
      ensures isFaceRegistered == old(isFaceRegistered) && loading == old(loading)
      ensures webcamError == old(webcamError) && alerts == old(alerts)
    {
      name := text;
    }

    /** `handleRegister`, with the screenshot the webcam gives, what the
        detector makes of it, and the serializer. */
    method HandleRegister(storage: Browser.LocalStorage, screenshot: Option<string>,
                          detection: Detection, stringify: Descriptor -> string)
      requires !loading  // the button is `disabled={loading}`
      modifies this, storage
      ensures name == old(name)
      // no name: an alert and nothing else
      ensures old(name) == "" ==>
        && alerts == old(alerts) + [EnterNameFirst]
        && loading == old(loading) && webcamError == old(webcamError)
        && isFaceRegistered == old(isFaceRegistered) && storage.entries == old(storage.entries)
      // past the name check every exit clears `loading`, except a rejected
      // detection, which leaves the button disabled
      ensures old(name) != "" ==> (loading <==> screenshot.Some? && detection.DetectionRejected?)
      ensures old(name) != "" && screenshot.None? ==>
        && webcamError && alerts == old(alerts)
        && isFaceRegistered == old(isFaceRegistered) && storage.entries == old(storage.entries)
      ensures old(name) != "" && screenshot.Some? && detection.DetectionRejected? ==>
        && !webcamError && alerts == old(alerts)
        && isFaceRegistered == old(isFaceRegistered) && storage.entries == old(storage.entries)
      ensures old(name) != "" && screenshot.Some? && detection.NoFaceFound? ==>
        && !webcamError && alerts == old(alerts) + [NoFaceDetected]
        && isFaceRegistered == old(isFaceRegistered) && storage.entries == old(storage.entries)
      ensures old(name) != "" && screenshot.Some? && detection.FaceFound? ==>
        && !webcamError && alerts == old(alerts) && isFaceRegistered
        && storage.entries == WithRegistration(old(storage.entries), old(name), stringify(detection.descriptor))
    {
      if name == "" {
        alerts := alerts + [EnterNameFirst];
        return;
      }
      loading := true;
      if screenshot.None? {
        webcamError := true;
        loading := false;
        return;
      }
      webcamError := false;
      if detection.DetectionRejected? {
        return;
      }
      if detection.NoFaceFound? {
        alerts := alerts + [NoFaceDetected];
        loading := false;
        return;
      }
      storage.entries := storage.entries[NAME_KEY := name];
      storage.entries := storage.entries[DESCRIPTOR_KEY := stringify(detection.descriptor)];
      isFaceRegistered := true;
      loading := false;
    }
  }
}
