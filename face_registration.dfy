/** The registration component of the client: a detector tick every 500 ms
    that, on the first confident detection, crops the face out of the video
    frame and keeps it; a name field and a register button that upload the
    crop with the name; a navigation home three seconds after success. The
    detector and the outcome of the upload are inputs of the steps. */
module FaceRegistration {
  import opened Wrappers

  /** `DETECTION_CONFIDENCE_THRESHOLD`, in percent. */
  const DETECTION_CONFIDENCE_THRESHOLD: real := 90.0
  const HOME_PATH: string := "/"
  /** The `setTimeout` delay before navigating home after success. */
  const NAVIGATION_DELAY_MS: nat := 3000

  /** `score * 100 > 90`: a face counts only strictly above a score of 0.9. */
  predicate IsHighConfidence(score: real)
    ensures IsHighConfidence(score) <==> score > 0.9
  {
    score * 100.0 > DETECTION_CONFIDENCE_THRESHOLD
  }

  /** The detector's bounding box, in video pixels. */
  datatype Box = Box(x: real, y: real, width: real, height: real)
  datatype Detection = Detection(score: real, box: Box)

  /** A `drawImage(video, sx, sy, sw, sh, dx, dy, dw, dh)` onto a fresh canvas
      of `canvasWidth` by `canvasHeight` whole pixels. */
  datatype Crop = Crop(source: Box, destination: Box, canvasWidth: nat, canvasHeight: nat)

  /** 2^32: canvas sides are WebIDL `unsigned long`s. */
  const UNSIGNED_LONG_MODULUS: int := 0x1_0000_0000

  /** The WebIDL conversion of a number assigned to `canvas.width` or
      `canvas.height`: truncate toward zero, then wrap modulo 2^32. */
  function CanvasSide(v: real): (n: nat)
    ensures n < UNSIGNED_LONG_MODULUS
    ensures 0.0 <= v < UNSIGNED_LONG_MODULUS as real ==> n as real <= v < n as real + 1.0
  {
    var truncated := if v >= 0.0 then v.Floor else -((-v).Floor);
    truncated % UNSIGNED_LONG_MODULUS
  }

  /** The destination covers the whole canvas and nothing beyond it. */
  predicate FillsCanvas(c: Crop) {
    c.destination == Box(0.0, 0.0, c.canvasWidth as real, c.canvasHeight as real)
  }

  /** Source pixels are copied one to one. */
  predicate Unscaled(c: Crop) {
    c.source.width == c.destination.width && c.source.height == c.destination.height
  }

  /** `handleCaptureFace`: a canvas sized by the box's sides, and the box drawn
      at the origin at its own size. */
  function CropOf(box: Box): (c: Crop)
    ensures c.source == box && Unscaled(c)
  {
    Crop(box, Box(0.0, 0.0, box.width, box.height), CanvasSide(box.width), CanvasSide(box.height))
  }

  /** The crop draws the box itself, neither padded nor moved nor rescaled:
      it is the only crop of the box that copies it unscaled to the origin of
      a canvas whose sides are the box's sides converted to whole pixels. */
  lemma {:induction false} CropIsExactBox(box: Box, c: Crop)
    ensures c == CropOf(box) <==>
      && c.source == box && Unscaled(c)
      && c.destination.x == 0.0 && c.destination.y == 0.0
      && c.canvasWidth == CanvasSide(box.width) && c.canvasHeight == CanvasSide(box.height)
  {
    if c.source == box && Unscaled(c) && c.destination.x == 0.0 && c.destination.y == 0.0 {
      assert c.destination == Box(0.0, 0.0, box.width, box.height);
    }
  }

  /** A box with whole-pixel sides fills its canvas exactly. */
  lemma WholeBoxFillsCanvas(box: Box, w: nat, h: nat)
    requires w < UNSIGNED_LONG_MODULUS && h < UNSIGNED_LONG_MODULUS
    requires box.width == w as real && box.height == h as real
    ensures FillsCanvas(CropOf(box))
  {
  }

  /** A fractional side is truncated: the canvas is narrower (or lower) than
      the drawn box, so the last partial column (or row) is clipped. */
  lemma FractionalSideIsClipped(box: Box)
    requires 0.0 <= box.width < UNSIGNED_LONG_MODULUS as real
    ensures CropOf(box).canvasWidth as real <= box.width
    ensures CropOf(box).canvasWidth as real == box.width <==> box.width == box.width.Floor as real
    ensures !FillsCanvas(CropOf(box)) || box.width == box.width.Floor as real
  {
  }

  /** A 100.6 by 80.4 box gets a 100 by 80 canvas. */
  lemma FractionalBoxExample(x: real, y: real)
    ensures var c := CropOf(Box(x, y, 100.6, 80.4));
      c.canvasWidth == 100 && c.canvasHeight == 80 && !FillsCanvas(c)
  {
    assert (100.6).Floor == 100;
    assert (80.4).Floor == 80;
  }

  datatype Toast = MissingInput | RegistrationSuccessful | UploadFailed

  /** A `setTimeout(() => navigate(path), delayMs)`. */
  datatype Scheduled = Scheduled(path: string, delayMs: nat)

  /** A POST to `/register` with the name and the cropped image. */
  datatype Upload = Upload(name: string, image: Crop)

  class RegistrationPage {
    var name: string
    var isFaceRegistered: bool
    var loading: bool
    var isFaceDetected: bool
    var capturedImage: Option<Crop>
    var isImageCaptured: bool
    var hideFaceNotDetectedMessage: bool
    var uploads: seq<Upload>
    var toasts: seq<Toast>
    var scheduled: seq<Scheduled>
    /** How many times `handleCaptureFace` has run. */
    ghost var captures: nat

    /** Detection, capture and the hidden message move together: the tick that
        first sees a confident face sets all of them and no later tick runs. */
    ghost predicate Valid()
      reads this
    {
      && isFaceDetected == isImageCaptured
      && hideFaceNotDetectedMessage == isImageCaptured
      && (isImageCaptured <==> capturedImage.Some?)
      && captures == (if isImageCaptured then 1 else 0)
      && (loading ==> |uploads| > 0)
    }

    /** The register button's `disabled={!isFaceDetected || loading}`, negated. */
    predicate CanRegister()
      reads this
    {
      isFaceDetected && !loading
    }

    constructor ()
      ensures Valid()
      ensures name == "" && !isFaceRegistered && !loading && !isFaceDetected
      ensures capturedImage == None && !isImageCaptured && !hideFaceNotDetectedMessage
      ensures uploads == [] && toasts == [] && scheduled == [] && captures == 0
      ensures !CanRegister()
    {
      name := "";
      isFaceRegistered := false;
      loading := false;
      isFaceDetected := false;
      capturedImage := None;
      isImageCaptured := false;
      hideFaceNotDetectedMessage := false;
      uploads := [];
      toasts := [];
      scheduled := [];
      captures := 0;
    }

    /** One run of `detectFace`, with whether the video is ready and what the detector found. */
    method DetectTick(videoReady: bool, detection: Option<Detection>)
      requires Valid()
      modifies this
      ensures Valid()
      ensures captures <= 1
      ensures name == old(name) && isFaceRegistered == old(isFaceRegistered) && loading == old(loading)
      ensures uploads == old(uploads) && toasts == old(toasts) && scheduled == old(scheduled)
      // once captured, or with no video, the tick does nothing
      ensures !videoReady || old(isImageCaptured) ==>
        && isFaceDetected == old(isFaceDetected) && capturedImage == old(capturedImage)
        && isImageCaptured == old(isImageCaptured) && captures == old(captures)
      // otherwise: a confident face is detected and captured
      ensures videoReady && !old(isImageCaptured) && detection.Some? && IsHighConfidence(detection.value.score) ==>
        && isFaceDetected && hideFaceNotDetectedMessage && isImageCaptured
        && capturedImage == Some(CropOf(detection.value.box))
      // a weak face changes nothing
      ensures videoReady && !old(isImageCaptured) && detection.Some? && !IsHighConfidence(detection.value.score) ==>
        && isFaceDetected == old(isFaceDetected) && capturedImage == old(capturedImage)
        && isImageCaptured == old(isImageCaptured)
      // no face clears the detected flag
      ensures videoReady && !old(isImageCaptured) && detection.None? ==>
        && !isFaceDetected && capturedImage == old(capturedImage) && isImageCaptured == old(isImageCaptured)
    {
      if !videoReady || isImageCaptured {
        return;
      }
      if detection.Some? {
        if IsHighConfidence(detection.value.score) {
          isFaceDetected := true;
          hideFaceNotDetectedMessage := true;
          if !isImageCaptured {
            capturedImage := Some(CropOf(detection.value.box));
            captures := captures + 1;
            isImageCaptured := true;
          }
        }
      } else {
        isFaceDetected := false;
      }
    }

    /** Typing in the name field, which is enabled only once a face is detected. */
    method EditName(text: string)
      requires Valid() && isFaceDetected && !isFaceRegistered
      modifies this
      ensures Valid()
      ensures name == text
      ensures isFaceRegistered == old(isFaceRegistered) && loading == old(loading)
      ensures isFaceDetected == old(isFaceDetected) && capturedImage == old(capturedImage)
      ensures isImageCaptured == old(isImageCaptured) && captures == old(captures)
      ensures uploads == old(uploads) && toasts == old(toasts) && scheduled == old(scheduled)
    {
      name := text;
    }

    /** `handleRegister` up to its first `await`: a click on the enabled button. */
    method RegisterClick()
      requires Valid() && CanRegister() && !isFaceRegistered
      modifies this
      ensures Valid()
      ensures name == old(name) && isFaceRegistered == old(isFaceRegistered)
      ensures isFaceDetected == old(isFaceDetected) && capturedImage == old(capturedImage)
      ensures isImageCaptured == old(isImageCaptured) && captures == old(captures)
      ensures scheduled == old(scheduled)
      // an empty name: an error toast and no request
      ensures old(name) == "" ==> !loading && uploads == old(uploads) && toasts == old(toasts) + [MissingInput]
      // otherwise: the crop is posted with the name and the page waits
      ensures old(name) != "" ==>
        && loading && toasts == old(toasts)
        && uploads == old(uploads) + [Upload(old(name), old(capturedImage).value)]
    {
      if name == "" || capturedImage.None? {
        toasts := toasts + [MissingInput];
        return;
      }
      loading := true;
      uploads := uploads + [Upload(name, capturedImage.value)];
    }

    /** The rest of `handleRegister`, once the upload has succeeded (`ok`) or thrown. */
    method UploadSettled(ok: bool)
      requires Valid() && loading
      modifies this
      ensures Valid()
      ensures !loading
      ensures name == old(name) && uploads == old(uploads)
      ensures isFaceDetected == old(isFaceDetected) && capturedImage == old(capturedImage)
      ensures isImageCaptured == old(isImageCaptured) && captures == old(captures)
      ensures ok ==>
        && isFaceRegistered
        && toasts == old(toasts) + [RegistrationSuccessful]
        && scheduled == old(scheduled) + [Scheduled(HOME_PATH, NAVIGATION_DELAY_MS)]
      ensures !ok ==>
        && isFaceRegistered == old(isFaceRegistered)
        && toasts == old(toasts) + [UploadFailed] && scheduled == old(scheduled)
    {
      if ok {
        isFaceRegistered := true;
        toasts := toasts + [RegistrationSuccessful];
        scheduled := scheduled + [Scheduled(HOME_PATH, NAVIGATION_DELAY_MS)];
      } else {
        toasts := toasts + [UploadFailed];
      }
      loading := false;
    }
  }
}
