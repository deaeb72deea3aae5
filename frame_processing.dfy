/** `process_frame` of the recogniser back end: strip a data-URL header
    (section 3 of RFC 2397), base64-decode, image-decode and shrink the image
    to a maximum width. Base64 decoding (section 4 of RFC 4648) and the image
    decoder are library calls and enter the model as the functions of a
    `Codec`; the resize is kept symbolic, apart from the size check OpenCV
    makes before it. */
module FrameProcessing {
  import opened Wrappers
  import opened JsonModel
  import Text

  /** The default of the `max_frame_width` parameter, equal to MAX_FRAME_WIDTH. */
  const MAX_FRAME_WIDTH: nat := 640
  const DATA_IMAGE_PREFIX: string := "data:image"

  type Bytes = seq<bv8>

  /** A decoded raster, or the result of scaling one by a factor on both axes. */
  datatype Image =
    | Raster(width: nat, height: nat, pixels: Bytes)
    | Scaled(source: Image, factor: real)

  /** An image as the decoder produces it, before any resize. */
  type RasterImage = img: Image | img.Raster? witness Raster(0, 0, [])

  /** What the image decoder does with a buffer: produce an image, return
      no image (undecodable bytes), or raise (an empty buffer). */
  datatype DecodeOutcome = Decoded(image: RasterImage) | NoImage | DecoderRaised

  datatype Codec = Codec(
    b64decode: string -> Option<Bytes>,   // None: the bytes are not valid base64
    imdecode: Bytes -> DecodeOutcome)

  /** The exception `process_frame` lets escape. */
  datatype FrameError =
    | NoPayload         // `split(',')[1]` on a header without a comma: IndexError
    | NotText           // base64 decoding of a value that is not a string: TypeError
    | BadBase64         // binascii.Error
    | DecoderFailure    // raised by the image decoder
    | InvalidImageData  // ValueError("Invalid image data")
    | ResizeFailed      // cv2.error: the resized image would have no rows or no columns

  /** The width of an image in pixels, before the resize rounds it. */
  function Width(img: Image): real {
    match img
    case Raster(w, _, _) => w as real
    case Scaled(src, f) => Width(src) * f
  }

  predicate IsDataUrl(data: Json) {
    data.JStr? && Text.StartsWith(data.s, DATA_IMAGE_PREFIX)
  }

  /** Header stripping: a `data:image...` string is replaced by its second
      comma-separated field; anything else is passed on unchanged. */
  function StripHeader(data: Json): (r: Result<Json, FrameError>)
    ensures !IsDataUrl(data) ==> r == Ok(data)
    ensures IsDataUrl(data) ==> (r.Ok? <==> ',' in data.s)
    ensures IsDataUrl(data) && r.Ok? ==>
      r.value == JStr(Text.TakeUntil(data.s[Text.IndexOf(data.s, ',') + 1..], ','))
    ensures r.Err? ==> r.error == NoPayload
  {
    if IsDataUrl(data) then
      var parts := Text.Split(data.s, ',');
      Text.SecondFieldExists(data.s, ',');
      if |parts| < 2 then Err(NoPayload)
      else
        Text.SecondField(data.s, ',');
        Ok(JStr(parts[1]))
    else Ok(data)
  }

  /** `cv2.resize(image, (0, 0), fx=scale, fy=scale)` rounds each scaled side
      to the nearest integer, a half going to the even neighbour, and raises
      when a side comes out 0. Scaling by `maxWidth / width` makes the width
      `maxWidth` and the height `height * maxWidth / width`, which rounds to 0
      exactly when it is at most one half: a very wide, very flat image. */
  predicate ResizeEmpties(img: Image, maxWidth: nat)
    requires img.Raster?
  {
    img.width > maxWidth && 2 * img.height * maxWidth <= img.width
  }

  /** The integer test is the scaled height rounding to nothing. */
  lemma ResizeEmptiesIffFlat(img: Image, maxWidth: nat)
    requires img.Raster?
    ensures ResizeEmpties(img, maxWidth) <==>
      img.width > maxWidth && img.height as real * (maxWidth as real / img.width as real) <= 0.5
  {
    if img.width > maxWidth {
      var w := img.width as real;
      var h := img.height as real;
      var m := maxWidth as real;
      assert h * (m / w) == (h * m) / w;
      assert (h * m) / w <= 0.5 <==> h * m <= 0.5 * w;
      assert (2 * img.height * maxWidth) as real == 2.0 * (h * m);
    }
  }

  /** The resize rule: an image wider than `maxWidth` is scaled by
      `maxWidth / width` on both axes, any other image is kept as it is; the
      resize fails when the scaled image would be empty. */
  function FitWidth(img: Image, maxWidth: nat): (r: Result<Image, FrameError>)
    requires img.Raster?
    ensures r.Err? <==> ResizeEmpties(img, maxWidth)
    ensures r.Err? ==> r.error == ResizeFailed
    ensures r.Ok? ==> (r.value != img <==> img.width > maxWidth)
    ensures img.width <= maxWidth ==> r == Ok(img)
    ensures img.width > maxWidth && !ResizeEmpties(img, maxWidth) ==>
      r == Ok(Scaled(img, maxWidth as real / img.width as real))
  {
    if img.width <= maxWidth then Ok(img)
    else if ResizeEmpties(img, maxWidth) then Err(ResizeFailed)
    else Ok(Scaled(img, maxWidth as real / img.width as real))
  }

  /** After the resize no image is wider than a positive maximum, and a
      scaled image is exactly as wide as the maximum. */
  lemma FitWidthBound(img: Image, maxWidth: nat)
    requires img.Raster? && maxWidth > 0
    ensures FitWidth(img, maxWidth).Ok? ==> Width(FitWidth(img, maxWidth).value) <= maxWidth as real
    ensures FitWidth(img, maxWidth).Ok? && img.width > maxWidth ==>
      Width(FitWidth(img, maxWidth).value) == maxWidth as real
      && 0.0 < FitWidth(img, maxWidth).value.factor < 1.0
  {
    if img.width > maxWidth && !ResizeEmpties(img, maxWidth) {
      var w := img.width as real;
      var m := maxWidth as real;
      assert Width(FitWidth(img, maxWidth).value) == w * (m / w);
      assert w * (m / w) == m;
    }
  }

  /** A 1281x1 image is wider than 640, and its height 640/1281 rounds to 0. */
  lemma FlatImageFailsResize(pixels: Bytes)
    ensures FitWidth(Raster(1281, 1, pixels), MAX_FRAME_WIDTH) == Err(ResizeFailed)
    ensures FitWidth(Raster(1280, 2, pixels), MAX_FRAME_WIDTH).Ok?
  {
  }

  /** `process_frame(image_data, max_frame_width)`. */
  function ProcessFrame(data: Json, maxWidth: nat, codec: Codec): (r: Result<Image, FrameError>)
    ensures StripHeader(data).Err? ==> r == Err(NoPayload)
    ensures StripHeader(data).Ok? && !StripHeader(data).value.JStr? ==> r == Err(NotText)
    ensures r.Ok? <==>
      && StripHeader(data).Ok?
      && StripHeader(data).value.JStr?
      && codec.b64decode(StripHeader(data).value.s).Some?
      && codec.imdecode(codec.b64decode(StripHeader(data).value.s).value).Decoded?
      && !ResizeEmpties(codec.imdecode(codec.b64decode(StripHeader(data).value.s).value).image, maxWidth)
    ensures r.Ok? ==>
      var img := codec.imdecode(codec.b64decode(StripHeader(data).value.s).value).image;
      r == FitWidth(img, maxWidth)
    ensures r.Err? && StripHeader(data).Ok? && StripHeader(data).value.JStr? &&
            codec.b64decode(StripHeader(data).value.s).Some? &&
            codec.imdecode(codec.b64decode(StripHeader(data).value.s).value).Decoded? ==>
      r.error == ResizeFailed
  {
    match StripHeader(data)
    case Err(e) => Err(e)
    case Ok(payload) =>
      if !payload.JStr? then Err(NotText)
      else
        match codec.b64decode(payload.s)
        case None => Err(BadBase64)
        case Some(bytes) =>
          match codec.imdecode(bytes)
          case DecoderRaised => Err(DecoderFailure)
          case NoImage => Err(InvalidImageData)
          case Decoded(img) => FitWidth(img, maxWidth)
  }

  /** A string that is not a data URL reaches the base64 decoder unchanged. */
  lemma PlainPayloadPassesThrough(s: string, maxWidth: nat, codec: Codec)
    requires !Text.StartsWith(s, DATA_IMAGE_PREFIX)
    ensures codec.b64decode(s).None? ==> ProcessFrame(JStr(s), maxWidth, codec) == Err(BadBase64)
    ensures codec.b64decode(s).Some? && codec.imdecode(codec.b64decode(s).value).Decoded? ==>
      ProcessFrame(JStr(s), maxWidth, codec) == FitWidth(codec.imdecode(codec.b64decode(s).value).image, maxWidth)
  {
  }

  /** A data URL without a comma raises instead of reaching the decoder. */
  lemma HeaderWithoutCommaRaises(s: string, maxWidth: nat, codec: Codec)
    requires Text.StartsWith(s, DATA_IMAGE_PREFIX) && ',' !in s
    ensures ProcessFrame(JStr(s), maxWidth, codec) == Err(NoPayload)
  {
  }

  /** Undecodable bytes raise "Invalid image data". */
  lemma UndecodableBytesRejected(payload: string, maxWidth: nat, codec: Codec)
    requires !Text.StartsWith(payload, DATA_IMAGE_PREFIX)
    requires codec.b64decode(payload).Some? && codec.imdecode(codec.b64decode(payload).value) == NoImage
    ensures ProcessFrame(JStr(payload), maxWidth, codec) == Err(InvalidImageData)
  {
  }
}
