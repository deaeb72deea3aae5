/** POST /register: decode the uploaded image, shrink it to the maximum
    frame width, compute its embedding and append `{name, embedding}` to the
    user store. */
module AuthRoutes {
  import opened Wrappers
  import opened JsonModel
  import opened DataStorage
  import opened FrameProcessing
  import opened ApiRoutes
  import Text

  /** An uploaded file of a multipart form. */
  datatype Upload = Upload(filename: string, bytes: Bytes)

  /** Werkzeug's `bool(file)`: a file part is false when its filename is empty. */
  predicate IsPresent(file: Option<Upload>) {
    file.Some? && file.value.filename != ""
  }

  /** The record `register` stores for a user. */
  function UserRecord(name: string, embedding: seq<real>): (u: Json)
    ensures u.JObj? && u.fields.Keys == {"name", EMBEDDING_KEY}
    ensures HasName(u, name)
  {
    JObj(map["name" := JStr(name), EMBEDDING_KEY := NumArray(embedding)])
  }

  /** Python's name of the type of a loaded JSON value, as its error messages print it. */
  function PyTypeName(v: Json): string {
    match v
    case JNull => "NoneType"
    case JBool(_) => "bool"
    case JNum(_) => "float"
    case JStr(_) => "str"
    case JArr(_) => "list"
    case JObj(_) => "dict"
  }

  const FAILURE_PREFIX: string := "Registration failed: "

  /** A 500 reply whose error text starts with "Registration failed: ". */
  predicate IsRegistrationFailure(r: Response) {
    && r.status == 500 && r.body.JObj? && "error" in r.body.fields
    && r.body.fields["error"].JStr? && Text.StartsWith(r.body.fields["error"].s, FAILURE_PREFIX)
  }

  /** The 500 reply of the handler's `except`: the prefix and the exception text. */
  function RegistrationFailed(detail: string): (r: Response)
    ensures IsRegistrationFailure(r)
  {
    assert (FAILURE_PREFIX + detail)[..|FAILURE_PREFIX|] == FAILURE_PREFIX;
    Response(500, Message("error", FAILURE_PREFIX + detail))
  }

  /** The exception text of OpenCV's size check in `cv2.resize`, without the
      version and file prefix. */
  const RESIZE_ASSERTION: string := "(-215:Assertion failed) !dsize.empty() in function 'resize'"

  /** The image `register` hands to the embedder: decoded, then shrunk to
      MAX_FRAME_WIDTH; None when decoding or the resize raises. */
  function RegisteredImage(upload: Upload, imdecode: Bytes -> DecodeOutcome): (r: Option<Image>)
    ensures r.Some? <==>
      imdecode(upload.bytes).Decoded? && !ResizeEmpties(imdecode(upload.bytes).image, MAX_FRAME_WIDTH)
    ensures r.Some? ==> Ok(r.value) == FitWidth(imdecode(upload.bytes).image, MAX_FRAME_WIDTH)
  {
    match imdecode(upload.bytes)
    case Decoded(img) =>
      (match FitWidth(img, MAX_FRAME_WIDTH)
       case Ok(small) => Some(small)
       case Err(_) => None)
    case _ => None
  }

  method Register(files: DataFiles, name: Option<string>, image: Option<Upload>,
                  imdecode: Bytes -> DecodeOutcome, embed: Image -> Option<seq<real>>)
    returns (resp: Response)
    modifies files
    ensures files.logs == old(files.logs)
    ensures resp.status != 200 ==> files.users == old(files.users)
    ensures name.None? || name.value == "" || !IsPresent(image) ==>
      resp == Response(400, Message("error", "Name and image are required"))
    ensures resp.status == 200 <==>
      && name.Some? && name.value != "" && IsPresent(image)
      && RegisteredImage(image.value, imdecode).Some?
      && embed(RegisteredImage(image.value, imdecode).value).Some?
      && LoadData(old(files.users)).JArr?
    ensures resp.status == 200 ==>
      && resp == Response(200, Message("message", "User registered successfully"))
      && files.users == Parsed(JArr(LoadData(old(files.users)).items +
           [UserRecord(name.value, embed(RegisteredImage(image.value, imdecode).value).value)]))
    ensures resp.status == 500 ==> IsRegistrationFailure(resp)
    // past the argument check: an undecodable upload is a 500, no face a 400,
    // and a store that is not a list a 500
    ensures name.Some? && name.value != "" && IsPresent(image) ==>
      && (RegisteredImage(image.value, imdecode).None? ==> resp.status == 500)
      && (RegisteredImage(image.value, imdecode).Some? ==>
            var embedding := embed(RegisteredImage(image.value, imdecode).value);
            && (embedding.None? ==> resp == Response(400, Message("error", "Face not detected")))
            && (embedding.Some? && !LoadData(old(files.users)).JArr? ==> resp.status == 500))
  {
    if name.None? || name.value == "" || !IsPresent(image) {
      return Response(400, Message("error", "Name and image are required"));
    }
    var decoded := imdecode(image.value.bytes);
    if decoded.NoImage? {
      // `image.shape` on None
      return RegistrationFailed("'NoneType' object has no attribute 'shape'");
    } else if decoded.DecoderRaised? {
      return RegistrationFailed("image decoder error");
    }
    var resized := FitWidth(decoded.image, MAX_FRAME_WIDTH);
    if resized.Err? {
      return RegistrationFailed(RESIZE_ASSERTION);
    }
    var embedding := embed(resized.value);
    if embedding.None? {
      return Response(400, Message("error", "Face not detected"));
    }
    var stored := LoadData(files.users);
    if !stored.JArr? {
      // `.append` on a loaded value that is not a list
      return RegistrationFailed("'" + PyTypeName(stored) + "' object has no attribute 'append'");
    }
    files.users := Parsed(JArr(stored.items + [UserRecord(name.value, embedding.value)]));
    resp := Response(200, Message("message", "User registered successfully"));
  }

  /** The number of stored records whose name is `name`. */
  function CountNamed(users: seq<Json>, name: string): nat
    decreases |users|
  {
    if |users| == 0 then 0
    else CountNamed(users[..|users| - 1], name) + (if HasName(users[|users| - 1], name) then 1 else 0)
  }

  /** Names are not unique: registering a name already stored adds one more
      record with it, and leaves the records of every other name as they were. */
  lemma RegisterAddsOneRecord(users: seq<Json>, name: string, embedding: seq<real>, other: string)
    requires other != name
    ensures CountNamed(users + [UserRecord(name, embedding)], name) == CountNamed(users, name) + 1
    ensures CountNamed(users + [UserRecord(name, embedding)], other) == CountNamed(users, other)
  {
    var u := users + [UserRecord(name, embedding)];
    assert u[..|u| - 1] == users;
  }

  /** A corrupt or absent user store is replaced by a store holding only the new user. */
  lemma RegisterOnEmptyStore(f: FileContent, name: string, embedding: seq<real>)
    requires !f.Parsed?
    ensures LoadData(f).items + [UserRecord(name, embedding)] == [UserRecord(name, embedding)]
  {
    assert LoadData(f).items == [];
  }
}
