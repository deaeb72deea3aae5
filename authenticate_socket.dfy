/** The `authenticate` Socket.IO handler of the recogniser: validate the
    payload, take a processing permit, count the call and let only every
    FRAME_SKIP-th one through, then decode the frame, compute its embedding and
    reply with the nearest stored user if it is close enough. The semaphore
    is an integer permit count; embedding and distance computations are
    functions supplied by the caller; the timeout is an input per call. */
module AuthenticateSocket {
  import opened Wrappers
  import opened JsonModel
  import opened DataStorage
  import opened FrameProcessing

  const MAX_CONCURRENT_PROCESSES: nat := 4
  const FRAME_SKIP: nat := 3
  /** A stored user matches when its distance to the probe is below this. */
  const MATCH_THRESHOLD: real := 8.0

  /** The library computations the handler relies on. */
  datatype Recognition = Recognition(
    codec: Codec,
    embed: Image -> Option<seq<real>>,           // DeepFace; None when it finds no face
    distance: (Json, seq<real>) -> Option<real>)  // numpy norm; None when it raises

  /** The outcome of the best-match loop that did not raise: an empty store,
      or the name of the best user and its distance. */
  datatype Match = NoUsers | Best(name: Json, distance: real)

  /** The distance of one stored user to the probe; None when reading its
      `embedding` or computing the norm raises. */
  function Score(user: Json, probe: seq<real>, distance: (Json, seq<real>) -> Option<real>): Option<real> {
    if user.JObj? && EmbeddingKey() in user.fields then distance(user.fields[EmbeddingKey()], probe) else None
  }

  function EmbeddingKey(): string { "embedding" }

  /** The first `n` users all have a distance. */
  predicate ScoredUpTo(users: seq<Json>, n: nat, probe: seq<real>, distance: (Json, seq<real>) -> Option<real>)
    requires n <= |users|
  {
    forall j :: 0 <= j < n ==> Score(users[j], probe, distance).Some?
  }

  /** User `k` is strictly closer than every user before it: the loop's
      strict `<` makes it the current best when it is reached. */
  predicate SetsRecord(users: seq<Json>, k: int, probe: seq<real>, distance: (Json, seq<real>) -> Option<real>) {
    && 0 <= k < |users|
    && ScoredUpTo(users, k + 1, probe, distance)
    && forall j :: 0 <= j < k ==>
         Score(users[k], probe, distance).value < Score(users[j], probe, distance).value
  }

  /** User `k` has the smallest distance, and no earlier user has it. */
  predicate IsFirstMinimum(users: seq<Json>, k: int, probe: seq<real>, distance: (Json, seq<real>) -> Option<real>) {
    && SetsRecord(users, k, probe, distance)
    && ScoredUpTo(users, |users|, probe, distance)
    && forall j :: 0 <= j < |users| ==>
         Score(users[k], probe, distance).value <= Score(users[j], probe, distance).value
  }

  /** What the loop of `authenticate` produces, stated without the loop: it
      raises when some user has no distance or when a user that becomes the
      current best has no `name`; otherwise it yields the name and distance
      of the first minimum, or nothing for an empty store. */
  ghost predicate IsMatchOutcome(users: seq<Json>, probe: seq<real>, distance: (Json, seq<real>) -> Option<real>,
                           m: Option<Match>)
  {
    if !ScoredUpTo(users, |users|, probe, distance)
       || exists k :: SetsRecord(users, k, probe, distance) && "name" !in users[k].fields
    then m == None
    else if |users| == 0 then m == Some(NoUsers)
    else
      && m.Some? && m.value.Best?
      && exists k :: IsFirstMinimum(users, k, probe, distance)
           && m.value.name == users[k].fields["name"]
           && m.value.distance == Score(users[k], probe, distance).value
  }

  /** The best-match loop of `authenticate`. */
  method FindBestMatch(users: seq<Json>, probe: seq<real>, distance: (Json, seq<real>) -> Option<real>)
    returns (m: Option<Match>)
    ensures IsMatchOutcome(users, probe, distance, m)
  {
    var bestMatch: Json := JNull;
    var minSimilarity: Option<real> := None;  // None stands for float('inf')
    ghost var best := 0;
    var i := 0;
    while i < |users|
      invariant 0 <= i <= |users|
      invariant ScoredUpTo(users, i, probe, distance)
      invariant forall k :: 0 <= k < i && SetsRecord(users, k, probe, distance) ==> "name" in users[k].fields
      invariant minSimilarity.None? <==> i == 0
      invariant i > 0 ==>
        && 0 <= best < i
        && SetsRecord(users, best, probe, distance)
        && "name" in users[best].fields
        && bestMatch == users[best].fields["name"]
        && minSimilarity == Score(users[best], probe, distance)
        && forall j :: 0 <= j < i ==>
             Score(users[best], probe, distance).value <= Score(users[j], probe, distance).value
    {
      var user := users[i];
      var similarity := Score(user, probe, distance);
      if similarity.None? {
        return None;
      }
      if minSimilarity.None? || similarity.value < minSimilarity.value {
        if "name" !in user.fields {
          assert SetsRecord(users, i, probe, distance);
          return None;
        }
        minSimilarity := similarity;
        bestMatch := user.fields["name"];
        best := i;
      } else {
        assert !SetsRecord(users, i, probe, distance);
      }
      i := i + 1;
    }
    if minSimilarity.None? {
      return Some(NoUsers);
    }
    assert IsFirstMinimum(users, best, probe, distance);
    return Some(Best(bestMatch, minSimilarity.value));
  }

  /** At most one user is the first minimum. */
  lemma FirstMinimumUnique(users: seq<Json>, k1: int, k2: int, probe: seq<real>,
                           distance: (Json, seq<real>) -> Option<real>)
    requires IsFirstMinimum(users, k1, probe, distance)
    requires IsFirstMinimum(users, k2, probe, distance)
    ensures k1 == k2
  {
    var d1, d2 := Score(users[k1], probe, distance).value, Score(users[k2], probe, distance).value;
    assert d1 <= d2 && d2 <= d1;
  }

  /** The outcome of the loop is determined by the users, the probe and the distances. */
  lemma MatchOutcomeUnique(users: seq<Json>, probe: seq<real>, distance: (Json, seq<real>) -> Option<real>,
                           m1: Option<Match>, m2: Option<Match>)
    requires IsMatchOutcome(users, probe, distance, m1)
    requires IsMatchOutcome(users, probe, distance, m2)
    ensures m1 == m2
  {
    if m1.Some? && m1.value.Best? && m2.Some? && m2.value.Best? {
      var k1 :| IsFirstMinimum(users, k1, probe, distance)
           && m1.value.name == users[k1].fields["name"]
           && m1.value.distance == Score(users[k1], probe, distance).value;
      var k2 :| IsFirstMinimum(users, k2, probe, distance)
           && m2.value.name == users[k2].fields["name"]
           && m2.value.distance == Score(users[k2], probe, distance).value;
      FirstMinimumUnique(users, k1, k2, probe, distance);
    }
  }

  function InvalidDataFormat(): Json { Message("error", "Invalid data format") }
  function ServerBusy(): Json { Message("error", "Server busy, please try again") }
  function ImageRequired(): Json { Message("error", "Image is required") }
  function FaceNotDetected(): Json { Message("error", "Face not detected") }
  function ProcessingTimeout(): Json { Message("error", "Processing timeout") }
  function ProcessingFailed(): Json { Message("error", "Processing failed") }
  function Unknown(): Json { JObj(map["name" := JStr("Unknown")]) }

  /** The reply for the outcome of the loop. */
  function MatchReply(m: Option<Match>): (reply: Json)
    ensures m.None? ==> reply == ProcessingFailed()
    ensures m == Some(NoUsers) ==> reply == Unknown()
    ensures m.Some? && m.value.Best? ==>
      reply == if m.value.distance < MATCH_THRESHOLD then JObj(map["name" := m.value.name]) else Unknown()
  {
    match m
    case None => ProcessingFailed()
    case Some(NoUsers) => Unknown()
    case Some(Best(name, d)) => if d < MATCH_THRESHOLD then JObj(map["name" := name]) else Unknown()
  }

  /** The reply names the first stored user at the smallest distance when that
      distance is below the threshold, and is "Unknown" when it is not or
      when no user is stored. */
  lemma NameRepliedIffClose(users: seq<Json>, probe: seq<real>, distance: (Json, seq<real>) -> Option<real>,
                            m: Option<Match>)
    requires IsMatchOutcome(users, probe, distance, m)
    requires m.Some?
    ensures |users| == 0 ==> MatchReply(m) == Unknown()
    ensures |users| > 0 ==> exists k :: IsFirstMinimum(users, k, probe, distance)
    ensures forall k :: IsFirstMinimum(users, k, probe, distance) ==>
      MatchReply(m) ==
        if Score(users[k], probe, distance).value < MATCH_THRESHOLD
        then JObj(map["name" := users[k].fields["name"]])
        else Unknown()
  {
    if m.value.Best? {
      var b :| IsFirstMinimum(users, b, probe, distance)
           && m.value.name == users[b].fields["name"]
           && m.value.distance == Score(users[b], probe, distance).value;
      forall k | IsFirstMinimum(users, k, probe, distance)
        ensures k == b
      {
        FirstMinimumUnique(users, k, b, probe, distance);
      }
    }
  }

  /** A payload `authenticate` accepts: a non-empty dict (`not data` rejects `{}`). */
  predicate IsValidPayload(data: Json) {
    data.JObj? && data.fields != map[]
  }

  /** The reply to an accepted, counted call whose payload has an image:
      what the code under the timeout produces. */
  ghost predicate IsProcessingReply(image: Json, users: FileContent, env: Recognition, timedOut: bool, reply: Json) {
    if timedOut then reply == ProcessingTimeout()
    else
      match ProcessFrame(image, MAX_FRAME_WIDTH, env.codec)
      case Err(_) => reply == ProcessingFailed()
      case Ok(img) =>
        var embedding := env.embed(img);
        if embedding.None? || embedding.value == [] then reply == FaceNotDetected()
        else
          match ListItems(LoadData(users))
          case None => reply == ProcessingFailed()
          case Some(items) =>
            exists m :: IsMatchOutcome(items, embedding.value, env.distance, m) && reply == MatchReply(m)
  }

  /** The module-level state of the handler: the frame counter and the semaphore. */
  class RecognizerSocket {
    var frameCounter: nat
    var permits: nat
    /** The number of calls that passed the frame-skip check. */
    ghost var processed: nat

    ghost predicate Valid()
      reads this
    {
      permits <= MAX_CONCURRENT_PROCESSES && processed == frameCounter / FRAME_SKIP
    }

    constructor ()
      ensures Valid()
      ensures frameCounter == 0 && permits == MAX_CONCURRENT_PROCESSES && processed == 0
    {
      frameCounter := 0;
      permits := MAX_CONCURRENT_PROCESSES;
      processed := 0;
    }

    /** One `authenticate` event; `None` when nothing is emitted. */
    method Authenticate(data: Json, users: FileContent, env: Recognition, timedOut: bool)
      returns (reply: Option<Json>)
      requires Valid()
      modifies this
      ensures Valid()
      ensures permits == old(permits)
      ensures !IsValidPayload(data) ==>
        reply == Some(InvalidDataFormat()) && frameCounter == old(frameCounter)
      ensures IsValidPayload(data) && old(permits) == 0 ==>
        reply == Some(ServerBusy()) && frameCounter == old(frameCounter)
      ensures IsValidPayload(data) && old(permits) > 0 ==> frameCounter == old(frameCounter) + 1
      ensures IsValidPayload(data) && old(permits) > 0 ==>
        (reply.None? <==> frameCounter % FRAME_SKIP != 0)
      // exactly the frames that get a reply past the busy check are processed
      ensures processed == old(processed) + (if IsValidPayload(data) && old(permits) > 0 && reply.Some? then 1 else 0)
      ensures IsValidPayload(data) && old(permits) > 0 && frameCounter % FRAME_SKIP == 0 ==>
        && (!Truthy(Get(data.fields, "image")) ==> reply == Some(ImageRequired()))
        && (Truthy(Get(data.fields, "image")) ==>
              reply.Some? && IsProcessingReply(data.fields["image"], users, env, timedOut, reply.value))
    {
      if !IsValidPayload(data) {
        return Some(InvalidDataFormat());
      }
      if permits == 0 {
        return Some(ServerBusy());
      }
      permits := permits - 1;  // acquire
      frameCounter := frameCounter + 1;
      if frameCounter % FRAME_SKIP != 0 {
        reply := None;
      } else {
        processed := processed + 1;
        var imageData := Get(data.fields, "image");
        if !Truthy(imageData) {
          reply := Some(ImageRequired());
        } else {
          var r := Process(imageData, users, env, timedOut);
          reply := Some(r);
        }
      }
      permits := permits + 1;  // release, in `finally`
    }

    /** The code under the timeout and its exception handlers. */
    method Process(image: Json, users: FileContent, env: Recognition, timedOut: bool) returns (reply: Json)
      ensures IsProcessingReply(image, users, env, timedOut, reply)
    {
      if timedOut {
        return ProcessingTimeout();
      }
      var frame := ProcessFrame(image, MAX_FRAME_WIDTH, env.codec);
      if frame.Err? {
        return ProcessingFailed();
      }
      var embedding := env.embed(frame.value);
      if embedding.None? || embedding.value == [] {
        return FaceNotDetected();
      }
      var items := ListItems(LoadData(users));
      if items.None? {
        return ProcessingFailed();
      }
      var m := FindBestMatch(items.value, embedding.value, env.distance);
      reply := MatchReply(m);
    }
  }
}
