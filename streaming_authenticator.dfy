/** The real-time authentication component of the client: a button starts a
    session that, once a second for five seconds, takes a webcam screenshot,
    runs the face detector and, when the detection confidence (rounded to two
    decimals) is at least 90%, sends the screenshot over the socket and adds
    it to a short history of sent images. The detector and the clock are
    inputs of each tick; each running interval is a timer with its start time. */
module StreamingAuthentication {
  import opened Wrappers

  /** `confidence >= 90` on `(score * 100).toFixed(2)`, in hundredths of a percent. */
  const CONFIDENCE_THRESHOLD: int := 9000
  /** `elapsedTime > 5` seconds, in milliseconds. */
  const SESSION_LIMIT_MS: int := 5000
  /** `prev.slice(-5)`: previous images kept when one is added. */
  const HISTORY_KEPT: nat := 5

  datatype Status =
    | Blank                          // ""
    | Authenticating                 // "Authenticating in real time..."
    | FramesSent                     // "✅ Frames sent for authentication!"
    | CaptureFailed                  // "❌ Webcam capture failed!"
    | ConfidenceLevel(hundredths: int)  // "Confidence Level: <c>%"

  /** One running `setInterval`: its handle and the `startTime` its callback closes over. */
  datatype Timer = Timer(id: nat, startMs: int)

  predicate IsConfident(hundredths: int) {
    hundredths >= CONFIDENCE_THRESHOLD
  }

  /** The last `n` elements of `s`, or all of them when there are fewer: `s.slice(-n)` for n > 0. */
  function LastN<T>(s: seq<T>, n: nat): (r: seq<T>)
    ensures |r| == if |s| < n then |s| else n
  {
    if |s| <= n then s else s[|s| - n..]
  }

  /** `[...prev.slice(-5), shot]`. */
  function AppendToHistory(prev: seq<string>, shot: string): (r: seq<string>)
    ensures 1 <= |r| <= HISTORY_KEPT + 1
    ensures r[|r| - 1] == shot
    ensures r[..|r| - 1] == LastN(prev, HISTORY_KEPT)
  {
    LastN(prev, HISTORY_KEPT) + [shot]
  }

  /** The history always shows the most recent sent screenshots, the newest
      last, at most six of them: adding to the last six sent gives the last
      six of the extended list. */
  lemma {:induction false} HistoryTracksSent(sent: seq<string>, shot: string)
    ensures AppendToHistory(LastN(sent, HISTORY_KEPT + 1), shot) == LastN(sent + [shot], HISTORY_KEPT + 1)
  {
    var s2 := sent + [shot];
    var h := LastN(sent, HISTORY_KEPT + 1);
    if |sent| <= HISTORY_KEPT {
      assert h == sent;
      assert LastN(h, HISTORY_KEPT) == sent;
      assert LastN(s2, HISTORY_KEPT + 1) == s2;
    } else {
      assert LastN(h, HISTORY_KEPT) == sent[|sent| - HISTORY_KEPT..];
      assert LastN(s2, HISTORY_KEPT + 1) == s2[|s2| - (HISTORY_KEPT + 1)..];
      assert s2[|s2| - (HISTORY_KEPT + 1)..] == sent[|sent| - HISTORY_KEPT..] + [shot];
    }
  }

  class StreamingAuthenticator {
    var isConfidenceHigh: bool
    var status: Status
    var loading: bool
    var webcamError: bool
    var capturedImages: seq<string>
    /** Every screenshot handed to `socket.send`, oldest first. */
    var sent: seq<string>
    /** The intervals that have not been cleared. */
    var timers: seq<Timer>
    var nextTimerId: nat

    ghost predicate Valid()
      reads this
    {
      capturedImages == LastN(sent, HISTORY_KEPT + 1)
    }

    /** The button's `disabled={!isConfidenceHigh || loading}`, negated. */
    predicate CanStart()
      reads this
      ensures CanStart() ==> isConfidenceHigh && !loading
    {
      isConfidenceHigh && !loading
    }

    /** No interval is running and the button is disabled. Every operation
        needs either an enabled button (a click) or a running interval (a
        tick), so nothing can happen in this state. */
    ghost predicate Dormant()
      reads this
      ensures Dormant() ==> !CanStart() && |timers| == 0
    {
      !isConfidenceHigh && !loading && timers == []
    }

    /** The mounted component. `isConfidenceHigh` starts false and only a tick
        of a running session sets it, so the button stays disabled and the
        component is dormant: no session ever starts. */
    constructor ()
      ensures Valid() && Dormant()
      ensures !isConfidenceHigh && status == Blank && !loading && !webcamError
      ensures capturedImages == [] && sent == [] && timers == [] && nextTimerId == 0
      ensures !CanStart()
    {
      isConfidenceHigh := false;
      status := Blank;
      loading := false;
      webcamError := false;
      capturedImages := [];
      sent := [];
      timers := [];
      nextTimerId := 0;
    }

    /** `captureAndSendFrames`: a click on the enabled button. */
    method StartSession(now: int)
      requires Valid() && CanStart()
      modifies this
      ensures Valid()
      ensures loading && status == Authenticating
      ensures timers == old(timers) + [Timer(old(nextTimerId), now)]
      ensures isConfidenceHigh == old(isConfidenceHigh) && webcamError == old(webcamError)
      ensures capturedImages == old(capturedImages) && sent == old(sent)
    {
      loading := true;
      status := Authenticating;
      timers := timers + [Timer(nextTimerId, now)];
      nextTimerId := nextTimerId + 1;
    }

    /** One run of the interval callback of timer `t` at time `now`, with the
        screenshot the webcam gives (if the webcam is mounted) and the
        detector's confidence in hundredths of a percent (None: no face). */
    method Tick(t: nat, now: int, webcamMounted: bool, screenshot: Option<string>, confidence: Option<int>)
      requires Valid() && t < |timers|
      modifies this
      ensures Valid()
      ensures nextTimerId == old(nextTimerId)
      // past five seconds: clear this interval and stop, touching nothing else
      ensures now - old(timers[t]).startMs > SESSION_LIMIT_MS ==>
        && timers == old(timers[..t] + timers[t + 1..])
        && status == FramesSent && !loading
        && isConfidenceHigh == old(isConfidenceHigh) && webcamError == old(webcamError)
        && capturedImages == old(capturedImages) && sent == old(sent)
      ensures now - old(timers[t]).startMs <= SESSION_LIMIT_MS ==> timers == old(timers)
      // no webcam, or no detection: nothing changes
      ensures now - old(timers[t]).startMs <= SESSION_LIMIT_MS &&
              (!webcamMounted || (screenshot.Some? && confidence.None?)) ==>
        && status == old(status) && loading == old(loading)
        && isConfidenceHigh == old(isConfidenceHigh) && webcamError == old(webcamError)
        && capturedImages == old(capturedImages) && sent == old(sent)
      // no screenshot: report it, but the interval keeps running
      ensures now - old(timers[t]).startMs <= SESSION_LIMIT_MS && webcamMounted && screenshot.None? ==>
        && webcamError && status == CaptureFailed && !loading
        && isConfidenceHigh == old(isConfidenceHigh)
        && capturedImages == old(capturedImages) && sent == old(sent)
      // a detection: show the confidence; send and record the frame iff it is high enough
      ensures now - old(timers[t]).startMs <= SESSION_LIMIT_MS && webcamMounted &&
              screenshot.Some? && confidence.Some? ==>
        && status == ConfidenceLevel(confidence.value)
        && loading == old(loading) && webcamError == old(webcamError)
        && isConfidenceHigh == IsConfident(confidence.value)
        && sent == (if IsConfident(confidence.value) then old(sent) + [screenshot.value] else old(sent))
        && capturedImages ==
             (if IsConfident(confidence.value) then AppendToHistory(old(capturedImages), screenshot.value)
              else old(capturedImages))
    {
      if now - timers[t].startMs > SESSION_LIMIT_MS {
        Expire(t);
      } else if webcamMounted {
        TakeFrame(screenshot, confidence);
      }
    }

    /** The five-second cutoff of a tick: `clearInterval` and the final status. */
    method Expire(t: nat)
      requires Valid() && t < |timers|
      modifies this
      ensures Valid()
      ensures timers == old(timers[..t] + timers[t + 1..]) && nextTimerId == old(nextTimerId)
      ensures status == FramesSent && !loading
      ensures isConfidenceHigh == old(isConfidenceHigh) && webcamError == old(webcamError)
      ensures capturedImages == old(capturedImages) && sent == old(sent)
    {
      timers := timers[..t] + timers[t + 1..];
      status := FramesSent;
      loading := false;
    }

    /** A tick within the session with the webcam mounted: screenshot, detection, send. */
    method TakeFrame(screenshot: Option<string>, confidence: Option<int>)
      requires Valid() && |timers| > 0
      modifies this
      ensures Valid()
      ensures timers == old(timers) && nextTimerId == old(nextTimerId)
      ensures screenshot.None? ==>
        && webcamError && status == CaptureFailed && !loading
        && isConfidenceHigh == old(isConfidenceHigh)
        && capturedImages == old(capturedImages) && sent == old(sent)
      ensures screenshot.Some? && confidence.None? ==>
        && status == old(status) && loading == old(loading)
        && isConfidenceHigh == old(isConfidenceHigh) && webcamError == old(webcamError)
        && capturedImages == old(capturedImages) && sent == old(sent)
      ensures screenshot.Some? && confidence.Some? ==>
        && status == ConfidenceLevel(confidence.value)
        && loading == old(loading) && webcamError == old(webcamError)
        && isConfidenceHigh == IsConfident(confidence.value)
        && sent == (if IsConfident(confidence.value) then old(sent) + [screenshot.value] else old(sent))
        && capturedImages ==
             (if IsConfident(confidence.value) then AppendToHistory(old(capturedImages), screenshot.value)
              else old(capturedImages))
    {
      if screenshot.None? {
        webcamError := true;
        status := CaptureFailed;
        loading := false;
        return;
      }
      if confidence.Some? {
        var c := confidence.value;
        status := ConfidenceLevel(c);
        if IsConfident(c) {
          isConfidenceHigh := true;
          Send(screenshot.value);
        } else {
          isConfidenceHigh := false;
        }
      }
    }

    /** `setCapturedImages((prev) => [...prev.slice(-5), shot])` and `socket.send(shot)`. */
    method Send(shot: string)
      requires Valid() && |timers| > 0
      modifies this
      ensures Valid()
      ensures sent == old(sent) + [shot]
      ensures capturedImages == AppendToHistory(old(capturedImages), shot)
      ensures timers == old(timers) && nextTimerId == old(nextTimerId)
      ensures status == old(status) && loading == old(loading)
      ensures isConfidenceHigh == old(isConfidenceHigh) && webcamError == old(webcamError)
    {
      HistoryTracksSent(sent, shot);
      capturedImages := AppendToHistory(capturedImages, shot);
      sent := sent + [shot];
    }
  }
}
