/**
 * Sequences of calls into the capturer, as the embedding process makes
 * them: `Start`, `SelectSource` and `CaptureFrame`, each with the events
 * pending at the time of the call and, for a capture, what the display
 * server would answer if asked to recreate the surface.
 */
module CapturerRuns {
  import opened Wrappers
  import opened WindowCapturer

  datatype Call =
    | StartCall(sink: SinkId)
    | SelectCall(pending: seq<Event>, id: SourceId)
    | CaptureCall(pending: seq<Event>, reply: ServerReply)

  /** The final state and, one entry per capture call in order, the result
      delivered and whether that capture recreated the surface. */
  datatype Trace = Trace(final: Capturer, results: seq<CaptureResult>, recreated: seq<bool>)

  /** The number of capture calls in `calls`. */
  function Captures(calls: seq<Call>): nat {
    if |calls| == 0 then 0
    else (if calls[0].CaptureCall? then 1 else 0) + Captures(calls[1..])
  }

  /** The server replies offered to the capture calls, in order. */
  function CaptureReplies(calls: seq<Call>): (replies: seq<ServerReply>)
    ensures |replies| == Captures(calls)
  {
    if |calls| == 0 then []
    else if calls[0].CaptureCall? then [calls[0].reply] + CaptureReplies(calls[1..])
    else CaptureReplies(calls[1..])
  }

  /** `CaptureFrame` reads `callback_`, which is uninitialised until `Start`;
      `SelectSource` does not read it. So either a sink is already recorded
      (`hasSink`) or no capture comes before the first `Start`. */
  predicate StartsBeforeCapture(hasSink: bool, calls: seq<Call>)
    decreases |calls|
  {
    hasSink || |calls| == 0 || (!calls[0].CaptureCall? && StartsBeforeCapture(calls[0].StartCall?, calls[1..]))
  }

  /** Runs `calls` from `s`. */
  function Run(s: Capturer, calls: seq<Call>): (t: Trace)
    requires StartsBeforeCapture(s.sink.Some?, calls)
    decreases |calls|
    ensures s.sink.Some? ==> t.final.sink.Some?
    ensures |t.results| == |t.recreated| == Captures(calls)
  {
    if |calls| == 0 then Trace(s, [], [])
    else
      match calls[0]
      case StartCall(sink) =>
        Run(Start(s, sink), calls[1..])
      case SelectCall(pending, id) =>
        Run(SelectSource(s, pending, id).next, calls[1..])
      case CaptureCall(pending, reply) =>
        var c := CaptureFrame(s, pending, reply);
        var rest := Run(c.next, calls[1..]);
        Trace(rest.final, [c.result] + rest.results, [c.recreated] + rest.recreated)
  }

  /** No call in `calls` selects a source. */
  predicate NoSelect(calls: seq<Call>) {
    forall i :: 0 <= i < |calls| ==> !calls[i].SelectCall?
  }

  /** The invariant holds after any run that starts in a good state: the
      live surface is exactly the one `pixmap_` names, so the capturer never
      holds more than one. */
  lemma {:induction false} RunKeepsGood(s: Capturer, calls: seq<Call>)
    requires StartsBeforeCapture(s.sink.Some?, calls) && Good(s)
    decreases |calls|
    ensures Good(Run(s, calls).final)
    ensures Run(s, calls).final.live == PixmapSet(Run(s, calls).final.pixmap)
    ensures |Run(s, calls).final.live| <= 1
  {
    if |calls| == 0 {
      GoodHoldsAtMostOneSurface(s);
    } else {
      match calls[0]
      case StartCall(sink) =>
        GoodPreserved(s, [], 0, sink, ServerReply(1, 0, 0));
        RunKeepsGood(Start(s, sink), calls[1..]);
      case SelectCall(pending, id) =>
        GoodPreserved(s, pending, id, 0, ServerReply(1, 0, 0));
        RunKeepsGood(SelectSource(s, pending, id).next, calls[1..]);
      case CaptureCall(pending, reply) =>
        GoodPreserved(s, pending, 0, 0, reply);
        RunKeepsGood(CaptureFrame(s, pending, reply).next, calls[1..]);
    }
  }

  /** Capture `j` recreated the surface and no capture after it, up to and
      including `i`, did. */
  predicate LastRecreationUpTo(recreated: seq<bool>, j: int, i: int)
    requires i < |recreated|
  {
    0 <= j <= i && recreated[j] && forall k :: j < k <= i ==> !recreated[k]
  }

  /** The reply in force at capture `i`: that of the last capture at or
      before `i` that recreated the surface, or `before` when none did. */
  function InForce(before: Option<ServerReply>, replies: seq<ServerReply>, recreated: seq<bool>, i: nat)
    : (r: Option<ServerReply>)
    requires i < |replies| == |recreated|
    decreases i
    ensures recreated[i] ==> r == Some(replies[i])
    ensures (forall j :: 0 <= j <= i ==> !recreated[j]) ==> r == before
    ensures forall j :: LastRecreationUpTo(recreated, j, i) ==> r == Some(replies[j])
  {
    var now := if recreated[0] then Some(replies[0]) else before;
    if i == 0 then now
    else
      var r := InForce(now, replies[1..], recreated[1..], i - 1);
      assert forall j :: LastRecreationUpTo(recreated, j, i) ==> r == Some(replies[j]) by {
        forall j | LastRecreationUpTo(recreated, j, i) ensures r == Some(replies[j]) {
          if j == 0 {
            forall k | 0 <= k <= i - 1 ensures !recreated[1..][k] {
              assert recreated[1..][k] == recreated[k + 1];
            }
          } else {
            assert replies[1..][j - 1] == replies[j];
            assert LastRecreationUpTo(recreated[1..], j - 1, i - 1) by {
              assert recreated[1..][j - 1] == recreated[j];
              forall k | j - 1 < k <= i - 1 ensures !recreated[1..][k] {
                assert recreated[1..][k] == recreated[k + 1];
              }
            }
          }
        }
      }
      assert recreated[1..][i - 1] == recreated[i];
      assert (forall j :: 0 <= j <= i ==> !recreated[j]) ==> (forall j :: 0 <= j <= i - 1 ==> !recreated[1..][j]) by {
        if forall j :: 0 <= j <= i ==> !recreated[j] {
          forall j | 0 <= j <= i - 1 ensures !recreated[1..][j] {
            assert recreated[1..][j] == recreated[j + 1];
          }
        }
      }
      r
  }

  /** `before` describes the state's recorded size: if the state holds a
      surface, `before` is the reply that created it. */
  predicate SizedBy(s: Capturer, before: Option<ServerReply>) {
    s.pixmap.Some? ==> before.Some? && s.width == before.value.width && s.height == before.value.height
  }

  /** Capture `i` of trace `t`, if successful, has the geometry of the reply
      in force at that capture. */
  predicate SizedAt(before: Option<ServerReply>, replies: seq<ServerReply>, t: Trace, i: nat)
    requires i < |t.results| == |t.recreated| == |replies|
  {
    t.results[i].Success? ==>
      var r := InForce(before, replies, t.recreated, i);
      r.Some? && t.results[i].frame == Frame(r.value.width, r.value.height)
  }

  /** Every successful frame of trace `t` has the geometry of the reply in
      force at that capture. */
  predicate AllSized(before: Option<ServerReply>, replies: seq<ServerReply>, t: Trace)
    requires |t.results| == |t.recreated| == |replies|
  {
    forall i :: 0 <= i < |t.results| ==> SizedAt(before, replies, t, i)
  }

  /** Every successful frame of a run has the geometry of the reply in force
      at that capture. */
  lemma {:induction false} FramesSizedByLastRecreation(s: Capturer, before: Option<ServerReply>, calls: seq<Call>)
    requires StartsBeforeCapture(s.sink.Some?, calls) && Good(s) && SizedBy(s, before)
    decreases |calls|
    ensures AllSized(before, CaptureReplies(calls), Run(s, calls))
  {
    if |calls| > 0 {
      match calls[0]
      case StartCall(sink) =>
        GoodPreserved(s, [], 0, sink, ServerReply(1, 0, 0));
        FramesSizedByLastRecreation(Start(s, sink), before, calls[1..]);
      case SelectCall(pending, id) =>
        GoodPreserved(s, pending, id, 0, ServerReply(1, 0, 0));
        FramesSizedByLastRecreation(SelectSource(s, pending, id).next, before, calls[1..]);
      case CaptureCall(pending, reply) =>
        var c := CaptureFrame(s, pending, reply);
        var now := if c.recreated then Some(reply) else before;
        GoodPreserved(s, pending, 0, 0, reply);
        SuccessHasSurface(s, pending, reply);
        FramesSizedByLastRecreation(c.next, now, calls[1..]);
        var t := Run(s, calls);
        var rest := Run(c.next, calls[1..]);
        var replies := CaptureReplies(calls);
        assert replies == [reply] + CaptureReplies(calls[1..]);
        assert t.results == [c.result] + rest.results;
        assert t.recreated == [c.recreated] + rest.recreated;
        forall i | 0 <= i < |t.results| ensures SizedAt(before, replies, t, i) {
          if i > 0 {
            assert SizedAt(now, CaptureReplies(calls[1..]), rest, i - 1);
            assert replies[1..] == CaptureReplies(calls[1..]);
            assert t.recreated[1..] == rest.recreated;
            assert t.results[i] == rest.results[i - 1];
            assert InForce(before, replies, t.recreated, i) == InForce(now, replies[1..], t.recreated[1..], i - 1);
          } else {
            assert t.results[0] == c.result && t.recreated[0] == c.recreated && replies[0] == reply;
            assert InForce(before, replies, t.recreated, 0) == now;
          }
        }
    }
  }

  /** From a freshly constructed capturer, every successful frame has the
      geometry the server reported at the most recent recreating capture, and
      such a capture always exists: as long as every recreation obtains its
      geometry, no frame is sized by the uninitialised `width_` and `height_`. */
  lemma FramesComeFromRecreation(width: U32, height: U32, calls: seq<Call>)
    requires StartsBeforeCapture(false, calls)
    ensures var t := Run(Initial(width, height), calls);
      var replies := CaptureReplies(calls);
      forall i :: 0 <= i < |t.results| && t.results[i].Success? ==>
        && InForce(None, replies, t.recreated, i).Some?
        && t.results[i].frame == Frame(InForce(None, replies, t.recreated, i).value.width,
                                       InForce(None, replies, t.recreated, i).value.height)
  {
    var t := Run(Initial(width, height), calls);
    FramesSizedByLastRecreation(Initial(width, height), None, calls);
    var replies := CaptureReplies(calls);
    forall i | 0 <= i < |t.results| && t.results[i].Success?
      ensures && InForce(None, replies, t.recreated, i).Some?
              && t.results[i].frame == Frame(InForce(None, replies, t.recreated, i).value.width,
                                             InForce(None, replies, t.recreated, i).value.height)
    {
      assert SizedAt(None, replies, t, i);
    }
  }

  /** Once there is no source, every capture is a permanent error and no
      surface is created or freed, until a `SelectSource` call. */
  lemma {:induction false} NoSourcePersists(s: Capturer, calls: seq<Call>)
    requires StartsBeforeCapture(s.sink.Some?, calls) && s.window == NoWindow && NoSelect(calls)
    decreases |calls|
    ensures forall i :: 0 <= i < |Run(s, calls).results| ==> Run(s, calls).results[i] == ErrorPermanent
    ensures Run(s, calls).final.window == NoWindow
    ensures Run(s, calls).final.live == s.live
  {
    if |calls| > 0 {
      assert !calls[0].SelectCall?;
      assert NoSelect(calls[1..]) by {
        forall i | 0 <= i < |calls[1..]| ensures !calls[1..][i].SelectCall? {
          assert calls[1..][i] == calls[i + 1];
        }
      }
      match calls[0]
      case StartCall(sink) =>
        NoSourcePersists(Start(s, sink), calls[1..]);
      case CaptureCall(pending, reply) =>
        var c := CaptureFrame(s, pending, reply);
        NoSourcePersists(c.next, calls[1..]);
    }
  }

  /** A capture that sees the selected window destroyed, and every capture
      after it up to the next `SelectSource`, delivers a permanent error. */
  lemma DestroyedSourceStaysGone(s: Capturer, pending: seq<Event>, reply: ServerReply, calls: seq<Call>)
    requires s.sink.Some? && Mentions(pending, s.window, DestroyNotify) && NoSelect(calls)
    ensures StartsBeforeCapture(true, [CaptureCall(pending, reply)] + calls)
    ensures var t := Run(s, [CaptureCall(pending, reply)] + calls);
      forall i :: 0 <= i < |t.results| ==> t.results[i] == ErrorPermanent
  {
    var all := [CaptureCall(pending, reply)] + calls;
    assert all[0] == CaptureCall(pending, reply);
    assert all[1..] == calls;
    var c := CaptureFrame(s, pending, reply);
    DestroyThenCaptureFails(s, pending, reply);
    NoSourcePersists(c.next, calls);
  }

  /** Without a `SelectSource` call a freshly constructed capturer only ever
      reports permanent errors. */
  lemma NeverSelectedNeverSucceeds(width: U32, height: U32, calls: seq<Call>)
    requires StartsBeforeCapture(false, calls) && NoSelect(calls)
    ensures var t := Run(Initial(width, height), calls);
      forall i :: 0 <= i < |t.results| ==> t.results[i] == ErrorPermanent
  {
    NoSourcePersists(Initial(width, height), calls);
  }
}
