/**
 * The replacement `WindowCapturer` of loader.cc as a transition system.
 *
 * The capturer's state is an immutable record: the selected window (X's
 * `None`, i.e. 0, when there is none), the staleness flag `update`, the
 * pixmap handle last obtained from the Composite extension, the width and
 * height recorded when that pixmap was created, and the result sink set by
 * `Start`. X and EGL handles are abstract tokens; what the display server
 * would answer is passed in (`ServerReply`), and the queue of pending X
 * events is an explicit sequence that each operation drains.
 *
 * `live` is the set of pixmaps (each with the EGL image made from it) that
 * the capturer has created on the server and not yet freed. It is the
 * resource accounting that `Release` acts on.
 */
module WindowCapturer {
  import opened Wrappers

  /** XIDs are held in an `unsigned long`, 64 bits wide on the targeted platform. */
  const XID_LIMIT: int := 0x1_0000_0000_0000_0000

  /** An X `Window`; 0 is X's `None`. */
  type WindowId = w: int | 0 <= w < XID_LIMIT

  /** The value `window_` holds when no source is selected. */
  const NoWindow: WindowId := 0

  /** webrtc's `SourceId`, an `intptr_t`. */
  type SourceId = i: int | -0x8000_0000_0000_0000 <= i < 0x8000_0000_0000_0000

  /** A pixmap handle as returned by `XCompositeNameWindowPixmap`: a non-zero XID. */
  type PixmapId = p: int | 0 < p < XID_LIMIT witness 1

  /** `unsigned int`, the type of `width_` and `height_`. */
  type U32 = x: int | 0 <= x < 0x1_0000_0000

  /** An opaque token standing for the `Callback*` passed to `Start`. */
  type SinkId = nat

  /** X protocol event type codes (X.h) that the capturer reacts to. */
  const VisibilityNotify: int := 15
  const DestroyNotify: int := 17
  const MapNotify: int := 19
  const ConfigureNotify: int := 22

  /** The event types that mark the surface stale without destroying the source. */
  predicate IsStaleningKind(kind: int) {
    kind == ConfigureNotify || kind == MapNotify || kind == VisibilityNotify
  }

  /** The part of an `XEvent` the capturer reads: `xany.window` and `type`. */
  datatype Event = Event(window: WindowId, kind: int)

  /** What the display server answers when the surface is recreated: a new
      composite pixmap for the window and that pixmap's geometry. */
  datatype ServerReply = ServerReply(pixmap: PixmapId, width: U32, height: U32)

  /** A captured frame: its pixel contents (read back by GL) are not modelled. */
  datatype Frame = Frame(width: U32, height: U32)

  /** What `CaptureFrame` hands to `OnCaptureResult`. */
  datatype CaptureResult = Success(frame: Frame) | ErrorPermanent

  datatype Capturer = Capturer(
    window: WindowId,
    update: bool,
    pixmap: Option<PixmapId>,
    live: set<PixmapId>,
    width: U32,
    height: U32,
    sink: Option<SinkId>)

  /** The state right after construction. `width_` and `height_` have no
      initializer in the source, so whatever they hold is a parameter. */
  function Initial(width: U32, height: U32): (s: Capturer)
    ensures s.window == NoWindow && !s.update
    ensures s.pixmap == None && s.live == {} && s.sink == None
  {
    Capturer(NoWindow, false, None, {}, width, height, None)
  }

  /** The surfaces a pixmap slot refers to. */
  function PixmapSet(p: Option<PixmapId>): set<PixmapId> {
    match p
    case Some(x) => {x}
    case None => {}
  }

  /** The state invariant: the live surfaces are exactly the one `pixmap_`
      names (outside the destructor, `Release` is always followed at once by
      a new pixmap), and a selected window whose surface is not stale has a
      surface. How the recorded size relates to the surface is stated by
      `SizedBy` over call sequences. */
  predicate Good(s: Capturer) {
    && s.live == PixmapSet(s.pixmap)
    && (s.window != NoWindow && !s.update ==> s.pixmap.Some?)
  }

  /** `Start`: remembers the sink that will receive capture results. */
  function Start(s: Capturer, sink: SinkId): (t: Capturer)
    ensures t.sink == Some(sink)
    ensures t.(sink := s.sink) == s
  {
    s.(sink := Some(sink))
  }

  /** One iteration of the `PollEvents` loop. The `switch` has no `break`
      after `DestroyNotify`, so a destroy also sets the update flag. The
      comparison is against the window selected at the moment the event is
      handled. */
  function HandleEvent(s: Capturer, e: Event): (t: Capturer)
    ensures t.(window := s.window, update := s.update) == s
    ensures t.window == s.window || t.window == NoWindow
    ensures s.update ==> t.update
    // a destroy of the selected window clears it and also marks the surface stale
    ensures e == Event(s.window, DestroyNotify) ==> t.window == NoWindow && t.update
    // a resize, map or visibility change of the selected window keeps it and marks it stale
    ensures e.window == s.window && IsStaleningKind(e.kind) ==> t.window == s.window && t.update
    // an event naming another window is skipped
    ensures e.window != s.window ==> t == s
    // any other kind of event changes nothing
    ensures !IsReactedKind(e.kind) ==> t == s
  {
    if e.window != s.window then s
    else
      var afterDestroy := if e.kind == DestroyNotify then s.(window := NoWindow) else s;
      if IsReactedKind(e.kind) then afterDestroy.(update := true)
      else afterDestroy
  }

  /** Some event in `evs` has kind `kind` and names window `w`. */
  predicate Mentions(evs: seq<Event>, w: WindowId, kind: int) {
    exists i :: 0 <= i < |evs| && evs[i] == Event(w, kind)
  }

  /** Some event in `evs` names window `w` with a kind that marks the surface stale. */
  predicate MentionsStalening(evs: seq<Event>, w: WindowId) {
    exists i :: 0 <= i < |evs| && evs[i].window == w && IsStaleningKind(evs[i].kind)
  }

  /** The event types the `switch` in `PollEvents` lists. */
  predicate IsReactedKind(kind: int) {
    kind == DestroyNotify || IsStaleningKind(kind)
  }

  /** Some event in `evs` names window `w` with a kind the `switch` lists. */
  predicate Reacts(evs: seq<Event>, w: WindowId) {
    exists i :: 0 <= i < |evs| && evs[i].window == w && IsReactedKind(evs[i].kind)
  }

  /** No event in `evs` names window `w`. */
  predicate AllForeign(evs: seq<Event>, w: WindowId) {
    forall i :: 0 <= i < |evs| ==> evs[i].window != w
  }

  /** No event in `evs` is of a kind the capturer reacts to. */
  predicate AllIgnoredKinds(evs: seq<Event>) {
    forall i :: 0 <= i < |evs| ==> !IsReactedKind(evs[i].kind)
  }

  /** `PollEvents`: drains the pending queue front to back. */
  function Drain(s: Capturer, evs: seq<Event>): (t: Capturer)
    decreases |evs|
    // only the selection and the flag can change
    ensures t.(window := s.window, update := s.update) == s
    // the selection is either kept or cleared, never switched
    ensures t.window == s.window || t.window == NoWindow
    // a pending flag is never cleared by events
    ensures s.update ==> t.update
    // the selection is lost exactly when the selected window was destroyed
    ensures s.window != NoWindow ==> (t.window == NoWindow <==> Mentions(evs, s.window, DestroyNotify))
    // losing the selection marks the surface stale
    ensures t.window != s.window ==> t.update
    // a resize, map or visibility change of the selected window marks it stale
    ensures MentionsStalening(evs, s.window) ==> t.update
    // events for other windows change nothing
    ensures AllForeign(evs, s.window) ==> t == s
    // events of kinds the switch does not list change nothing
    ensures AllIgnoredKinds(evs) ==> t == s
    // the flag ends up set exactly when it was set already or some listed
    // event names the selected window
    ensures t.update <==> s.update || Reacts(evs, s.window)
  {
    if |evs| == 0 then s
    else
      var s1 := HandleEvent(s, evs[0]);
      var t := Drain(s1, evs[1..]);
      assert s.window != NoWindow && s1.window == NoWindow ==> evs[0] == Event(s.window, DestroyNotify);
      assert s1.window == s.window && Mentions(evs[1..], s.window, DestroyNotify) ==> Mentions(evs, s.window, DestroyNotify) by {
        if s1.window == s.window && Mentions(evs[1..], s.window, DestroyNotify) {
          var i :| 0 <= i < |evs[1..]| && evs[1..][i] == Event(s.window, DestroyNotify);
          assert evs[i + 1] == Event(s.window, DestroyNotify);
        }
      }
      assert s.window != NoWindow && s1.window == s.window && Mentions(evs, s.window, DestroyNotify) ==> Mentions(evs[1..], s.window, DestroyNotify) by {
        if s.window != NoWindow && s1.window == s.window && Mentions(evs, s.window, DestroyNotify) {
          var i :| 0 <= i < |evs| && evs[i] == Event(s.window, DestroyNotify);
          assert i != 0;
          assert evs[1..][i - 1] == Event(s.window, DestroyNotify);
        }
      }
      assert MentionsStalening(evs, s.window) ==> s1.update || MentionsStalening(evs[1..], s.window) by {
        assert evs[0].window == s.window && IsStaleningKind(evs[0].kind) ==> s1.update;
        if MentionsStalening(evs, s.window) && !s1.update {
          var i :| 0 <= i < |evs| && evs[i].window == s.window && IsStaleningKind(evs[i].kind);
          assert i != 0;
          assert evs[1..][i - 1] == evs[i];
        }
      }
      assert Reacts(evs, s.window) <==> (evs[0].window == s.window && IsReactedKind(evs[0].kind)) || Reacts(evs[1..], s.window) by {
        if Reacts(evs, s.window) && !(evs[0].window == s.window && IsReactedKind(evs[0].kind)) {
          var i :| 0 <= i < |evs| && evs[i].window == s.window && IsReactedKind(evs[i].kind);
          assert evs[1..][i - 1] == evs[i];
        }
        if Reacts(evs[1..], s.window) {
          var i :| 0 <= i < |evs[1..]| && evs[1..][i].window == s.window && IsReactedKind(evs[1..][i].kind);
          assert evs[i + 1] == evs[1..][i];
        }
      }
      assert AllIgnoredKinds(evs) ==> s1 == s && AllIgnoredKinds(evs[1..]) by {
        if AllIgnoredKinds(evs) {
          assert !IsReactedKind(evs[0].kind);
          forall i | 0 <= i < |evs[1..]|
            ensures !IsReactedKind(evs[1..][i].kind)
          {
            assert evs[1..][i] == evs[i + 1];
          }
        }
      }
      assert AllForeign(evs, s.window) ==> s1 == s && AllForeign(evs[1..], s.window) by {
        if AllForeign(evs, s.window) {
          assert evs[0].window != s.window;
          forall i | 0 <= i < |evs[1..]| ensures evs[1..][i].window != s.window {
            assert evs[1..][i] == evs[i + 1];
          }
        }
      }
      t
  }

  /** The outcome of `SelectSource`: the new state and the returned `bool`. */
  datatype Selection = Selection(next: Capturer, accepted: bool)

  /** `SelectSource(id)`: drains pending events, then records `id` as the
      source and marks its surface stale. The surface of the previous source
      is not released here. */
  function SelectSource(s: Capturer, pending: seq<Event>, id: SourceId): (r: Selection)
    ensures r.accepted
    // whatever was pending, the outcome only depends on the state and the id
    ensures r.next == s.(window := r.next.window, update := true)
    ensures r.next.window == NoWindow <==> id == 0
    ensures 0 < id ==> r.next.window == id
    ensures id < 0 ==> r.next.window == id + XID_LIMIT
  {
    var drained := Drain(s, pending);
    Selection(drained.(window := id % XID_LIMIT, update := true), true)
  }

  /** `Release`: frees the current pixmap and its image, if any. The source
      does not reset `pixmap_` afterwards, and neither does the model. */
  function Release(s: Capturer): (t: Capturer)
    ensures t.(live := s.live) == s
    ensures t.live <= s.live
    ensures forall p :: p in s.live && Some(p) != s.pixmap ==> p in t.live
    ensures s.pixmap.Some? ==> s.pixmap.value !in t.live
  {
    match s.pixmap
    case Some(p) => s.(live := s.live - {p})
    case None => s
  }

  /** The outcome of `CaptureFrame`: the new state, the sink the result was
      delivered to, the result, and whether a new surface was created (the
      source logs "created new image" exactly then). */
  datatype Capture = Capture(next: Capturer, sink: SinkId, result: CaptureResult, recreated: bool)

  /** `CaptureFrame`: drains events; with no source delivers a permanent
      error; otherwise recreates the surface if it is stale and delivers a
      frame of the recorded size. The callback is unset until `Start`, so a
      sink must have been recorded. */
  function CaptureFrame(s: Capturer, pending: seq<Event>, reply: ServerReply): (c: Capture)
    requires s.sink.Some?
    ensures c.sink == s.sink.value && c.next.sink == s.sink
    ensures c.next.window == Drain(s, pending).window
    ensures c.result == ErrorPermanent <==> c.next.window == NoWindow
    // a permanent error creates and releases nothing: the state is the drained one
    ensures c.result == ErrorPermanent ==>
      !c.recreated && c.next.pixmap == s.pixmap && c.next.live == s.live
    ensures c.result == ErrorPermanent ==> c.next == Drain(s, pending)
    // recreation happens exactly when the drained state is stale
    ensures c.recreated <==> c.next.window != NoWindow && Drain(s, pending).update
    // after a successful capture the surface is fresh
    ensures c.result.Success? ==> !c.next.update
    // the frame always has the recorded size
    ensures c.result.Success? ==> c.result.frame == Frame(c.next.width, c.next.height)
    // recreation frees the old surface, then records the new one and its size
    ensures c.recreated ==>
      && c.next.pixmap == Some(reply.pixmap)
      && c.next.live == (s.live - PixmapSet(s.pixmap)) + {reply.pixmap}
      && c.next.width == reply.width && c.next.height == reply.height
    // without recreation the surface and the recorded size stay as they were
    ensures !c.recreated ==>
      && c.next.pixmap == s.pixmap && c.next.live == s.live
      && c.next.width == s.width && c.next.height == s.height
  {
    var d := Drain(s, pending);
    if d.window == NoWindow then
      Capture(d, s.sink.value, ErrorPermanent, false)
    else if d.update then
      var released := Release(d.(update := false));
      var n := released.(pixmap := Some(reply.pixmap), live := released.live + {reply.pixmap},
                         width := reply.width, height := reply.height);
      Capture(n, s.sink.value, Success(Frame(n.width, n.height)), true)
    else
      Capture(d, s.sink.value, Success(Frame(d.width, d.height)), false)
  }

  // ---------------------------------------------------------------------
  // Properties of single operations and of short call sequences
  // ---------------------------------------------------------------------

  /** Calling `Start` again simply replaces the sink. */
  lemma StartReplacesSink(s: Capturer, first: SinkId, second: SinkId)
    ensures Start(Start(s, first), second) == Start(s, second)
  {
  }

  /** The invariant holds in the constructed state. */
  lemma InitialIsGood(width: U32, height: U32)
    ensures Good(Initial(width, height))
  {
  }

  /** A good state holds at most one surface on the server. */
  lemma GoodHoldsAtMostOneSurface(s: Capturer)
    requires Good(s)
    ensures |s.live| <= 1
  {
    match s.pixmap
    case None =>
      assert s.live == {};
    case Some(p) =>
      assert s.live == {p};
  }

  /** `Release` in a good state leaves nothing live: the destructor leaks no surface. */
  lemma ReleaseFreesEverything(s: Capturer)
    requires Good(s)
    ensures Release(s).live == {}
  {
  }

  /** Every operation preserves the invariant. */
  lemma GoodPreserved(s: Capturer, pending: seq<Event>, id: SourceId, sink: SinkId, reply: ServerReply)
    requires Good(s)
    ensures Good(Drain(s, pending))
    ensures Good(Start(s, sink))
    ensures Good(SelectSource(s, pending, id).next)
    ensures s.sink.Some? ==> Good(CaptureFrame(s, pending, reply).next)
  {
  }

  /** In a good state a successful capture reads from a live surface: either
      it was just recreated, or the state already held one. */
  lemma SuccessHasSurface(s: Capturer, pending: seq<Event>, reply: ServerReply)
    requires Good(s) && s.sink.Some?
    ensures var c := CaptureFrame(s, pending, reply);
      c.result.Success? ==>
        && c.next.pixmap.Some? && c.next.pixmap.value in c.next.live
        && (c.recreated || s.pixmap.Some?)
  {
  }

  /** Two captures with no event in between: the second recreates nothing,
      reuses the surface and delivers the same result as the first. */
  lemma SecondCaptureReuses(s: Capturer, pending: seq<Event>, first: ServerReply, second: ServerReply)
    requires s.sink.Some?
    ensures var c1 := CaptureFrame(s, pending, first);
      var c2 := CaptureFrame(c1.next, [], second);
      !c2.recreated && c2.result == c1.result && c2.next == c1.next
  {
  }

  /** A resize, map or visibility event for the selected window, with no
      destroy of it, followed by two captures recreates the surface exactly once, on the first capture,
      and both frames have the size the server reported then. */
  lemma StaleEventRecreatesOnce(s: Capturer, pending: seq<Event>, first: ServerReply, second: ServerReply)
    requires s.sink.Some? && s.window != NoWindow
    requires MentionsStalening(pending, s.window) && !Mentions(pending, s.window, DestroyNotify)
    ensures var c1 := CaptureFrame(s, pending, first);
      var c2 := CaptureFrame(c1.next, [], second);
      && c1.recreated && !c2.recreated
      && c1.result == Success(Frame(first.width, first.height))
      && c2.result == c1.result
  {
  }

  /** A destroy event for the selected window makes the next capture a
      permanent error, and leaves the capturer without a source. */
  lemma DestroyThenCaptureFails(s: Capturer, pending: seq<Event>, reply: ServerReply)
    requires s.sink.Some? && Mentions(pending, s.window, DestroyNotify)
    ensures var c := CaptureFrame(s, pending, reply);
      c.result == ErrorPermanent && c.next.window == NoWindow && c.next.live == s.live
  {
  }

  /** Selecting a non-zero source and then capturing, with no destroy of the
      new window in between, recreates the surface: the previous surface
      is freed, the new one is the only one live, and the frame has the
      geometry the server reported. */
  lemma SelectThenCapture(s: Capturer, p1: seq<Event>, id: SourceId, p2: seq<Event>, reply: ServerReply)
    requires Good(s) && s.sink.Some? && id != 0
    requires !Mentions(p2, SelectSource(s, p1, id).next.window, DestroyNotify)
    ensures var c := CaptureFrame(SelectSource(s, p1, id).next, p2, reply);
      && c.recreated
      && c.result == Success(Frame(reply.width, reply.height))
      && c.next.live == {reply.pixmap}
      && c.next.window == SelectSource(s, p1, id).next.window
  {
  }
}
