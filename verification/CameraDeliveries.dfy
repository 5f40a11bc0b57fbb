/** Which compressed images the application gets, told from the events of a run. */
module CameraDeliveries {
  import opened Bytes
  import opened CameraSteps
  import opened Sequences
  import opened Wrappers

  /** Does takePicture reach camera_take_picture with event `e`, the object being as `c`? */
  predicate Begins(c: Camera, e: Event) {
    && !c.crashed && e.Continue? && c.call == PictureWanted && c.state == Idle
    && e.heapOk && (c.cb.data ==> e.capacity.Some?)
  }

  /** Does a fragment of the picture reach the JPEG heap? */
  predicate Encodes(c: Camera, e: Event) {
    && !c.crashed && e.Callback? && e.func == EncodePicture && (e.reply == ExitBuffer || e.reply == ExitDone)
    && c.state == WaitingJpeg && c.heap.Some?
  }

  /** Is that the last fragment, and does the application want the image? */
  predicate Delivers(c: Camera, e: Event) {
    Encodes(c, e) && e.reply == ExitDone && c.cb.data && c.enabled.compressed
  }

  /** How many pictures were begun. */
  function Pictures(events: seq<Event>): nat {
    if events == [] then 0
    else
      var n := |events| - 1;
      Pictures(events[..n]) + if Begins(Run(FRESH, events[..n]), events[n]) then 1 else 0
  }

  /** The fragments received since the last picture was begun. */
  function Fragments(events: seq<Event>): seq<seq<byte>> {
    if events == [] then []
    else
      var n := |events| - 1;
      var c := Run(FRESH, events[..n]);
      if Begins(c, events[n]) then []
      else if Encodes(c, events[n]) then Fragments(events[..n]) + [events[n].fragment]
      else Fragments(events[..n])
  }

  // ---- One step ----

  /** Nothing that is counted here changes. */
  predicate Quiet(c: Camera, d: Camera) {
    d.pictures == c.pictures && d.fragments == c.fragments && d.delivered == c.delivered
  }

  /** A step that receives a fragment, and perhaps hands the image over. */
  predicate Receives(c: Camera, e: Event, d: Camera)
    requires Encodes(c, e)
  {
    var image := Delivery(c.pictures, c.fragments + [e.fragment], c.heap.value, Truncate(c.bytes + e.fragment, c.heap.value));
    && d.pictures == c.pictures && d.fragments == c.fragments + [e.fragment]
    && d.delivered == c.delivered + if Delivers(c, e) then [image] else []
  }

  predicate Begun(c: Camera, d: Camera) {
    d.pictures == c.pictures + 1 && d.fragments == [] && d.delivered == c.delivered
  }

  lemma EncodeHistory(c: Camera, reply: Cb, f: seq<byte>, encodeOk: bool)
    requires !c.crashed
    ensures var e, d := Callback(EncodePicture, reply, f, encodeOk), OnEncode(c, reply, f);
            if Encodes(c, e) then Receives(c, e, d) else Quiet(c, d)
  {
    hide Truncate;
    assert c.delivered + [] == c.delivered;
  }

  lemma PictureHistory(c: Camera, reply: Cb, encodeOk: bool)
    ensures Quiet(c, OnTakePicture(c, reply, encodeOk))
  {
  }

  lemma PreviewHistory(c: Camera, reply: Cb)
    ensures Quiet(c, OnStartPreview(c, reply))
  {
  }

  /** A failure is noted before the callback is looked at, and so no fragment of it counts. */
  lemma FailingHistory(c: Camera, func: Func, reply: Cb)
    ensures Quiet(c, Failing(c, func, reply))
    ensures !IsFailure(reply) ==> Failing(c, func, reply) == c
    ensures Failing(c, func, reply).crashed == c.crashed
  {
  }

  lemma EnterHistory(c: Camera, s: State)
    ensures Quiet(c, Enter(c, s))
  {
  }

  lemma CallbackHistory(c: Camera, func: Func, reply: Cb, f: seq<byte>, encodeOk: bool)
    requires !c.crashed
    ensures var e, d := Callback(func, reply, f, encodeOk), OnCallback(c, func, reply, f, encodeOk);
            if Encodes(c, e) then Receives(c, e, d) else Quiet(c, d)
  {
    hide Receives, OnEncode, OnTakePicture, OnStartPreview, Failing, Enter, Delivers;
    var c' := Failing(c, func, reply);
    FailingHistory(c, func, reply);
    match func {
      case EncodePicture => EncodeHistory(c', reply, f, encodeOk);
      case TakePicture => PictureHistory(c', reply, encodeOk);
      case StartPreview => PreviewHistory(c', reply);
      case _ =>
        EnterHistory(c', Error);
        EnterHistory(c', Idle);
    }
  }

  lemma BeginHistory(c: Camera, heapOk: bool, capacity: Option<nat>)
    requires !c.crashed && c.state == Idle
    ensures Quiet(c, BeginPreview(c, heapOk))
    ensures if heapOk && (c.cb.data ==> capacity.Some?) then Begun(c, BeginPicture(c, heapOk, capacity))
            else Quiet(c, BeginPicture(c, heapOk, capacity))
  {
  }

  lemma WantedHistory(c: Camera, heapOk: bool, capacity: Option<nat>)
    requires !c.crashed && (c.call == PreviewWanted || c.call == PictureWanted)
    ensures var d := OnContinue(c, heapOk, capacity);
            if Begins(c, Continue(heapOk, capacity)) then Begun(c, d) else Quiet(c, d)
  {
    hide BeginPicture, BeginPreview;
    if c.state == Idle {
      BeginHistory(c, heapOk, capacity);
    }
  }

  lemma WaitingHistory(c: Camera, heapOk: bool, capacity: Option<nat>)
    requires c.call != PreviewWanted && c.call != PictureWanted
    ensures Quiet(c, OnContinue(c, heapOk, capacity))
  {
  }

  lemma ContinueHistory(c: Camera, heapOk: bool, capacity: Option<nat>)
    requires !c.crashed
    ensures var e, d := Continue(heapOk, capacity), OnContinue(c, heapOk, capacity);
            if Begins(c, e) then Begun(c, d) else Quiet(c, d)
  {
    hide OnContinue, Quiet, Begun;
    if c.call == PreviewWanted || c.call == PictureWanted {
      WantedHistory(c, heapOk, capacity);
    } else {
      WaitingHistory(c, heapOk, capacity);
    }
  }

  lemma CallHistory(c: Camera, e: Event)
    ensures Quiet(c, OnCall(c, e))
  {
  }

  lemma RefusedHistory(c: Camera)
    ensures Quiet(c, OnRefused(c)) && Quiet(c, Transition(c, Stopping, Init))
  {
  }

  lemma StepHistory(c: Camera, e: Event)
    ensures var d := Step(c, e);
            if Begins(c, e) then Begun(c, d) else if Encodes(c, e) then Receives(c, e, d) else Quiet(c, d)
  {
    hide Receives, OnCallback, OnContinue, OnCall, OnRefused, Transition, Delivers;
    if !c.crashed {
      match e {
        case Callback(func, reply, fragment, encodeOk) =>
          CallbackHistory(c, func, reply, fragment, encodeOk);
        case Continue(heapOk, capacity) =>
          ContinueHistory(c, heapOk, capacity);
        case _ =>
          CallHistory(c, e);
          RefusedHistory(c);
      }
    }
  }

  /** Null stands in for an image exactly when a picture fails, the message is enabled and there is a callback. */
  lemma NullStep(c: Camera, func: Func, reply: Cb, f: seq<byte>, encodeOk: bool)
    requires !c.crashed
    ensures Step(c, Callback(func, reply, f, encodeOk)).nulls
            == c.nulls + if func == TakePicture && reply != RspSuccess && reply != EvtSnapshotDone && reply != ExitDone
                            && (reply in {ExitAbort, ExitDspAbort, ExitError, ExitFailed} || c.state == Error)
                            && c.enabled.compressed && c.cb.data then 1 else 0
  {
    hide OnEncode, OnStartPreview, OnTakePicture, Enter;
    var c' := Failing(c, func, reply);
    FailingNulls(c, func, reply);
    EncodeNulls(c', reply, f);
    PictureNulls(c', reply, encodeOk);
    EnterNulls(c', Error);
    EnterNulls(c', Idle);
  }

  lemma FailingNulls(c: Camera, func: Func, reply: Cb)
    ensures var c' := Failing(c, func, reply);
            && c'.nulls == c.nulls && c'.enabled == c.enabled && c'.cb == c.cb && c'.crashed == c.crashed
            && c'.state == if IsFailure(reply) && func != Func.StartFocus then Error else c.state
  {
  }

  lemma EnterNulls(c: Camera, s: State)
    ensures Enter(c, s).nulls == c.nulls
  {
  }

  lemma EncodeNulls(c: Camera, reply: Cb, f: seq<byte>)
    ensures OnEncode(c, reply, f).nulls == OnStartPreview(c, reply).nulls == c.nulls
  {
    hide Truncate;
  }

  lemma PictureNulls(c: Camera, reply: Cb, encodeOk: bool)
    requires !c.crashed
    ensures OnTakePicture(c, reply, encodeOk).nulls
            == c.nulls + if reply != RspSuccess && reply != EvtSnapshotDone && reply != ExitDone
                            && c.state == Error && c.enabled.compressed && c.cb.data then 1 else 0
  {
  }

  /** A frame is counted exactly while the preview runs. */
  lemma FrameStep(c: Camera, f: seq<byte>, encodeOk: bool)
    requires !c.crashed
    ensures Step(c, Callback(StartPreview, EvtFrame, f, encodeOk)).previewCount
            == c.previewCount + if c.state == PreviewInProgress then 1 else 0
  {
  }

  // ---- Runs ----

  lemma RunSplit(events: seq<Event>)
    requires events != []
    ensures Run(FRESH, events) == Step(Run(FRESH, events[..|events| - 1]), events[|events| - 1])
  {
  }

  /** The count and the fragments the object keeps are those of the events. */
  lemma {:induction false} HistoryIs(events: seq<Event>)
    ensures var c := Run(FRESH, events);
            c.pictures == Pictures(events) && c.fragments == Fragments(events)
  {
    hide Step, Begins, Encodes;
    if events == [] {
      RunNone(FRESH);
    } else {
      var front, e := events[..|events| - 1], events[|events| - 1];
      HistoryIs(front);
      RunSplit(events);
      StepHistory(Run(FRESH, front), e);
    }
  }

  /** While a picture is encoded, the image that a fragment completes is all its fragments, cut off at the capacity. */
  lemma ImageIs(c: Camera, f: seq<byte>)
    requires Inv(c) && c.state == WaitingJpeg && c.heap.Some?
    ensures Truncate(c.bytes + f, c.heap.value) == Truncate(Concat(c.fragments + [f]), c.heap.value)
  {
    hide Delivered, Truncate, Concat;
    TruncateAgain(Concat(c.fragments), f, c.heap.value);
    ConcatNext(c.fragments, f);
  }

  /** The delivery that event `k` makes, from the events alone. */
  predicate IsDelivery(d: Delivery, events: seq<Event>, k: nat)
    requires k < |events|
  {
    var c := Run(FRESH, events[..k]);
    var all := Concat(Fragments(events[..k + 1]));
    && c.heap == Some(d.capacity) && d.picture == Pictures(events[..k]) && d.fragments == Fragments(events[..k + 1])
    && d.bytes == if |all| <= d.capacity then all else all[..d.capacity]
  }

  /**
    The compressed images of any run are exactly these, in order: one for every last fragment that comes
    while the camera is encoding into a JPEG heap, a data callback is set and the message enabled. It is
    the picture begun last, made of the fragments received since, cut off at the capacity of the heap.
  */
  lemma {:induction false} DeliveriesAre(events: seq<Event>) returns (ks: seq<nat>)
    ensures |ks| == |Run(FRESH, events).delivered|
    ensures forall i, j :: 0 <= i < j < |ks| ==> ks[i] < ks[j]
    ensures forall k: nat :: k in ks
              <==> k < |events| && var c := Run(FRESH, events[..k]);
                   && !c.crashed && events[k].Callback? && events[k].func == EncodePicture && events[k].reply == ExitDone
                   && c.state == WaitingJpeg && c.heap.Some? && c.cb.data && c.enabled.compressed
    ensures forall i :: 0 <= i < |ks| ==> ks[i] < |events| && IsDelivery(Run(FRESH, events).delivered[i], events, ks[i])
  {
    hide Step, Run, IsDelivery, Truncate;
    if events == [] {
      RunNone(FRESH);
      ks := [];
    } else {
      var n := |events| - 1;
      var front := events[..n];
      var c := Run(FRESH, front);
      ks := DeliveriesAre(front);
      assert forall k :: 0 <= k <= n ==> front[..k] == events[..k];
      RunSplit(events);
      StepHistory(c, events[n]);
      forall i | 0 <= i < |ks| ensures IsDelivery(c.delivered[i], events, ks[i]) {
        LaterEvents(c.delivered[i], events, ks[i]);
      }
      if Delivers(c, events[n]) {
        NewDelivery(events);
        ks := ks + [n];
      }
    }
  }

  lemma LaterEvents(d: Delivery, events: seq<Event>, k: nat)
    requires k < |events| - 1 && IsDelivery(d, events[..|events| - 1], k)
    ensures IsDelivery(d, events, k)
  {
    var front := events[..|events| - 1];
    assert front[..k] == events[..k] && front[..k + 1] == events[..k + 1];
  }

  lemma NewDelivery(events: seq<Event>)
    requires events != [] && Delivers(Run(FRESH, events[..|events| - 1]), events[|events| - 1])
    ensures var n := |events| - 1;
            var c := Run(FRESH, events[..n]);
            IsDelivery(Delivery(c.pictures, c.fragments + [events[n].fragment], c.heap.value,
                                Truncate(c.bytes + events[n].fragment, c.heap.value)), events, n)
  {
    hide Step, Run, Concat;
    var n := |events| - 1;
    HistoryIs(events[..n]);
    RunKeeps(events[..n]);
    ImageIs(Run(FRESH, events[..n]), events[n].fragment);
    assert events[..n + 1] == events;
  }

  // ---- A picture that is taken ----

  /** The encoder's callbacks for the fragments of a picture, the last of which ends it. */
  function Encoder(fragments: seq<seq<byte>>): (events: seq<Event>)
    ensures |events| == |fragments|
  {
    seq(|fragments|, i requires 0 <= i < |fragments| =>
      Callback(EncodePicture, if i == |fragments| - 1 then ExitDone else ExitBuffer, fragments[i], true))
  }

  /** takePicture until the camera has taken the picture and the encoder runs. */
  function Taking(capacity: nat): seq<Event> {
    [TakePictureCall, Continue(true, Some(capacity)), Callback(TakePicture, RspSuccess, [], true),
     Continue(true, None), Callback(TakePicture, ExitDone, [], true)]
  }

  predicate Ready(c: Camera) {
    !c.crashed && c.call == NoCall && c.state == Idle && c.cb.data && c.enabled.compressed
  }

  /** The object while the picture of `Taking` is encoded. */
  function Encoding(c: Camera, capacity: nat, fragments: seq<seq<byte>>): Camera {
    c.(state := WaitingJpeg, heap := Some(capacity), rawHeap := true, pictures := c.pictures + 1,
       begunWithData := true, fragments := fragments, bytes := Truncate(Concat(fragments), capacity))
  }

  lemma TakingLeads(c: Camera, capacity: nat)
    requires Ready(c)
    ensures Run(c, Taking(capacity)) == Encoding(c, capacity, [])
  {
    hide Run, Step;
    var t := Taking(capacity);
    RunNone(c);
    RunNext(c, [], t[0]);
    RunNext(c, [] + [t[0]], t[1]);
    AskedLeads(c, capacity);
    RunNext(c, [] + [t[0]] + [t[1]], t[2]);
    RunNext(c, [] + [t[0]] + [t[1]] + [t[2]], t[3]);
    RunNext(c, [] + [t[0]] + [t[1]] + [t[2]] + [t[3]], t[4]);
    TakenLeads(c, capacity);
    assert t == [] + [t[0]] + [t[1]] + [t[2]] + [t[3]] + [t[4]];
  }

  lemma TakenLeads(c: Camera, capacity: nat)
    requires Ready(c)
    ensures var asked := c.(state := RawRequested, call := PictureAsked, heap := Some(capacity), rawHeap := true,
                            pictures := c.pictures + 1, begunWithData := true, fragments := [], bytes := []);
            var t := Taking(capacity);
            Step(Step(Step(asked, t[2]), t[3]), t[4]) == Encoding(c, capacity, [])
  {
    ConcatNone<byte>();
  }

  lemma AskedLeads(c: Camera, capacity: nat)
    requires Ready(c)
    ensures Step(Step(c, Taking(capacity)[0]), Taking(capacity)[1])
            == c.(state := RawRequested, call := PictureAsked, heap := Some(capacity), rawHeap := true,
                  pictures := c.pictures + 1, begunWithData := true, fragments := [], bytes := [])
  {
  }

  lemma EncodeStep(c: Camera, capacity: nat, fragments: seq<seq<byte>>, f: seq<byte>, last: bool)
    requires Ready(c)
    ensures var d := Step(Encoding(c, capacity, fragments),
                          Callback(EncodePicture, if last then ExitDone else ExitBuffer, f, true));
            var all := fragments + [f];
            d == if !last then Encoding(c, capacity, all)
                 else Encoding(c, capacity, all).(state := Idle, heap := None, rawHeap := false, bytes := [],
                        delivered := c.delivered
                                     + [Delivery(c.pictures + 1, all, capacity, Truncate(Concat(all), capacity))])
  {
    hide Truncate, Concat;
    ConcatNext(fragments, f);
    TruncateAgain(Concat(fragments), f, capacity);
  }

  lemma {:induction false} EncoderLeads(c: Camera, capacity: nat, fragments: seq<seq<byte>>, m: nat)
    requires Ready(c) && m < |fragments|
    ensures Run(c, Taking(capacity) + Encoder(fragments)[..m]) == Encoding(c, capacity, fragments[..m])
  {
    hide Run, Encoding, Step, Ready, Taking;
    var t, e := Taking(capacity), Encoder(fragments);
    TakingLeads(c, capacity);
    if m == 0 {
      assert t + e[..0] == t && fragments[..0] == [];
    } else {
      EncoderLeads(c, capacity, fragments, m - 1);
      assert t + e[..m] == (t + e[..m - 1]) + [e[m - 1]];
      assert fragments[..m] == fragments[..m - 1] + [fragments[m - 1]];
      RunNext(c, t + e[..m - 1], e[m - 1]);
      EncodeStep(c, capacity, fragments[..m - 1], fragments[m - 1], false);
    }
  }

  /**
    So a picture that is asked for is handed over: from every idle object with a data callback and the
    compressed message, whatever the fragments, the application gets one more image, which is all of
    them up to the capacity of the heap, and the object is idle again.
  */
  lemma PictureDelivers(c: Camera, capacity: nat, fragments: seq<seq<byte>>)
    requires !c.crashed && c.call == NoCall && c.state == Idle && c.cb.data && c.enabled.compressed
    requires fragments != []
    ensures var d := Run(c, Taking(capacity) + Encoder(fragments));
            var all := Concat(fragments);
            && !d.crashed && d.call == NoCall && d.state == Idle && d.pictures == c.pictures + 1
            && d.delivered == c.delivered + [Delivery(c.pictures + 1, fragments, capacity,
                                                      if |all| <= capacity then all else all[..capacity])]
  {
    hide Run, Step, Taking, Concat;
    var t, e, n := Taking(capacity), Encoder(fragments), |fragments| - 1;
    EncoderLeads(c, capacity, fragments, n);
    assert t + e == (t + e[..n]) + [e[n]];
    RunNext(c, t + e[..n], e[n]);
    EncodeStep(c, capacity, fragments[..n], fragments[n], true);
    assert fragments[..n] + [fragments[n]] == fragments;
  }

  // ---- The other calls, when nothing goes wrong ----

  lemma RunTwo(c: Camera, e1: Event, e2: Event)
    ensures Run(c, [e1, e2]) == Step(Step(c, e1), e2)
  {
    hide Step;
    RunNone(c);
    RunNext(c, [], e1);
    RunNext(c, [e1], e2);
    assert [e1] + [e2] == [e1, e2] && [] + [e1] == [e1];
  }

  lemma RunThree(c: Camera, e1: Event, e2: Event, e3: Event)
    ensures Run(c, [e1, e2, e3]) == Step(Step(Step(c, e1), e2), e3)
  {
    hide Step, Run;
    RunTwo(c, e1, e2);
    RunNext(c, [e1, e2], e3);
    assert [e1, e2] + [e3] == [e1, e2, e3];
  }

  /** A preview that is asked for runs, with its heap and from its first frame. */
  lemma PreviewStarts(c: Camera, capacity: Option<nat>)
    requires !c.crashed && c.call == NoCall && c.state == Idle
    ensures Run(c, [StartPreviewCall, Continue(true, capacity), Callback(StartPreview, RspSuccess, [], true)])
            == c.(state := PreviewInProgress, call := PreviewAsked, previewHeap := true, previewCount := 0, bytes := [])
  {
    hide Run, Step;
    RunThree(c, StartPreviewCall, Continue(true, capacity), Callback(StartPreview, RspSuccess, [], true));
    PreviewComes(c, capacity);
  }

  lemma PreviewComes(c: Camera, capacity: Option<nat>)
    requires !c.crashed && c.call == NoCall && c.state == Idle
    ensures Step(c, StartPreviewCall) == c.(call := PreviewWanted)
    ensures Step(c.(call := PreviewWanted), Continue(true, capacity))
            == c.(state := PreviewRequested, call := PreviewAsked, previewHeap := true, previewCount := 0, bytes := [])
    ensures Step(c.(state := PreviewRequested, call := PreviewAsked, previewHeap := true, previewCount := 0, bytes := []),
                 Callback(StartPreview, RspSuccess, [], true))
            == c.(state := PreviewInProgress, call := PreviewAsked, previewHeap := true, previewCount := 0, bytes := [])
  {
  }

  /** A preview that is stopped leaves the camera idle and drops its heap. */
  lemma PreviewStops(c: Camera, capacity: Option<nat>)
    requires !c.crashed && c.call == NoCall && c.state == PreviewInProgress
    ensures Run(c, [StopPreviewCall, Callback(StopPreview, RspSuccess, [], true), Continue(true, capacity)])
            == c.(state := Idle, previewHeap := false, bytes := [])
  {
    hide Run, Step;
    RunThree(c, StopPreviewCall, Callback(StopPreview, RspSuccess, [], true), Continue(true, capacity));
    PreviewLeaves(c, capacity);
    StopIsAsked(c);
  }

  lemma StopIsAsked(c: Camera)
    requires !c.crashed && c.call == NoCall && c.state == PreviewInProgress
    ensures Step(c, StopPreviewCall) == c.(state := PreviewStopping, call := PreviewLeaving, bytes := [])
  {
  }

  /** From the call that stops the preview to the end of its wait. */
  lemma PreviewLeaves(c: Camera, capacity: Option<nat>)
    requires !c.crashed && c.call == NoCall
    ensures Step(c.(state := PreviewStopping, call := PreviewLeaving, bytes := []),
                 Callback(StopPreview, RspSuccess, [], true))
            == c.(state := Idle, call := PreviewLeaving, bytes := [])
    ensures Step(c.(state := Idle, call := PreviewLeaving, bytes := []), Continue(true, capacity))
            == c.(state := Idle, previewHeap := false, bytes := [])
  {
  }

  /** takePicture during a preview stops it first, and then goes on as from an idle camera. */
  lemma PictureStopsPreview(c: Camera, capacity: Option<nat>)
    requires !c.crashed && c.call == NoCall && c.state == PreviewInProgress
    ensures Run(c, [TakePictureCall, Callback(StopPreview, RspSuccess, [], true), Continue(true, capacity)])
            == Run(c.(state := Idle, previewHeap := false, bytes := []), [TakePictureCall])
  {
    hide Run, Step;
    RunThree(c, TakePictureCall, Callback(StopPreview, RspSuccess, [], true), Continue(true, capacity));
    PictureLeavesPreview(c, capacity);
    var idle := c.(state := Idle, previewHeap := false, bytes := []);
    RunNone(idle);
    RunNext(idle, [], TakePictureCall);
    assert [] + [TakePictureCall] == [TakePictureCall];
  }

  lemma PictureLeavesPreview(c: Camera, capacity: Option<nat>)
    requires !c.crashed && c.call == NoCall && c.state == PreviewInProgress
    ensures Step(c, TakePictureCall) == c.(state := PreviewStopping, call := PictureLeaving, bytes := [])
    ensures Step(c.(state := PreviewStopping, call := PictureLeaving, bytes := []),
                 Callback(StopPreview, RspSuccess, [], true))
            == c.(state := Idle, call := PictureLeaving, bytes := [])
    ensures Step(c.(state := Idle, call := PictureLeaving, bytes := []), Continue(true, capacity))
            == Step(c.(state := Idle, previewHeap := false, bytes := []), TakePictureCall)
  {
  }

  /** release stops a camera that was started, from every state. */
  lemma ReleaseStops(c: Camera, capacity: Option<nat>)
    requires !c.crashed && c.call == NoCall && c.state != Init
    ensures Run(c, [ReleaseCall, StopCallback, Continue(true, capacity)]) == c.(state := Init, bytes := [])
  {
    hide Run;
    RunThree(c, ReleaseCall, StopCallback, Continue(true, capacity));
  }

  /** cancelPicture during a picture holds the lock until the camera is idle or has failed. */
  lemma CancelWaits(c: Camera, d: Camera, heapOk: bool, capacity: Option<nat>)
    requires !c.crashed && c.call == NoCall && c.state in {RawRequested, WaitingRaw, WaitingJpeg}
    requires !d.crashed && d.call == Cancelling
    ensures Step(c, CancelPictureCall) == c.(call := Cancelling)
    ensures Step(d, Continue(heapOk, capacity)) == if d.state in {Idle, Error} then d.(call := NoCall) else d
  {
  }

  /** setParameters stops a running preview exactly if its size changes. */
  lemma ParametersStopPreview(c: Camera, ok: bool, capacity: Option<nat>)
    requires !c.crashed && c.call == NoCall && c.state == PreviewInProgress
    ensures Run(c, [SetParameters(ok, true), Callback(StopPreview, RspSuccess, [], true), Continue(true, capacity)])
            == c.(state := Idle, previewHeap := false, bytes := [])
    ensures Step(c, SetParameters(ok, false)) == c
  {
    hide Run, Step;
    RunThree(c, SetParameters(ok, true), Callback(StopPreview, RspSuccess, [], true), Continue(true, capacity));
    PreviewLeaves(c, capacity);
    ParametersAsk(c, ok);
  }

  lemma ParametersAsk(c: Camera, ok: bool)
    requires !c.crashed && c.call == NoCall && c.state == PreviewInProgress
    ensures Step(c, SetParameters(ok, true)) == c.(state := PreviewStopping, call := PreviewLeaving, bytes := [])
    ensures Step(c, SetParameters(ok, false)) == c
  {
  }

  /** While one call holds the lock no other begins. */
  lemma OneCallAtATime(c: Camera, e: Event)
    requires c.call != NoCall && !e.SetCallbacks? && !e.Continue? && !e.Refused? && !e.StopCallback? && !e.Callback?
    ensures Step(c, e) == c
  {
  }
}
