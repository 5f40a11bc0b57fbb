/**
  The camera state machine of common/libs/libcamera/SprdCameraHardwareInterface.cpp, one step per API
  call (or part of one between two waits) and per callback.
*/
module CameraSteps {
  import opened Bytes
  import opened Sequences
  import opened Wrappers

  /** `Sprd_camera_state`. */
  datatype State =
    | Init | Idle | Error | PreviewInProgress | WaitingRaw | WaitingJpeg
    | PreviewStopping | PreviewRequested | RawRequested | Stopping

  /** `camera_func_type` and `camera_cb_type`, as far as they are told apart. */
  datatype Func = Start | StartPreview | StopPreview | TakePicture | EncodePicture | StartFocus | OtherFunc

  datatype Cb =
    | RspSuccess | EvtFrame | EvtSnapshotDone | ExitDone | ExitBuffer
    | ExitAbort | ExitDspAbort | ExitError | ExitFailed | OtherCb

  /** A buffer handed to the data callback as a compressed image, and what it was made of. */
  datatype Delivery = Delivery(picture: nat, fragments: seq<seq<byte>>, capacity: nat, bytes: seq<byte>)

  /** The messages that are enabled, of those that lead to a callback. */
  datatype Messages = Messages(shutter: bool, preview: bool, video: bool, raw: bool, compressed: bool)

  /** Which callbacks are set. */
  datatype Callbacks = Callbacks(notify: bool, data: bool, timestamp: bool)

  /** The API call that holds mLock, and what it waits for: to go on, or for the camera to have done what it was asked. */
  datatype Call =
    | NoCall | Starting | PreviewWanted | PreviewAsked | PreviewLeaving
    | PictureLeaving | PictureWanted | PictureAsked | Cancelling | Releasing

  /**
    The object. `heap`: the capacity of mJpegHeap, if it is set; `rawHeap` and `previewHeap`: whether
    those are. `bytes`: what the heap holds of the picture being encoded. `crashed`: a null pointer was
    used. The rest is history: the number of takePicture calls that reached camera_take_picture, whether
    the last one found a data callback, the fragments of its picture, the compressed images delivered,
    and how often null was delivered in place of one.
  */
  datatype Camera = Camera(
    state: State, call: Call, cb: Callbacks, enabled: Messages,
    previewHeap: bool, previewCount: nat, rawHeap: bool, heap: Option<nat>, bytes: seq<byte>, crashed: bool,
    pictures: nat, begunWithData: bool, fragments: seq<seq<byte>>, delivered: seq<Delivery>, nulls: nat)

  /**
    What can happen. `SetParameters`: `ok` if the camera starts, `newSize` if the preview size changes.
    `Continue`: the waiting call goes on; `heapOk` and `capacity` are what it finds when it allocates.
    `Refused`: its call into the camera library fails.
  */
  datatype Event =
    | SetCallbacks(cb: Callbacks)
    | SetMessages(enabled: Messages)
    | SetParameters(ok: bool, newSize: bool)
    | StartPreviewCall
    | StopPreviewCall
    | TakePictureCall
    | CancelPictureCall
    | ReleaseCall
    | Continue(heapOk: bool, capacity: Option<nat>)
    | Refused
    | StopCallback
    | Callback(func: Func, reply: Cb, fragment: seq<byte>, encodeOk: bool)

  const NO_CALLBACKS := Callbacks(false, false, false)
  const ALL_CALLBACKS := Callbacks(true, true, true)
  const NO_MESSAGES := Messages(false, false, false, false, false)

  const FRESH := Camera(Init, NoCall, NO_CALLBACKS, NO_MESSAGES, false, 0, false, None, [], false, 0, false, [], [], 0)

  // ---- Steps ----

  function Truncate(s: seq<byte>, n: nat): (r: seq<byte>)
    ensures |r| <= n
  {
    if |s| <= n then s else s[..n]
  }

  /** change_state; the bytes of a picture only mean something while it is encoded. */
  function Enter(c: Camera, s: State): Camera {
    c.(state := s, bytes := if s == WaitingJpeg then c.bytes else [])
  }

  /** The TRANSITION macro. */
  function Transition(c: Camera, e: State, s: State): Camera {
    Enter(c, if c.state == e then s else Error)
  }

  predicate IsFailure(reply: Cb) {
    reply.ExitAbort? || reply.ExitDspAbort? || reply.ExitError? || reply.ExitFailed?
  }

  /** receivePreviewFrame: the first frame is dropped, the others go to whoever asked for them. */
  function ReceivePreviewFrame(c: Camera): Camera {
    var c' := c.(previewCount := c.previewCount + 1);
    if c'.previewCount == 1 || !c.cb.data then c'
    else if (c.enabled.preview || c.enabled.video) && !c.previewHeap then c'.(crashed := true)
    else if c.enabled.video && !c.cb.timestamp then c'.(crashed := true)
    else c'
  }

  /** notifyShutter, which does not look whether there is a notify callback, and receiveRawPicture. */
  function SnapshotDone(c: Camera): Camera {
    if c.enabled.shutter && !c.cb.notify then c.(crashed := true)
    else if c.cb.data && !c.rawHeap then c.(crashed := true)
    else c
  }

  /** receiveJpegPictureFragment. */
  function ReceiveFragment(c: Camera, fragment: seq<byte>): Camera {
    if c.heap.None? then c.(crashed := true)
    else c.(bytes := Truncate(c.bytes + fragment, c.heap.value), fragments := c.fragments + [fragment])
  }

  /** receiveJpegPicture. */
  function ReceiveJpeg(c: Camera): Camera {
    if c.heap.None? then c.(crashed := true)
    else
      var d := Delivery(c.pictures, c.fragments, c.heap.value, c.bytes);
      c.(heap := None, rawHeap := false,
         delivered := if c.cb.data && c.enabled.compressed then c.delivered + [d] else c.delivered)
  }

  /** receivePostLpmRawPicture, which starts the encoder. */
  function ReceivePostLpm(c: Camera, encodeOk: bool): Camera {
    if !c.cb.data then c.(rawHeap := false)
    else if encodeOk then c.(bytes := [])
    else Enter(c, Error)
  }

  /** The failed-picture branch: null is delivered in place of the images, and the camera is idle again. */
  function FailedPicture(c: Camera): Camera {
    if c.state != Error then c
    else if (c.enabled.raw || c.enabled.compressed) && !c.cb.data then c.(crashed := true)
    else Enter(c.(nulls := c.nulls + if c.enabled.compressed then 1 else 0), Idle)
  }

  function OnStartPreview(c: Camera, reply: Cb): Camera {
    if reply.RspSuccess? then Transition(c, PreviewRequested, PreviewInProgress)
    else if reply.EvtFrame? && c.state == PreviewInProgress then ReceivePreviewFrame(c)
    else c
  }

  function OnTakePicture(c: Camera, reply: Cb, encodeOk: bool): Camera {
    match reply
    case RspSuccess => Transition(c, RawRequested, WaitingRaw)
    case EvtSnapshotDone => SnapshotDone(c)
    case ExitDone => ReceivePostLpm(Transition(c, WaitingRaw, if c.cb.data then WaitingJpeg else Idle), encodeOk)
    case _ => FailedPicture(c)
  }

  function OnEncode(c: Camera, reply: Cb, fragment: seq<byte>): Camera {
    if c.state != WaitingJpeg then c
    else if reply.ExitBuffer? then ReceiveFragment(c, fragment)
    else if reply.ExitDone? then
      var c' := ReceiveFragment(c, fragment);
      if c'.crashed then c' else Transition(ReceiveJpeg(c'), WaitingJpeg, Idle)
    else c
  }

  /** The state after camera_cb has looked for a failure. */
  function Failing(c: Camera, func: Func, reply: Cb): Camera {
    if IsFailure(reply) && func != Func.StartFocus then Enter(c, Error) else c
  }

  /** camera_cb. */
  function OnCallback(c: Camera, func: Func, reply: Cb, fragment: seq<byte>, encodeOk: bool): Camera {
    var c' := Failing(c, func, reply);
    match func
    case StartPreview => OnStartPreview(c', reply)
    case Start => Transition(c', Init, Idle)
    case StopPreview => Transition(c', PreviewStopping, Idle)
    case TakePicture => OnTakePicture(c', reply, encodeOk)
    case EncodePicture => OnEncode(c', reply, fragment)
    case StartFocus => c'
    case OtherFunc => c'
  }

  /** The part of startPreview from QCS_IDLE to camera_start_preview; initPreview may fail. */
  function BeginPreview(c: Camera, heapOk: bool): Camera {
    if heapOk then Enter(c, PreviewRequested).(previewHeap := true, previewCount := 0, call := PreviewAsked)
    else c.(previewHeap := false, call := NoCall)
  }

  /** The part of takePicture from QCS_IDLE to camera_take_picture; initRaw may fail. */
  function BeginPicture(c: Camera, heapOk: bool, capacity: Option<nat>): Camera {
    if !heapOk || (c.cb.data && capacity.None?) then c.(heap := None, rawHeap := false, call := NoCall)
    else
      Enter(c, RawRequested).(heap := if c.cb.data then capacity else None, rawHeap := true, call := PictureAsked,
                              pictures := c.pictures + 1, begunWithData := c.cb.data, fragments := [])
  }

  predicate TakingPicture(s: State) {
    s == RawRequested || s == WaitingRaw || s == WaitingJpeg
  }

  /** The call that holds the lock goes on, if what it waits for has come. */
  function OnContinue(c: Camera, heapOk: bool, capacity: Option<nat>): Camera {
    var settled := c.state == Idle || c.state == Error;
    var busy := c.state == WaitingRaw || c.state == WaitingJpeg;
    match c.call
    case NoCall => c
    case Starting => if settled then c.(call := NoCall) else c
    case PreviewWanted =>
      if busy then c else if c.state != Idle then c.(call := NoCall) else BeginPreview(c, heapOk)
    case PreviewAsked => if c.state == PreviewInProgress || c.state == Error then c.(call := NoCall) else c
    case PreviewLeaving => if settled then c.(call := NoCall, previewHeap := false) else c
    case PictureLeaving => if settled then c.(call := PictureWanted, previewHeap := false) else c
    case PictureWanted =>
      if busy then c else if c.state != Idle then c.(call := NoCall) else BeginPicture(c, heapOk, capacity)
    case PictureAsked => if settled || busy then c.(call := NoCall) else c
    case Cancelling => if settled then c.(call := NoCall) else c
    case Releasing =>
      if c.state == Stopping then c
      else if c.state == Error then c.(call := NoCall)
      else Enter(c, Init).(call := NoCall)
  }

  /** The library refuses what the call asked for. */
  function OnRefused(c: Camera): Camera {
    match c.call
    case PreviewAsked => Enter(c, Error).(call := NoCall)
    case PreviewLeaving => Enter(c, Error).(call := NoCall, previewHeap := false)
    case PictureLeaving => Enter(c, Error).(call := PictureWanted, previewHeap := false)
    case PictureAsked => Enter(c, Error).(call := NoCall)
    case Releasing => Enter(c, Error).(call := NoCall)
    case _ => c
  }

  /** A call that needs mLock, when it is free. */
  function OnCall(c: Camera, e: Event): Camera {
    if c.call != NoCall then c
    else
      match e
      case SetMessages(enabled) => c.(enabled := enabled)
      case SetParameters(ok, newSize) =>
        if c.state == PreviewInProgress && newSize then Enter(c, PreviewStopping).(call := PreviewLeaving)
        else if c.state == Init && ok then c.(call := Starting)
        else if c.state == Init then Enter(c, Error)
        else c
      case StartPreviewCall => if c.state == PreviewInProgress then c else c.(call := PreviewWanted)
      case StopPreviewCall =>
        if c.state == PreviewInProgress then Enter(c, PreviewStopping).(call := PreviewLeaving) else c
      case TakePictureCall =>
        if c.state == PreviewInProgress then Enter(c, PreviewStopping).(call := PictureLeaving)
        else c.(call := PictureWanted)
      case CancelPictureCall => if TakingPicture(c.state) then c.(call := Cancelling) else c
      case ReleaseCall => if c.state == Init then c else Enter(c, Stopping).(call := Releasing)
      case _ => c
  }

  /** After a null pointer was used nothing happens any more. */
  function Step(c: Camera, e: Event): Camera {
    if c.crashed then c
    else
      match e
      case SetCallbacks(cb) => c.(cb := cb)
      case Continue(heapOk, capacity) => OnContinue(c, heapOk, capacity)
      case Refused => OnRefused(c)
      case StopCallback => Transition(c, Stopping, Init)
      case Callback(func, reply, fragment, encodeOk) => OnCallback(c, func, reply, fragment, encodeOk)
      case _ => OnCall(c, e)
  }

  function Run(c: Camera, events: seq<Event>): Camera {
    if events == [] then c else Step(Run(c, events[..|events| - 1]), events[|events| - 1])
  }

  lemma RunNext(c: Camera, events: seq<Event>, e: Event)
    ensures Run(c, events + [e]) == Step(Run(c, events), e)
  {
    assert (events + [e])[..|events|] == events;
  }

  lemma RunNone(c: Camera)
    ensures Run(c, []) == c
  {
  }

  // ---- What every step keeps ----

  /** A delivered buffer is its picture's fragments, cut off at the capacity of the heap. */
  ghost predicate Whole(d: Delivery) {
    d.bytes == Truncate(Concat(d.fragments), d.capacity)
  }

  /** Deliveries are whole, belong to pictures that were taken, and no two to the same one. */
  ghost predicate Delivered(delivered: seq<Delivery>, pictures: int) {
    && (forall i :: 0 <= i < |delivered| ==> Whole(delivered[i]) && 1 <= delivered[i].picture <= pictures)
    && (forall i, j :: 0 <= i < j < |delivered| ==> delivered[i].picture < delivered[j].picture)
  }

  ghost predicate Inv(c: Camera) {
    && Delivered(c.delivered, c.pictures)
    && (TakingPicture(c.state) ==> Delivered(c.delivered, c.pictures - 1) && c.pictures >= 1)
    && ((c.state == RawRequested || c.state == WaitingRaw) ==> c.fragments == [])
    && (c.state == WaitingJpeg && c.heap.Some? ==> c.bytes == Truncate(Concat(c.fragments), c.heap.value))
    && (c.state == WaitingJpeg && c.heap.None? && !c.crashed ==> c.fragments == [] && c.bytes == [])
    && (c.state != WaitingJpeg ==> c.bytes == [])
  }

  lemma TruncateAgain(s: seq<byte>, t: seq<byte>, n: nat)
    ensures Truncate(Truncate(s, n) + t, n) == Truncate(s + t, n)
  {
    if |s| > n {
      assert (s + t)[..n] == s[..n] == (s[..n] + t)[..n];
    }
  }

  /** Another fragment keeps what the heap holds whole. */
  lemma FragmentKeeps(c: Camera, f: seq<byte>)
    requires Inv(c) && c.state == WaitingJpeg
    ensures Inv(ReceiveFragment(c, f)) && ReceiveFragment(c, f).state == WaitingJpeg
  {
    hide Delivered, Truncate, Concat;
    if c.heap.Some? {
      TruncateAgain(Concat(c.fragments), f, c.heap.value);
      ConcatNext(c.fragments, f);
    }
  }

  lemma DeliveredNext(delivered: seq<Delivery>, pictures: int, d: Delivery)
    requires Delivered(delivered, pictures - 1) && pictures >= 1 && Whole(d) && d.picture == pictures
    ensures Delivered(delivered + [d], pictures)
  {
    hide Whole;
  }

  lemma DeliveredLater(delivered: seq<Delivery>, pictures: int)
    requires Delivered(delivered, pictures)
    ensures Delivered(delivered, pictures + 1)
  {
    hide Whole;
  }

  /** The picture is done: it is delivered whole, once. */
  lemma JpegKeeps(c: Camera)
    requires Inv(c) && c.state == WaitingJpeg && !c.crashed && c.heap.Some?
    ensures Inv(Transition(ReceiveJpeg(c), WaitingJpeg, Idle))
  {
    hide Delivered, Truncate, Concat;
    DeliveredNext(c.delivered, c.pictures, Delivery(c.pictures, c.fragments, c.heap.value, c.bytes));
  }

  lemma EncodeKeeps(c: Camera, reply: Cb, f: seq<byte>)
    requires Inv(c) && !c.crashed
    ensures Inv(OnEncode(c, reply, f))
  {
    hide Delivered, Truncate, Concat;
    if c.state == WaitingJpeg {
      FragmentKeeps(c, f);
      if reply.ExitDone? && c.heap.Some? {
        JpegKeeps(ReceiveFragment(c, f));
      }
    }
  }

  lemma NoFragments(n: nat)
    ensures Truncate(Concat([]), n) == []
  {
  }

  lemma PictureKeeps(c: Camera, reply: Cb, encodeOk: bool)
    requires Inv(c) && !c.crashed
    ensures Inv(OnTakePicture(c, reply, encodeOk))
  {
    hide Delivered, Truncate, Concat, ReceivePostLpm;
    if reply == ExitDone {
      PictureDoneKeeps(c, encodeOk);
    }
  }

  lemma PictureDoneKeeps(c: Camera, encodeOk: bool)
    requires Inv(c) && !c.crashed
    ensures Inv(OnTakePicture(c, ExitDone, encodeOk))
  {
    hide Delivered, Truncate, Concat;
    if c.heap.Some? {
      NoFragments(c.heap.value);
    }
  }

  /** Entering a state outside the taking of a picture keeps the invariant. */
  lemma EnterKeeps(c: Camera, s: State)
    requires Inv(c) && !TakingPicture(s)
    ensures Inv(Enter(c, s))
  {
    hide Delivered, Truncate, Concat;
  }

  lemma PreviewKeeps(c: Camera, reply: Cb)
    requires Inv(c) && !c.crashed
    ensures Inv(OnStartPreview(c, reply))
  {
    hide Delivered, Truncate, Concat;
  }

  lemma CallbackKeeps(c: Camera, func: Func, reply: Cb, f: seq<byte>, encodeOk: bool)
    requires Inv(c) && !c.crashed
    ensures Inv(OnCallback(c, func, reply, f, encodeOk))
  {
    hide Inv, OnTakePicture, OnEncode, OnStartPreview;
    EnterKeeps(c, Error);
    var c' := Failing(c, func, reply);
    EncodeKeeps(c', reply, f);
    PictureKeeps(c', reply, encodeOk);
    PreviewKeeps(c', reply);
    EnterKeeps(c', Error);
    EnterKeeps(c', Idle);
  }

  lemma BeginPictureKeeps(c: Camera, heapOk: bool, capacity: Option<nat>)
    requires Inv(c) && c.state == Idle
    ensures Inv(BeginPicture(c, heapOk, capacity))
  {
    hide Delivered, Truncate, Concat;
    DeliveredLater(c.delivered, c.pictures);
  }

  /** What the invariant does not speak of may change. */
  lemma FlagsKeep(c: Camera, call: Call, previewHeap: bool)
    requires Inv(c)
    ensures Inv(c.(call := call)) && Inv(c.(call := call, previewHeap := previewHeap))
  {
    hide Delivered, Truncate, Concat;
  }

  lemma BeginPreviewKeeps(c: Camera, heapOk: bool)
    requires Inv(c)
    ensures Inv(BeginPreview(c, heapOk))
  {
    hide Delivered, Truncate, Concat;
  }

  lemma ContinueKeeps(c: Camera, heapOk: bool, capacity: Option<nat>)
    requires Inv(c) && !c.crashed
    ensures Inv(OnContinue(c, heapOk, capacity))
  {
    hide Inv, BeginPicture, BeginPreview;
    FlagsKeep(c, NoCall, false);
    FlagsKeep(c, PictureWanted, false);
    EnterKeeps(c, Init);
    FlagsKeep(Enter(c, Init), NoCall, false);
    BeginPreviewKeeps(c, heapOk);
    if c.state == Idle {
      BeginPictureKeeps(c, heapOk, capacity);
    }
  }

  lemma RefusedKeeps(c: Camera)
    requires Inv(c) && !c.crashed
    ensures Inv(OnRefused(c))
  {
    hide Inv;
    EnterKeeps(c, Error);
    FlagsKeep(Enter(c, Error), NoCall, false);
    FlagsKeep(Enter(c, Error), PictureWanted, false);
  }

  lemma CallKeeps(c: Camera, e: Event)
    requires Inv(c) && !c.crashed
    ensures Inv(OnCall(c, e))
  {
    hide Delivered, Truncate, Concat;
  }

  lemma StepKeeps(c: Camera, e: Event)
    requires Inv(c)
    ensures Inv(Step(c, e))
  {
    hide Delivered, OnCallback, OnContinue, OnCall, OnRefused, Truncate, Concat;
    if !c.crashed {
      match e {
        case Callback(func, reply, fragment, encodeOk) =>
          CallbackKeeps(c, func, reply, fragment, encodeOk);
        case Continue(heapOk, capacity) =>
          ContinueKeeps(c, heapOk, capacity);
        case Refused =>
          RefusedKeeps(c);
        case _ =>
          CallKeeps(c, e);
      }
    }
  }

  /** In every run, every delivered buffer is whole, and no picture is delivered twice. */
  lemma {:induction false} RunKeeps(events: seq<Event>)
    ensures Inv(Run(FRESH, events))
  {
    hide Step;
    if events == [] {
      FreshInv();
    } else {
      RunKeeps(events[..|events| - 1]);
      StepKeeps(Run(FRESH, events[..|events| - 1]), events[|events| - 1]);
    }
  }

  lemma FreshInv()
    ensures Inv(FRESH)
  {
  }

  lemma {:induction false} CountDelivered(delivered: seq<Delivery>, pictures: int)
    requires Delivered(delivered, pictures) && pictures >= 0
    ensures |delivered| <= pictures
  {
    hide Whole;
    if delivered != [] {
      var n := |delivered| - 1;
      CountDelivered(delivered[..n], delivered[n].picture - 1);
    }
  }

  /**
    So there are never more deliveries than takePicture calls that reached camera_take_picture; while a
    picture is being taken there are fewer.
  */
  lemma DeliveriesNeverExceedPictures(events: seq<Event>)
    ensures var c := Run(FRESH, events);
            |c.delivered| <= c.pictures - if TakingPicture(c.state) then 1 else 0
    ensures var c := Run(FRESH, events);
            forall d :: d in c.delivered ==> d.bytes == Truncate(Concat(d.fragments), d.capacity)
  {
    hide Run, Truncate, Concat;
    RunKeeps(events);
    var c := Run(FRESH, events);
    CountDelivered(c.delivered, if TakingPicture(c.state) then c.pictures - 1 else c.pictures);
  }

  // ---- QCS_ERROR ----

  lemma PictureInError(c: Camera, reply: Cb, encodeOk: bool)
    requires c.state == Error && !c.crashed
    ensures OnTakePicture(c, reply, encodeOk).state != Error
            <==> reply != RspSuccess && reply != EvtSnapshotDone && reply != ExitDone
                 && (c.cb.data || (!c.enabled.raw && !c.enabled.compressed))
  {
  }

  lemma PreviewInError(c: Camera, reply: Cb, f: seq<byte>)
    requires c.state == Error
    ensures OnStartPreview(c, reply).state == Error && OnEncode(c, reply, f).state == Error
    ensures Enter(c, Error).state == Error
  {
  }

  lemma FailingInError(c: Camera, func: Func, reply: Cb)
    requires c.state == Error
    ensures var c' := Failing(c, func, reply);
            c'.state == Error && c'.cb == c.cb && c'.enabled == c.enabled && c'.crashed == c.crashed
  {
  }

  lemma ErrorCallback(c: Camera, func: Func, reply: Cb, f: seq<byte>, encodeOk: bool)
    requires c.state == Error && !c.crashed
    ensures OnCallback(c, func, reply, f, encodeOk).state != Error
            <==> func == TakePicture && reply != RspSuccess && reply != EvtSnapshotDone && reply != ExitDone
                 && (c.cb.data || (!c.enabled.raw && !c.enabled.compressed))
  {
    hide OnTakePicture, OnStartPreview, OnEncode, Failing, Enter;
    var c' := Failing(c, func, reply);
    FailingInError(c, func, reply);
    PictureInError(c', reply, encodeOk);
    PreviewInError(c', reply, f);
  }

  /** QCS_ERROR is left by a failed-picture callback that does not crash, or by release, and by nothing else. */
  lemma ErrorIsLeftOnly(c: Camera, e: Event)
    requires c.state == Error && !c.crashed
    ensures Step(c, e).state != Error
            <==> (e == ReleaseCall && c.call == NoCall)
                 || (e.Callback? && e.func == TakePicture
                     && e.reply != RspSuccess && e.reply != EvtSnapshotDone && e.reply != ExitDone
                     && (c.cb.data || (!c.enabled.raw && !c.enabled.compressed)))
  {
    hide OnCallback;
    if e.Callback? {
      ErrorCallback(c, e.func, e.reply, e.fragment, e.encodeOk);
    }
  }

  // ---- Null pointers ----

  /** The callback uses a pointer that is null. */
  predicate Misuse(c: Camera, func: Func, reply: Cb) {
    match func
    case TakePicture =>
      if reply == EvtSnapshotDone then (c.enabled.shutter && !c.cb.notify) || (c.cb.data && !c.rawHeap)
      else
        && reply != RspSuccess && reply != ExitDone && (IsFailure(reply) || c.state == Error)
        && (c.enabled.raw || c.enabled.compressed) && !c.cb.data
    case EncodePicture => (reply == ExitBuffer || reply == ExitDone) && c.state == WaitingJpeg && c.heap.None?
    case StartPreview =>
      && reply == EvtFrame && c.state == PreviewInProgress && c.previewCount > 0 && c.cb.data
      && (((c.enabled.preview || c.enabled.video) && !c.previewHeap) || (c.enabled.video && !c.cb.timestamp))
    case _ => false
  }

  /** The heaps that are there when they should be. */
  predicate Heaps(c: Camera) {
    && (TakingPicture(c.state) ==> c.rawHeap && (c.heap.Some? <==> c.begunWithData))
    && (c.state == PreviewRequested || c.state == PreviewInProgress ==> c.previewHeap)
  }

  /** Callbacks that are set stay set, and so does what a picture was begun with. */
  predicate Complete(c: Camera) {
    c.cb == ALL_CALLBACKS && (TakingPicture(c.state) ==> c.begunWithData)
  }

  lemma PreviewCrashes(c: Camera, reply: Cb)
    requires !c.crashed
    ensures OnStartPreview(c, reply).crashed <==> Misuse(c, StartPreview, reply)
    ensures !OnStartPreview(c, reply).crashed && Heaps(c) ==> Heaps(OnStartPreview(c, reply))
    ensures Complete(c) ==> Complete(OnStartPreview(c, reply))
  {
  }

  lemma PictureCrashes(c: Camera, reply: Cb, encodeOk: bool)
    requires !c.crashed && (IsFailure(reply) ==> c.state == Error)
    ensures OnTakePicture(c, reply, encodeOk).crashed <==> Misuse(c, TakePicture, reply)
  {
  }

  lemma PictureHeaps(c: Camera, reply: Cb, encodeOk: bool)
    requires !c.crashed && Heaps(c)
    ensures !OnTakePicture(c, reply, encodeOk).crashed ==> Heaps(OnTakePicture(c, reply, encodeOk))
  {
  }

  lemma PictureComplete(c: Camera, reply: Cb, encodeOk: bool)
    requires Complete(c)
    ensures Complete(OnTakePicture(c, reply, encodeOk))
  {
  }

  lemma EncodeCrashes(c: Camera, reply: Cb, f: seq<byte>)
    requires !c.crashed
    ensures OnEncode(c, reply, f).crashed <==> Misuse(c, EncodePicture, reply)
    ensures !OnEncode(c, reply, f).crashed && Heaps(c) ==> Heaps(OnEncode(c, reply, f))
    ensures Complete(c) ==> Complete(OnEncode(c, reply, f))
  {
    hide Truncate;
  }

  lemma EnterPlain(c: Camera, s: State)
    requires !c.crashed && !TakingPicture(s)
    ensures !Enter(c, s).crashed && (Complete(c) ==> Complete(Enter(c, s)))
    ensures Heaps(c) && s != PreviewRequested && (s == PreviewInProgress ==> c.previewHeap) ==> Heaps(Enter(c, s))
  {
  }

  lemma MisuseFailing(c: Camera, func: Func, reply: Cb)
    requires !c.crashed
    ensures !Failing(c, func, reply).crashed
    ensures Misuse(Failing(c, func, reply), func, reply) <==> Misuse(c, func, reply)
    ensures Heaps(c) ==> Heaps(Failing(c, func, reply))
    ensures Complete(c) ==> Complete(Failing(c, func, reply))
  {
  }

  /** A callback crashes if and only if it uses a null pointer; if it does not, the heaps stay in order. */
  lemma CallbackCrashes(c: Camera, func: Func, reply: Cb, f: seq<byte>, encodeOk: bool)
    requires !c.crashed
    ensures OnCallback(c, func, reply, f, encodeOk).crashed <==> Misuse(c, func, reply)
    ensures !OnCallback(c, func, reply, f, encodeOk).crashed && Heaps(c) ==> Heaps(OnCallback(c, func, reply, f, encodeOk))
    ensures Complete(c) ==> Complete(OnCallback(c, func, reply, f, encodeOk))
  {
    hide OnStartPreview, OnTakePicture, OnEncode, Heaps, Complete, Misuse, Enter;
    MisuseFailing(c, func, reply);
    var c' := Failing(c, func, reply);
    FailedState(c, func, reply);
    match func {
      case StartPreview =>
        PreviewCrashes(c', reply);
      case TakePicture =>
        PictureCrashes(c', reply, encodeOk);
        if Heaps(c') {
          PictureHeaps(c', reply, encodeOk);
        }
        if Complete(c') {
          PictureComplete(c', reply, encodeOk);
        }
      case EncodePicture =>
        EncodeCrashes(c', reply, f);
      case _ =>
        NoMisuse(c', func, reply);
        EnterPlain(c', Error);
        EnterPlain(c', Idle);
    }
  }

  lemma FailedState(c: Camera, func: Func, reply: Cb)
    ensures func != StartFocus && IsFailure(reply) ==> Failing(c, func, reply).state == Error
  {
  }

  lemma NoMisuse(c: Camera, func: Func, reply: Cb)
    requires func != StartPreview && func != TakePicture && func != EncodePicture
    ensures !Misuse(c, func, reply)
  {
  }

  lemma StepCrashes(c: Camera, e: Event)
    requires !c.crashed
    ensures Step(c, e).crashed <==> e.Callback? && Misuse(c, e.func, e.reply)
  {
    hide OnCallback, Misuse;
    if e.Callback? {
      CallbackCrashes(c, e.func, e.reply, e.fragment, e.encodeOk);
    } else {
      OtherCrashes(c, e);
    }
  }

  lemma OtherCrashes(c: Camera, e: Event)
    requires !c.crashed && !e.Callback?
    ensures !Step(c, e).crashed
  {
    hide OnContinue, OnCall, OnRefused;
    match e {
      case Continue(heapOk, capacity) =>
        ContinueCrashes(c, heapOk, capacity);
      case Refused =>
        RefusedCrashes(c);
      case _ =>
        CallCrashes(c, e);
    }
  }

  lemma BeginCrashes(c: Camera, heapOk: bool, capacity: Option<nat>)
    ensures BeginPicture(c, heapOk, capacity).crashed == BeginPreview(c, heapOk).crashed == c.crashed
    ensures Complete(c) && c.state == Idle
            ==> Complete(BeginPicture(c, heapOk, capacity)) && Complete(BeginPreview(c, heapOk))
  {
  }

  lemma ContinueCrashes(c: Camera, heapOk: bool, capacity: Option<nat>)
    requires !c.crashed
    ensures !OnContinue(c, heapOk, capacity).crashed
  {
    hide BeginPicture, BeginPreview;
    BeginCrashes(c, heapOk, capacity);
  }

  lemma RefusedCrashes(c: Camera)
    requires !c.crashed
    ensures !OnRefused(c).crashed
  {
  }

  lemma CallCrashes(c: Camera, e: Event)
    requires !c.crashed
    ensures !OnCall(c, e).crashed
  {
  }

  lemma ContinueHeaps(c: Camera, heapOk: bool, capacity: Option<nat>)
    requires !c.crashed && Heaps(c)
    ensures Heaps(OnContinue(c, heapOk, capacity))
  {
    hide BeginPicture, BeginPreview;
    BeginHeaps(c, heapOk, capacity);
  }

  lemma BeginHeaps(c: Camera, heapOk: bool, capacity: Option<nat>)
    requires !c.crashed && Heaps(c)
    ensures c.state == Idle ==> Heaps(BeginPicture(c, heapOk, capacity)) && Heaps(BeginPreview(c, heapOk))
  {
  }

  lemma ContinueComplete(c: Camera, heapOk: bool, capacity: Option<nat>)
    requires Complete(c)
    ensures Complete(OnContinue(c, heapOk, capacity))
  {
    hide OnContinue, Complete;
    if c.call == PreviewWanted || c.call == PictureWanted {
      WantedComplete(c, heapOk, capacity);
    } else {
      WaitingComplete(c, heapOk, capacity);
    }
  }

  lemma WantedComplete(c: Camera, heapOk: bool, capacity: Option<nat>)
    requires Complete(c) && (c.call == PreviewWanted || c.call == PictureWanted)
    ensures Complete(OnContinue(c, heapOk, capacity))
  {
    hide BeginPicture, BeginPreview;
    BeginCrashes(c, heapOk, capacity);
  }

  lemma WaitingComplete(c: Camera, heapOk: bool, capacity: Option<nat>)
    requires Complete(c) && c.call != PreviewWanted && c.call != PictureWanted
    ensures Complete(OnContinue(c, heapOk, capacity))
  {
    hide BeginPicture, BeginPreview;
  }

  lemma CallHeaps(c: Camera, e: Event)
    requires !c.crashed && Heaps(c)
    ensures Heaps(OnCall(c, e))
  {
  }

  lemma RefusedHeaps(c: Camera)
    requires !c.crashed && Heaps(c)
    ensures Heaps(OnRefused(c))
  {
  }

  lemma CallComplete(c: Camera, e: Event)
    requires Complete(c)
    ensures Complete(OnCall(c, e))
  {
  }

  lemma RefusedComplete(c: Camera)
    requires Complete(c)
    ensures Complete(OnRefused(c))
  {
  }

  lemma StepHeaps(c: Camera, e: Event)
    requires Heaps(c) && !c.crashed
    ensures !Step(c, e).crashed ==> Heaps(Step(c, e))
  {
    hide OnCallback, OnContinue, OnCall, OnRefused;
    match e {
      case Callback(func, reply, fragment, encodeOk) =>
        CallbackCrashes(c, func, reply, fragment, encodeOk);
      case Continue(heapOk, capacity) =>
        ContinueHeaps(c, heapOk, capacity);
      case Refused =>
        RefusedHeaps(c);
      case _ =>
        CallHeaps(c, e);
    }
  }

  /** In every run that has not crashed, a picture being taken has its raw heap, and its JPEG heap if it was begun with a data callback. */
  lemma {:induction false} RunHeaps(events: seq<Event>)
    ensures !Run(FRESH, events).crashed ==> Heaps(Run(FRESH, events))
  {
    hide Step, Heaps;
    if events == [] {
      FreshHeaps();
    } else {
      var before := Run(FRESH, events[..|events| - 1]);
      RunHeaps(events[..|events| - 1]);
      if !before.crashed {
        StepHeaps(before, events[|events| - 1]);
      } else {
        CrashedStays(before, events[|events| - 1]);
      }
    }
  }

  lemma FreshHeaps()
    ensures Heaps(FRESH)
  {
  }

  lemma CrashedStays(c: Camera, e: Event)
    requires c.crashed
    ensures Step(c, e) == c
  {
  }

  /** What remains of a misuse in a run, where the heaps are there when they should be. */
  predicate Misused(c: Camera, e: Event) {
    e.Callback? &&
    match e.func
    case TakePicture =>
      if e.reply == EvtSnapshotDone then (c.enabled.shutter && !c.cb.notify) || (c.cb.data && !c.rawHeap)
      else
        && e.reply != RspSuccess && e.reply != ExitDone && (IsFailure(e.reply) || c.state == Error)
        && (c.enabled.raw || c.enabled.compressed) && !c.cb.data
    case EncodePicture => (e.reply == ExitBuffer || e.reply == ExitDone) && c.state == WaitingJpeg && !c.begunWithData
    case StartPreview =>
      && e.reply == EvtFrame && c.state == PreviewInProgress && c.previewCount > 0
      && c.cb.data && c.enabled.video && !c.cb.timestamp
    case _ => false
  }

  lemma MisusedIs(c: Camera, e: Event)
    requires Heaps(c)
    ensures Misused(c, e) <==> e.Callback? && Misuse(c, e.func, e.reply)
  {
  }

  /**
    A run uses a null pointer if and only if at some point comes one of these: a fragment of a picture
    that was begun without a data callback; a snapshot with no raw heap, or with the shutter message
    but no notify callback; a failed picture with image messages but no data callback; a later preview
    frame with the video message but no timestamp callback.
  */
  lemma {:induction false} CrashesIff(events: seq<Event>)
    ensures Run(FRESH, events).crashed
            <==> exists k :: 0 <= k < |events| && Misused(Run(FRESH, events[..k]), events[k])
  {
    hide Step, Misused;
    if events == [] {
      RunNone(FRESH);
    } else {
      var front, e := events[..|events| - 1], events[|events| - 1];
      var before := Run(FRESH, front);
      CrashesIff(front);
      MisusedInFront(events);
      if before.crashed {
        CrashedStays(before, e);
      } else {
        RunHeaps(front);
        StepCrashes(before, e);
        MisusedIs(before, e);
      }
    }
  }

  lemma MisusedInFront(events: seq<Event>)
    requires events != []
    ensures var n := |events| - 1;
            (exists k :: 0 <= k < |events| && Misused(Run(FRESH, events[..k]), events[k]))
            <==> (exists k :: 0 <= k < n && Misused(Run(FRESH, events[..n][..k]), events[..n][k]))
                 || Misused(Run(FRESH, events[..n]), events[n])
  {
    hide Run, Misused;
    var n := |events| - 1;
    var front := events[..n];
    assert forall k :: 0 <= k < n ==> front[..k] == events[..k] && front[k] == events[k];
  }

  /** All callbacks are set first and none is ever taken away. */
  predicate Registered(events: seq<Event>) {
    && events != [] && events[0] == SetCallbacks(ALL_CALLBACKS)
    && forall i :: 0 <= i < |events| && events[i].SetCallbacks? ==> events[i].cb == ALL_CALLBACKS
  }

  predicate IsSnapshot(e: Event) {
    e.Callback? && e.func == TakePicture && e.reply == EvtSnapshotDone
  }

  lemma StepComplete(c: Camera, e: Event)
    requires Complete(c) && (e.SetCallbacks? ==> e.cb == ALL_CALLBACKS)
    ensures Complete(Step(c, e))
  {
    hide OnCallback, OnContinue, OnCall, OnRefused;
    if !c.crashed {
      match e {
        case Callback(func, reply, fragment, encodeOk) =>
          CallbackCrashes(c, func, reply, fragment, encodeOk);
        case Continue(heapOk, capacity) =>
          ContinueComplete(c, heapOk, capacity);
        case Refused =>
          RefusedComplete(c);
        case _ =>
          CallComplete(c, e);
      }
    }
  }

  lemma {:induction false} RunComplete(events: seq<Event>)
    requires Registered(events)
    ensures Complete(Run(FRESH, events))
  {
    hide Step;
    if |events| == 1 {
      RunNone(FRESH);
      RunNext(FRESH, [], events[0]);
      assert events == [] + [events[0]];
      FirstComplete();
    } else {
      RunComplete(events[..|events| - 1]);
      StepComplete(Run(FRESH, events[..|events| - 1]), events[|events| - 1]);
    }
  }

  lemma FirstComplete()
    ensures Complete(Step(FRESH, SetCallbacks(ALL_CALLBACKS)))
  {
  }

  /**
    With all callbacks set first and never taken away, the only danger is a snapshot that comes when
    there is no raw heap; while a picture is being taken there is one.
  */
  lemma RegisteredCrashesIff(events: seq<Event>)
    requires Registered(events)
    ensures Run(FRESH, events).crashed
            <==> exists k :: 0 <= k < |events| && IsSnapshot(events[k]) && !Run(FRESH, events[..k]).rawHeap
  {
    hide Run;
    CrashesIff(events);
    forall k | 0 <= k < |events|
      ensures Misused(Run(FRESH, events[..k]), events[k])
              <==> IsSnapshot(events[k]) && !Run(FRESH, events[..k]).rawHeap
    {
      if k > 0 {
        assert events[..k][0] == events[0];
        RunComplete(events[..k]);
      }
    }
  }

  /** So if snapshots come only while a picture is being taken, no null pointer is ever used. */
  lemma {:induction false} NeverCrashes(events: seq<Event>)
    requires Registered(events)
    requires forall k :: 0 <= k < |events| && IsSnapshot(events[k]) ==> TakingPicture(Run(FRESH, events[..k]).state)
    ensures !Run(FRESH, events).crashed
  {
    hide Step, Misuse;
    var n := |events| - 1;
    var front := events[..n];
    assert forall k :: 0 <= k < n ==> front[..k] == events[..k];
    if n == 0 {
      RunNone(FRESH);
    } else {
      NeverCrashes(front);
      RunComplete(front);
    }
    RunHeaps(front);
    StepCrashes(Run(FRESH, front), events[n]);
    SafeStep(Run(FRESH, front), events[n]);
  }

  lemma SafeStep(c: Camera, e: Event)
    requires Heaps(c) && (Complete(c) || !e.Callback?)
    requires IsSnapshot(e) ==> TakingPicture(c.state)
    ensures !(e.Callback? && Misuse(c, e.func, e.reply))
  {
  }

  // ---- Two runs that crash ----

  /** The camera is opened and its start callback comes. */
  const OPENED: seq<Event> := [SetParameters(true, false), Callback(Start, RspSuccess, [], true), Continue(true, None)]

  /** takePicture is called, and the camera accepts. */
  const TAKEN: seq<Event> := [TakePictureCall, Continue(true, Some(100)), Callback(TakePicture, RspSuccess, [], true)]

  lemma Opened()
    ensures Run(FRESH, OPENED) == FRESH.(state := Idle)
  {
    hide Run;
    RunNone(FRESH);
    RunNext(FRESH, [], OPENED[0]);
    RunNext(FRESH, [] + [OPENED[0]], OPENED[1]);
    RunNext(FRESH, [] + [OPENED[0]] + [OPENED[1]], OPENED[2]);
    assert OPENED == [] + [OPENED[0]] + [OPENED[1]] + [OPENED[2]];
  }

  /** All callbacks are set, and a snapshot comes although no picture was asked for: the raw heap is null. */
  lemma EarlySnapshotCrashes(frame: seq<byte>, encodeOk: bool)
    ensures Run(FRESH, OPENED + [SetCallbacks(ALL_CALLBACKS)]
                       + [Callback(TakePicture, EvtSnapshotDone, frame, encodeOk)]).crashed
  {
    hide Run;
    Opened();
    RunNext(FRESH, OPENED, SetCallbacks(ALL_CALLBACKS));
    RunNext(FRESH, OPENED + [SetCallbacks(ALL_CALLBACKS)], Callback(TakePicture, EvtSnapshotDone, frame, encodeOk));
  }

  lemma Asked()
    ensures Run(FRESH, OPENED + TAKEN[..2])
            == FRESH.(state := RawRequested, call := PictureAsked, rawHeap := true, pictures := 1)
  {
    hide Run;
    Opened();
    RunNext(FRESH, OPENED, TAKEN[0]);
    RunNext(FRESH, OPENED + [TAKEN[0]], TAKEN[1]);
    assert OPENED + TAKEN[..2] == OPENED + [TAKEN[0]] + [TAKEN[1]];
  }

  lemma TakenWithoutHeap()
    ensures Run(FRESH, OPENED + TAKEN)
            == FRESH.(state := WaitingRaw, call := PictureAsked, rawHeap := true, pictures := 1)
  {
    hide Run;
    Asked();
    RunNext(FRESH, OPENED + TAKEN[..2], TAKEN[2]);
    assert OPENED + TAKEN == (OPENED + TAKEN[..2]) + [TAKEN[2]];
  }

  /** Callbacks that are set while a picture is taken make the first fragment go through a null heap. */
  const LATE_CALLBACKS: seq<Event> :=
    OPENED + TAKEN + [SetCallbacks(ALL_CALLBACKS)] + [Callback(TakePicture, ExitDone, [], true)]

  lemma LateCallbackCrashes(f: seq<byte>, encodeOk: bool)
    ensures Run(FRESH, LATE_CALLBACKS + [Callback(EncodePicture, ExitBuffer, f, encodeOk)]).crashed
  {
    hide Run;
    var before := OPENED + TAKEN;
    TakenWithoutHeap();
    RunNext(FRESH, before, SetCallbacks(ALL_CALLBACKS));
    RunNext(FRESH, before + [SetCallbacks(ALL_CALLBACKS)], Callback(TakePicture, ExitDone, [], true));
    RunNext(FRESH, LATE_CALLBACKS, Callback(EncodePicture, ExitBuffer, f, encodeOk));
  }
}
