/** The object behind the camera state machine: SprdCameraHardware in SprdCameraHardwareInterface.cpp. */
module SprdCamera {
  import opened Bytes
  import opened CameraSteps
  import opened Wrappers

  class SprdCameraHardware {
    var cameraState: State
    /** Which API call holds mLock. */
    var call: Call
    var callbacks: Callbacks
    var msgEnabled: Messages
    var hasPreviewHeap: bool
    var previewCount: nat
    var hasRawHeap: bool
    var jpegHeap: array?<byte>
    var jpegSize: nat
    var crashed: bool
    ghost var pictures: nat
    ghost var begunWithData: bool
    ghost var fragments: seq<seq<byte>>
    ghost var delivered: seq<Delivery>
    ghost var nulls: nat

    /** While a picture is encoded, what was received fits the heap. */
    ghost predicate Valid()
      reads this
    {
      && (cameraState == WaitingJpeg && jpegHeap != null ==> jpegSize <= jpegHeap.Length)
      && (cameraState == WaitingJpeg && jpegHeap == null ==> jpegSize == 0)
    }

    ghost function View(): Camera
      requires Valid()
      reads this, jpegHeap
    {
      Camera(cameraState, call, callbacks, msgEnabled, hasPreviewHeap, previewCount, hasRawHeap,
             if jpegHeap == null then None else Some(jpegHeap.Length),
             if cameraState == WaitingJpeg && jpegHeap != null then jpegHeap[..jpegSize] else [],
             crashed, pictures, begunWithData, fragments, delivered, nulls)
    }

    constructor ()
      ensures Valid() && View() == FRESH && jpegHeap == null
    {
      cameraState, call, callbacks, msgEnabled := Init, NoCall, NO_CALLBACKS, NO_MESSAGES;
      hasPreviewHeap, previewCount, hasRawHeap := false, 0, false;
      jpegHeap, jpegSize, crashed := null, 0, false;
      pictures, begunWithData, fragments, delivered, nulls := 0, false, [], [], 0;
    }

    /** change_state. */
    method ChangeState(s: State)
      requires Valid() && (s == WaitingJpeg ==> cameraState == WaitingJpeg)
      modifies this`cameraState
      ensures Valid() && View() == Enter(old(View()), s)
    {
      cameraState := s;
    }

    /** The TRANSITION macro. */
    method Transition(e: State, s: State)
      requires Valid() && s != WaitingJpeg
      modifies this`cameraState
      ensures Valid() && View() == CameraSteps.Transition(old(View()), e, s)
    {
      ChangeState(if cameraState == e then s else Error);
    }

    /** Which call holds mLock from here on. */
    method Hold(next: Call)
      requires Valid()
      modifies this`call
      ensures Valid() && View() == old(View()).(call := next)
    {
      call := next;
    }

    method ReceivePreviewFrame()
      requires Valid() && !crashed && cameraState == PreviewInProgress
      modifies this`previewCount, this`crashed
      ensures Valid() && View() == CameraSteps.ReceivePreviewFrame(old(View()))
    {
      previewCount := previewCount + 1;
      if previewCount == 1 {
        return;
      }
      if callbacks.data {
        if msgEnabled.preview && !hasPreviewHeap {
          crashed := true;
          return;
        }
        if msgEnabled.video {
          if !hasPreviewHeap || !callbacks.timestamp {
            crashed := true;
          }
        }
      }
    }

    /** notifyShutter and receiveRawPicture. */
    method TakeSnapshot()
      requires Valid() && !crashed
      modifies this`crashed
      ensures Valid() && View() == SnapshotDone(old(View()))
    {
      if msgEnabled.shutter {
        if !callbacks.notify {
          crashed := true;
          return;
        }
      }
      if callbacks.data {
        if !hasRawHeap {
          crashed := true;
        }
      }
    }

    method ReceiveJpegPictureFragment(fragment: seq<byte>)
      requires Valid() && cameraState == WaitingJpeg && !crashed
      modifies this`crashed, this`jpegSize, this`fragments, jpegHeap
      ensures Valid() && View() == ReceiveFragment(old(View()), fragment)
    {
      if jpegHeap == null {
        crashed := true;
        return;
      }
      ghost var before := jpegHeap[..jpegSize];
      var size := |fragment|;
      var remaining := jpegHeap.Length - jpegSize;
      if size > remaining {
        size := remaining;
      }
      forall i | 0 <= i < size {
        jpegHeap[jpegSize + i] := fragment[i];
      }
      jpegSize := jpegSize + size;
      fragments := fragments + [fragment];
      assert jpegHeap[..jpegSize] == before + fragment[..size];
      assert Truncate(before + fragment, jpegHeap.Length) == before + fragment[..size];
    }

    /** receiveJpegPicture, and the transition behind it. */
    method ReceiveJpegPicture()
      requires Valid() && cameraState == WaitingJpeg && jpegHeap != null && !crashed
      modifies this`jpegHeap, this`hasRawHeap, this`delivered, this`cameraState
      ensures Valid() && jpegHeap == null
      ensures View() == CameraSteps.Transition(ReceiveJpeg(old(View())), WaitingJpeg, Idle)
    {
      if callbacks.data {
        var buffer := jpegHeap[..jpegSize];
        if msgEnabled.compressed {
          delivered := delivered + [Delivery(pictures, fragments, jpegHeap.Length, buffer)];
        }
      }
      jpegHeap := null;
      hasRawHeap := false;
      cameraState := if cameraState == WaitingJpeg then Idle else Error;
    }

    /** The CAMERA_EXIT_CB_DONE of a picture: the transition, and receivePostLpmRawPicture. */
    method PictureDone(encodeOk: bool)
      requires Valid() && !crashed
      modifies this`cameraState, this`jpegSize, this`hasRawHeap
      ensures Valid() && View() == OnTakePicture(old(View()), ExitDone, encodeOk)
    {
      cameraState := if cameraState == WaitingRaw then (if callbacks.data then WaitingJpeg else Idle) else Error;
      if callbacks.data {
        jpegSize := 0;
        if !encodeOk {
          cameraState := Error;
        }
      } else {
        hasRawHeap := false;
      }
    }

    /** In QCS_ERROR a picture ends: null stands in for each image that was asked for. */
    method PictureFailed()
      requires Valid() && !crashed
      modifies this`crashed, this`nulls, this`cameraState
      ensures Valid() && View() == FailedPicture(old(View()))
    {
      if cameraState == Error {
        if (msgEnabled.raw || msgEnabled.compressed) && !callbacks.data {
          crashed := true;
          return;
        }
        if msgEnabled.compressed {
          nulls := nulls + 1;
        }
        ChangeState(Idle);
      }
    }

    method OnTakePictureCallback(reply: Cb, encodeOk: bool)
      requires Valid() && !crashed
      modifies this
      ensures Valid() && View() == OnTakePicture(old(View()), reply, encodeOk)
      ensures jpegHeap == old(jpegHeap)
    {
      hide Valid, FailedPicture, ReceivePostLpm, SnapshotDone, CameraSteps.Transition;
      match reply {
        case RspSuccess => Transition(RawRequested, WaitingRaw);
        case EvtSnapshotDone => TakeSnapshot();
        case ExitDone => PictureDone(encodeOk);
        case _ => PictureFailed();
      }
    }

    method OnStartPreviewCallback(reply: Cb)
      requires Valid() && !crashed
      modifies this
      ensures Valid() && View() == OnStartPreview(old(View()), reply)
      ensures jpegHeap == old(jpegHeap)
    {
      hide Valid, CameraSteps.ReceivePreviewFrame, CameraSteps.Transition;
      match reply {
        case RspSuccess => Transition(PreviewRequested, PreviewInProgress);
        case EvtFrame =>
          if cameraState == PreviewInProgress {
            ReceivePreviewFrame();
          }
        case _ =>
      }
    }

    method OnEncodeCallback(reply: Cb, fragment: seq<byte>)
      requires Valid() && !crashed
      modifies this, jpegHeap
      ensures Valid() && View() == OnEncode(old(View()), reply, fragment)
      ensures jpegHeap == null || jpegHeap == old(jpegHeap)
    {
      match reply {
        case ExitBuffer =>
          if cameraState == WaitingJpeg {
            ReceiveJpegPictureFragment(fragment);
          }
        case ExitDone =>
          if cameraState == WaitingJpeg {
            ReceiveJpegPictureFragment(fragment);
            if crashed {
              return;
            }
            ReceiveJpegPicture();
          }
        case _ =>
      }
    }

    method CameraCb(func: Func, reply: Cb, fragment: seq<byte>, encodeOk: bool)
      requires Valid() && !crashed
      modifies this, jpegHeap
      ensures Valid() && View() == OnCallback(old(View()), func, reply, fragment, encodeOk)
      ensures jpegHeap == null || jpegHeap == old(jpegHeap)
    {
      hide OnTakePicture, OnEncode, OnStartPreview;
      if IsFailure(reply) {
        if func != Func.StartFocus {
          ChangeState(Error);
        }
      }
      match func {
        case StartPreview => OnStartPreviewCallback(reply);
        case Start => Transition(Init, Idle);
        case StopPreview => Transition(PreviewStopping, Idle);
        case TakePicture => OnTakePictureCallback(reply, encodeOk);
        case EncodePicture => OnEncodeCallback(reply, fragment);
        case StartFocus =>
        case OtherFunc =>
      }
    }

    /** initPreview: its heap, and the count of frames if that is there. */
    method InitPreview(heapOk: bool)
      requires Valid()
      modifies this`hasPreviewHeap, this`previewCount
      ensures Valid()
      ensures View() == old(View()).(previewHeap := heapOk, previewCount := if heapOk then 0 else old(previewCount))
    {
      hasPreviewHeap := heapOk;
      if heapOk {
        previewCount := 0;
      }
    }

    /** startPreviewInternal from QCS_IDLE to its call of camera_start_preview, with initPreview. */
    method BeginPreview(heapOk: bool)
      requires Valid() && !crashed && cameraState == Idle
      modifies this`hasPreviewHeap, this`previewCount, this`cameraState, this`call
      ensures Valid() && View() == CameraSteps.BeginPreview(old(View()), heapOk)
    {
      InitPreview(heapOk);
      hide View, Valid;
      if !heapOk {
        Hold(NoCall);
        return;
      }
      ChangeState(PreviewRequested);
      Hold(PreviewAsked);
    }

    /** initRaw(mData_cb != NULL), once the camera is idle: the raw heap, and the JPEG heap if it will be needed. */
    method InitRaw(heapOk: bool, capacity: Option<nat>) returns (ok: bool)
      requires Valid() && !crashed && cameraState == Idle
      modifies this`hasRawHeap, this`jpegHeap
      ensures Valid() && (jpegHeap == null || fresh(jpegHeap))
      ensures ok <==> heapOk && (callbacks.data ==> capacity.Some?)
      ensures View() == old(View()).(heap := if ok && callbacks.data then capacity else None, rawHeap := ok)
    {
      jpegHeap := null;
      hasRawHeap := heapOk;
      ok := heapOk;
      if heapOk && callbacks.data {
        if capacity.None? {
          hasRawHeap := false;
          return false;
        }
        jpegHeap := new byte[capacity.value];
      }
    }

    /** takePicture from QCS_IDLE to its call of camera_take_picture. */
    method BeginTakePicture(heapOk: bool, capacity: Option<nat>)
      requires Valid() && !crashed && cameraState == Idle
      modifies this
      ensures Valid() && View() == BeginPicture(old(View()), heapOk, capacity)
      ensures jpegHeap == null || fresh(jpegHeap)
    {
      var ok := InitRaw(heapOk, capacity);
      assert old(View()).cb == View().cb == callbacks && old(View()).pictures == pictures;
      hide View, Valid;
      if !ok {
        Hold(NoCall);
        return;
      }
      ChangeState(RawRequested);
      Hold(PictureAsked);
      MarkPicture();
    }

    /** From here the picture counts. */
    method MarkPicture()
      requires Valid()
      modifies this`pictures, this`begunWithData, this`fragments
      ensures Valid()
      ensures View() == old(View()).(pictures := old(pictures) + 1, begunWithData := callbacks.data, fragments := [])
    {
      pictures, begunWithData, fragments := pictures + 1, callbacks.data, [];
    }

    /** startPreview and takePicture before they ask the camera: they wait while a picture is being taken. */
    method ProceedWanted(heapOk: bool, capacity: Option<nat>)
      requires Valid() && !crashed && (call == PreviewWanted || call == PictureWanted)
      modifies this
      ensures Valid() && View() == OnContinue(old(View()), heapOk, capacity)
      ensures jpegHeap == null || jpegHeap == old(jpegHeap) || fresh(jpegHeap)
    {
      assert View().state == cameraState && View().call == call;
      hide CameraSteps.BeginPreview, BeginPicture, View, Valid;
      if cameraState == WaitingRaw || cameraState == WaitingJpeg {
        return;
      }
      if cameraState != Idle {
        Hold(NoCall);
      } else if call == PreviewWanted {
        BeginPreview(heapOk);
      } else {
        BeginTakePicture(heapOk, capacity);
      }
    }

    /** release behind its wait. */
    method ProceedRelease(heapOk: bool, capacity: Option<nat>)
      requires Valid() && !crashed && call == Releasing
      modifies this`cameraState, this`call
      ensures Valid() && View() == OnContinue(old(View()), heapOk, capacity)
    {
      assert View().state == cameraState && View().call == call;
      hide View, Valid;
      if cameraState != Stopping {
        if cameraState != Error {
          ChangeState(Init);
        }
        Hold(NoCall);
      }
    }

    /** The waits of the API calls. */
    method Proceed(heapOk: bool, capacity: Option<nat>)
      requires Valid() && !crashed
      modifies this
      ensures Valid() && View() == OnContinue(old(View()), heapOk, capacity)
      ensures jpegHeap == null || jpegHeap == old(jpegHeap) || fresh(jpegHeap)
    {
      if call == PreviewWanted || call == PictureWanted {
        ProceedWanted(heapOk, capacity);
      } else if call == Releasing {
        ProceedRelease(heapOk, capacity);
      } else {
        ProceedAsked(heapOk, capacity);
      }
    }

    /** The calls that wait for the camera to have done what it was asked. */
    method ProceedAsked(heapOk: bool, capacity: Option<nat>)
      requires Valid() && !crashed && call != PreviewWanted && call != PictureWanted && call != Releasing
      modifies this`call, this`hasPreviewHeap
      ensures Valid() && View() == OnContinue(old(View()), heapOk, capacity)
    {
      assert View().state == cameraState && View().call == call;
      hide View, Valid;
      var settled := cameraState == Idle || cameraState == Error;
      if call == PreviewAsked {
        if cameraState == PreviewInProgress || cameraState == Error {
          Hold(NoCall);
        }
      } else if call == PictureAsked {
        if settled || cameraState == WaitingRaw || cameraState == WaitingJpeg {
          Hold(NoCall);
        }
      } else if call == PreviewLeaving || call == PictureLeaving {
        if settled {
          PreviewLeft(if call == PictureLeaving then PictureWanted else NoCall);
        }
      } else if settled {
        Hold(NoCall);
      }
    }

    /** stopPreviewInternal behind its wait drops the preview heap. */
    method PreviewLeft(next: Call)
      requires Valid()
      modifies this`call, this`hasPreviewHeap
      ensures Valid() && View() == old(View()).(call := next, previewHeap := false)
    {
      hasPreviewHeap, call := false, next;
    }

    /** The call into the camera library fails. */
    method Refuse()
      requires Valid() && !crashed
      modifies this
      ensures Valid() && View() == OnRefused(old(View())) && jpegHeap == old(jpegHeap)
    {
      assert View().call == call;
      hide View, Valid;
      match call {
        case PreviewAsked =>
          ChangeState(Error);
          Hold(NoCall);
        case PreviewLeaving =>
          ChangeState(Error);
          PreviewLeft(NoCall);
        case PictureLeaving =>
          ChangeState(Error);
          PreviewLeft(PictureWanted);
        case PictureAsked =>
          ChangeState(Error);
          Hold(NoCall);
        case Releasing =>
          ChangeState(Error);
          Hold(NoCall);
        case _ =>
      }
    }

    /** stopPreviewInternal up to its wait, on behalf of one call or another. */
    method LeavePreview(next: Call)
      requires Valid() && cameraState == PreviewInProgress
      modifies this`cameraState, this`call
      ensures Valid() && View() == Enter(old(View()), PreviewStopping).(call := next)
    {
      hide View, Valid;
      ChangeState(PreviewStopping);
      Hold(next);
    }

    /** setParameters stops a preview of another size, and starts the camera if it was never started. */
    method BeginSetParameters(ok: bool, newSize: bool)
      requires Valid() && !crashed && call == NoCall
      modifies this`cameraState, this`call
      ensures Valid() && View() == OnCall(old(View()), SetParameters(ok, newSize))
    {
      assert View().state == cameraState && View().call == call;
      hide View, Valid;
      if cameraState == PreviewInProgress && newSize {
        LeavePreview(PreviewLeaving);
      } else if cameraState == Init {
        if ok {
          Hold(Starting);
        } else {
          ChangeState(Error);
        }
      }
    }

    /** enableMsgType and disableMsgType. */
    method EnableMsgs(enabled: Messages)
      requires Valid()
      modifies this`msgEnabled
      ensures Valid() && View() == old(View()).(enabled := enabled)
    {
      msgEnabled := enabled;
    }

    /** The start of an API call, when mLock is free. */
    method BeginCall(e: Event)
      requires Valid() && !crashed
      modifies this
      ensures Valid() && View() == OnCall(old(View()), e) && jpegHeap == old(jpegHeap)
    {
      assert View().state == cameraState && View().call == call;
      hide View, Valid;
      if call != NoCall {
        return;
      }
      match e {
        case SetMessages(enabled) =>
          EnableMsgs(enabled);
        case SetParameters(ok, newSize) =>
          BeginSetParameters(ok, newSize);
        case StartPreviewCall =>
          if cameraState != PreviewInProgress {
            Hold(PreviewWanted);
          }
        case StopPreviewCall =>
          if cameraState == PreviewInProgress {
            LeavePreview(PreviewLeaving);
          }
        case TakePictureCall =>
          if cameraState == PreviewInProgress {
            LeavePreview(PictureLeaving);
          } else {
            Hold(PictureWanted);
          }
        case CancelPictureCall =>
          if TakingPicture(cameraState) {
            Hold(Cancelling);
          }
        case ReleaseCall =>
          if cameraState != Init {
            ChangeState(Stopping);
            Hold(Releasing);
          }
        case _ =>
      }
    }

    method SetCallbacks(cb: Callbacks)
      requires Valid()
      modifies this`callbacks
      ensures Valid() && View() == old(View()).(cb := cb)
    {
      callbacks := cb;
    }

    /** One event of a run. */
    method Handle(e: Event)
      requires Valid()
      modifies this, jpegHeap
      ensures Valid() && View() == Step(old(View()), e)
      ensures jpegHeap == null || jpegHeap == old(jpegHeap) || fresh(jpegHeap)
    {
      assert View().crashed == crashed;
      hide OnCallback, OnContinue, OnCall, OnRefused, View, Valid, CameraSteps.Transition;
      if crashed {
        return;
      }
      match e {
        case SetCallbacks(cb) => SetCallbacks(cb);
        case Continue(heapOk, capacity) => Proceed(heapOk, capacity);
        case Refused => Refuse();
        case StopCallback => Transition(Stopping, Init);
        case Callback(func, reply, fragment, encodeOk) => CameraCb(func, reply, fragment, encodeOk);
        case _ => BeginCall(e);
      }
    }
  }

  /** A run of the object is a run of the state machine. */
  method Session(camera: SprdCameraHardware, events: seq<Event>)
    requires camera.Valid() && camera.View() == FRESH && camera.jpegHeap == null
    modifies camera
    ensures camera.Valid() && camera.View() == Run(FRESH, events)
  {
    hide Step;
    var n := 0;
    while n < |events|
      invariant 0 <= n <= |events|
      invariant camera.Valid() && camera.View() == Run(FRESH, events[..n])
      invariant camera.jpegHeap == null || fresh(camera.jpegHeap)
    {
      assert events[..n + 1][..n] == events[..n];
      camera.Handle(events[n]);
      n := n + 1;
    }
    assert events[..n] == events;
  }
}
