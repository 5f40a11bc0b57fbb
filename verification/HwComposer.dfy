/** Layer assignment of common/libs/hwcomposer/hwcomposer.cpp: hwc_prepare and the selection of hwc_set. */
module HwComposer {
  import opened OverlayRects
  import opened Sequences
  import opened Wrappers

  /** The pixel formats the code tells apart. */
  datatype Format = RGBA_8888 | YCbCr_420_SP | YCrCb_420_SP | YV12 | OtherFormat

  /** `private_handle_t`: format, size, and the flags USES_PHY and NOT_OVERLAY. */
  datatype Handle = Handle(format: Format, width: int, height: int, usesPhy: bool, notOverlay: bool)

  datatype Frame = Frame(left: int, top: int, right: int, bottom: int)

  /** `hwc_layer_t` without its composition type. `blended`: the blending is not HWC_BLENDING_NONE. */
  datatype Layer = Layer(skip: bool, handle: Option<Handle>, crop: Frame, display: Frame, transform: nat, blended: bool)

  /** A rectangle of `uint32_t`. */
  datatype Rect = Rect(x: int, y: int, w: int, h: int)

  datatype Image = Image(format: Format, w: int, h: int)

  datatype Rects = Rects(img: Image, src: Rect, fb: Rect)

  datatype Composition = Framebuffer | Overlay

  /** What is_overlay_supportted answers: 0, SPRD_LAYERS_IMG or SPRD_LAYERS_OSD. */
  datatype Support = Unsupported | Img | Osd

  /** The build switches USE_GPU_PROCESS_VIDEO, _ALLOC_OSD_BUF and _DMA_COPY_OSD_LAYER. */
  datatype Build = Build(gpuVideo: bool, allocOsdBuf: bool, dmaCopyOsd: bool)

  const FLIP_H := 1
  const FLIP_V := 2
  const ROT_90 := 4

  /** `(transform & HAL_TRANSFORM_ROT_90) == HAL_TRANSFORM_ROT_90`. */
  predicate Rotated(transform: nat) {
    transform / ROT_90 % 2 == 1
  }

  function SrcMask(build: Build): nat {
    if build.gpuVideo then 0 else 3
  }

  predicate SmallFrame(f: Frame) {
    Small(f.left) && Small(f.top) && Small(f.right) && Small(f.bottom)
  }

  /** Coordinates and sizes too small for 32 bits to overflow. */
  predicate SmallLayer(l: Layer) {
    && SmallFrame(l.crop) && SmallFrame(l.display)
    && (l.handle.Some? ==> 0 <= l.handle.value.width < LIMIT && 0 <= l.handle.value.height < LIMIT)
  }

  // ---- The decision, on integers ----

  /** Does the layer get past the early exits of verify_video_layer, so that its rectangles are stored? */
  predicate Stores(l: Layer) {
    && !l.skip && l.handle.Some?
    && l.handle.value.usesPhy && !l.handle.value.notOverlay
    && (l.handle.value.format == YCbCr_420_SP || l.handle.value.format == YCrCb_420_SP || l.handle.value.format == YV12)
    && !l.blended
    && l.transform != FLIP_V && l.transform != ROT_90 + FLIP_H && l.transform != ROT_90 + FLIP_V
  }

  function SrcX(b: Build, l: Layer): Span requires l.handle.Some? {
    SourceSpan(l.crop.left, l.crop.right, l.handle.value.width, SrcMask(b))
  }

  function SrcY(b: Build, l: Layer): Span requires l.handle.Some? {
    SourceSpan(l.crop.top, l.crop.bottom, l.handle.value.height, SrcMask(b))
  }

  function FbX(l: Layer, fbWidth: int): Span {
    TargetSpan(l.display.left, l.display.right, fbWidth, !Rotated(l.transform))
  }

  function FbY(l: Layer, fbHeight: int): Span {
    TargetSpan(l.display.top, l.display.bottom, fbHeight, Rotated(l.transform))
  }

  /** The rectangles stored for a layer. */
  function StoredRects(b: Build, l: Layer, fbWidth: int, fbHeight: int): Rects
    requires l.handle.Some?
  {
    var h := l.handle.value;
    Rects(Image(h.format, U32(h.width), U32(h.height)),
          Rect(SrcX(b, l).start, SrcY(b, l).start, U32(SrcX(b, l).extent), U32(SrcY(b, l).extent)),
          Rect(FbX(l, fbWidth).start, FbY(l, fbHeight).start, U32(FbX(l, fbWidth).extent), U32(FbY(l, fbHeight).extent)))
  }

  /** Is one side scaled by no less than a quarter and no more than four? */
  predicate Scales(src: int, dest: int) {
    dest <= 4 * src && src <= 4 * dest
  }

  /** The video decision on true integers: no wrapped value is ever accepted. */
  predicate VideoFits(b: Build, l: Layer, fbWidth: int, fbHeight: int)
    requires l.handle.Some?
  {
    var (sw, sh) := (SrcX(b, l).extent, SrcY(b, l).extent);
    var (dw, dh) := (FbX(l, fbWidth).extent, FbY(l, fbHeight).extent);
    && 4 <= sw && 4 <= sh && 4 <= dw <= 960 && 4 <= dh <= 960
    && if Rotated(l.transform) then Scales(sw, dh) && Scales(sh, dw) else Scales(sw, dw) && Scales(sh, dh)
  }

  predicate IsVideo(b: Build, l: Layer, fbWidth: int, fbHeight: int) {
    Stores(l) && VideoFits(b, l, fbWidth, fbHeight)
  }

  /** A frame reaches over the whole of a buffer or screen. */
  predicate Covers(f: Frame, width: int, height: int) {
    f.left <= 0 && f.top <= 0 && f.right >= width && f.bottom >= height
  }

  /** The OSD decision: the whole of a screen-sized buffer on the whole screen, upright or turned by 90 or 270. */
  predicate IsOsd(b: Build, l: Layer, fbWidth: int, fbHeight: int) {
    && !l.skip && l.handle.Some? && l.handle.value.format == RGBA_8888
    && (var h := l.handle.value;
        && (!b.allocOsdBuf ==> l.transform == 0 && h.usesPhy)
        && (l.transform == 0 ==> h.width == fbWidth && h.height == fbHeight && (b.dmaCopyOsd || h.usesPhy))
        && (l.transform != 0 ==>
              Rotated(l.transform) && h.width == fbHeight && h.height == fbWidth && h.usesPhy)
        && Covers(l.crop, h.width, h.height))
    && Covers(l.display, fbWidth, fbHeight)
  }

  /** An accepted video layer stays inside its image and the screen, within the limits of the scaler. */
  lemma AcceptedVideo(b: Build, l: Layer, fbWidth: int, fbHeight: int)
    requires SmallLayer(l) && 0 <= fbWidth < LIMIT && 0 <= fbHeight < LIMIT
    requires IsVideo(b, l, fbWidth, fbHeight)
    ensures var r := StoredRects(b, l, fbWidth, fbHeight);
            && r.img == Image(l.handle.value.format, l.handle.value.width, l.handle.value.height)
            && 0 <= r.src.x && 4 <= r.src.w && r.src.x + r.src.w <= r.img.w
            && 0 <= r.src.y && 4 <= r.src.h && r.src.y + r.src.h <= r.img.h
            && 0 <= r.fb.x && 4 <= r.fb.w <= 960 && r.fb.x + r.fb.w <= fbWidth
            && 0 <= r.fb.y && 4 <= r.fb.h <= 960 && r.fb.y + r.fb.h <= fbHeight
            && (if Rotated(l.transform) then Scales(r.src.w, r.fb.h) && Scales(r.src.h, r.fb.w)
                else Scales(r.src.w, r.fb.w) && Scales(r.src.h, r.fb.h))
            && (fbWidth % 4 == 0 ==> r.fb.w % 4 == 0)
            && (fbHeight % 4 == 0 ==> r.fb.h % 4 == 0)
  {
    hide U32, SourceSpan, TargetSpan;
    SourceInside(l.crop.left, l.crop.right, l.handle.value.width, SrcMask(b));
    SourceInside(l.crop.top, l.crop.bottom, l.handle.value.height, SrcMask(b));
    TargetInside(l.display.left, l.display.right, fbWidth, !Rotated(l.transform));
    TargetInside(l.display.top, l.display.bottom, fbHeight, Rotated(l.transform));
    SmallWord(l.handle.value.width);
    SmallWord(l.handle.value.height);
    SmallWord(SrcX(b, l).extent);
    SmallWord(SrcY(b, l).extent);
    SmallWord(FbX(l, fbWidth).extent);
    SmallWord(FbY(l, fbHeight).extent);
  }

  /** Start and extent of a source axis: the crop inside the image, rounded up. */
  ghost predicate ShowsSource(x: int, w: int, lo: int, hi: int, size: int, mask: nat) {
    && Rounded(x, if lo > 0 then lo else 0, mask, size)
    && Rounded(w, (if hi < size then hi else size) - x, mask, size - x)
  }

  /** Start and extent of a destination axis: the frame on the screen, rounded up. */
  ghost predicate ShowsTarget(x: int, w: int, lo: int, hi: int, size: int, alignStart: bool) {
    && Rounded(x, if lo > 0 then lo else 0, if alignStart then 3 else 0, size)
    && Rounded(w, (if hi < size then hi else size) - x, 3, size - (x + (-x) % 4))
  }

  /** The rectangles are the layer's crop and frame, axis by axis; a rotated layer starts aligned vertically. */
  ghost predicate Shows(r: Rects, b: Build, l: Layer, fbWidth: int, fbHeight: int)
    requires l.handle.Some?
  {
    var h, mask, rotated := l.handle.value, if b.gpuVideo then 0 else 3, l.transform / 4 % 2 == 1;
    && r.img == Image(h.format, h.width, h.height)
    && ShowsSource(r.src.x, r.src.w, l.crop.left, l.crop.right, h.width, mask)
    && ShowsSource(r.src.y, r.src.h, l.crop.top, l.crop.bottom, h.height, mask)
    && ShowsTarget(r.fb.x, r.fb.w, l.display.left, l.display.right, fbWidth, !rotated)
    && ShowsTarget(r.fb.y, r.fb.h, l.display.top, l.display.bottom, fbHeight, rotated)
  }

  /** The rectangles of an accepted layer are where its crop and frame say. */
  lemma AcceptedShows(b: Build, l: Layer, fbWidth: int, fbHeight: int)
    requires SmallLayer(l) && 0 <= fbWidth < LIMIT && 0 <= fbHeight < LIMIT
    requires IsVideo(b, l, fbWidth, fbHeight)
    ensures Shows(StoredRects(b, l, fbWidth, fbHeight), b, l, fbWidth, fbHeight)
  {
    hide U32, SourceSpan, TargetSpan, Rounded;
    var h := l.handle.value;
    AcceptedVideo(b, l, fbWidth, fbHeight);
    SourceLies(l.crop.left, l.crop.right, h.width, SrcMask(b));
    SourceLies(l.crop.top, l.crop.bottom, h.height, SrcMask(b));
    TargetLies(l.display.left, l.display.right, fbWidth, !Rotated(l.transform));
    TargetLies(l.display.top, l.display.bottom, fbHeight, Rotated(l.transform));
    SourceInside(l.crop.left, l.crop.right, h.width, SrcMask(b));
    SourceInside(l.crop.top, l.crop.bottom, h.height, SrcMask(b));
    TargetInside(l.display.left, l.display.right, fbWidth, !Rotated(l.transform));
    TargetInside(l.display.top, l.display.bottom, fbHeight, Rotated(l.transform));
    SmallWord(SrcX(b, l).extent);
    SmallWord(SrcY(b, l).extent);
    SmallWord(FbX(l, fbWidth).extent);
    SmallWord(FbY(l, fbHeight).extent);
  }

  // ---- What is accepted ----

  /** The frame lies in a `width` by `height` rectangle. */
  predicate Inside(f: Frame, width: int, height: int) {
    0 <= f.left <= f.right <= width && 0 <= f.top <= f.bottom <= height
  }

  predicate Fourfold(f: Frame) {
    f.left % 4 == 0 && f.right % 4 == 0 && f.top % 4 == 0 && f.bottom % 4 == 0
  }

  /**
    A layer that lies inside image and screen on multiples of four is a video layer if and only if it is
    of a video format in physical memory, opaque, not mirrored in one of three ways, and its sides are
    within the limits of the scaler.
  */
  lemma AlignedVideoIff(b: Build, l: Layer, fbWidth: int, fbHeight: int)
    requires !l.skip && l.handle.Some?
    requires Inside(l.crop, l.handle.value.width, l.handle.value.height) && Inside(l.display, fbWidth, fbHeight)
    requires Fourfold(l.crop) && Fourfold(l.display)
    ensures KindOf(b, l, fbWidth, fbHeight) == Img
            <==> var h := l.handle.value;
                 var (sw, sh) := (l.crop.right - l.crop.left, l.crop.bottom - l.crop.top);
                 var (fw, fh) := (l.display.right - l.display.left, l.display.bottom - l.display.top);
                 var (dw, dh) := if l.transform / 4 % 2 == 1 then (fh, fw) else (fw, fh);
                 && h.usesPhy && !h.notOverlay && h.format in {YCbCr_420_SP, YCrCb_420_SP, YV12}
                 && !l.blended && l.transform !in {2, 5, 6}
                 && 4 <= sw && 4 <= sh && 4 <= fw <= 960 && 4 <= fh <= 960
                 && dw <= 4 * sw && sw <= 4 * dw && dh <= 4 * sh && sh <= 4 * dh
  {
    hide SourceSpan, TargetSpan, IsOsd;
    SourceMovesLittle(l.crop.left, l.crop.right, l.handle.value.width, SrcMask(b));
    SourceMovesLittle(l.crop.top, l.crop.bottom, l.handle.value.height, SrcMask(b));
    TargetKeeps(l.display.left, l.display.right, fbWidth, !Rotated(l.transform));
    TargetKeeps(l.display.top, l.display.bottom, fbHeight, Rotated(l.transform));
  }

  /**
    A layer that shows the whole of its buffer on the whole of the screen is an OSD layer if and only if
    the buffer is RGBA of the size of the screen, upright, or turned by 90 or 270 degrees into the osd
    buffer, and lies where the copier can reach it.
  */
  lemma WholeOsdIff(b: Build, l: Layer, fbWidth: int, fbHeight: int)
    requires !l.skip && l.handle.Some? && 0 < fbWidth && 0 < fbHeight
    requires l.crop == Frame(0, 0, l.handle.value.width, l.handle.value.height)
    requires l.display == Frame(0, 0, fbWidth, fbHeight)
    ensures KindOf(b, l, fbWidth, fbHeight) == Osd
            <==> var h := l.handle.value;
                 && h.format == RGBA_8888
                 && if l.transform == 0 then
                      h.width == fbWidth && h.height == fbHeight && (h.usesPhy || (b.allocOsdBuf && b.dmaCopyOsd))
                    else
                      l.transform / 4 % 2 == 1 && h.width == fbHeight && h.height == fbWidth
                      && h.usesPhy && b.allocOsdBuf
  {
    hide VideoFits;
  }

  /** No other layer that leaves a part of its buffer or the screen out is one. */
  lemma PartialIsNoOsd(b: Build, l: Layer, fbWidth: int, fbHeight: int)
    requires l.handle.Some?
    requires l.display.left > 0 || l.display.top > 0 || l.display.right < fbWidth || l.display.bottom < fbHeight
             || l.crop.left > 0 || l.crop.top > 0
             || l.crop.right < l.handle.value.width || l.crop.bottom < l.handle.value.height
    ensures KindOf(b, l, fbWidth, fbHeight) != Osd
  {
    hide VideoFits;
  }

  lemma SourceInside(lo: int, hi: int, size: int, mask: nat)
    requires mask == 0 || mask == 3
    requires size >= 0
    ensures var s := SourceSpan(lo, hi, size, mask);
            0 <= s.start <= size && s.start + s.extent <= size
  {
  }

  lemma TargetInside(lo: int, hi: int, size: int, alignStart: bool)
    requires size >= 0
    ensures var s := TargetSpan(lo, hi, size, alignStart);
            && 0 <= s.start <= size && s.start + s.extent <= size
            && (size % 4 == 0 ==> s.extent % 4 == 0)
  {
    hide Up;
    var x := TargetSpan(lo, hi, size, alignStart).start;
    Fourths(size, Up(x, 3));
  }

  lemma Fourths(x: int, y: int)
    requires y % 4 == 0
    ensures x % 4 == 0 ==> (x - y) % 4 == 0
  {
  }

  // ---- Assignment over a list ----

  function KindOf(b: Build, l: Layer, fbWidth: int, fbHeight: int): Support {
    if IsVideo(b, l, fbWidth, fbHeight) then Img
    else if IsOsd(b, l, fbWidth, fbHeight) then Osd
    else Unsupported
  }

  function Kinds(b: Build, layers: seq<Layer>, fbWidth: int, fbHeight: int): (k: seq<Support>)
    ensures |k| == |layers|
  {
    seq(|layers|, i requires 0 <= i < |layers| => KindOf(b, layers[i], fbWidth, fbHeight))
  }

  /** Is `i` the first of its kind? */
  predicate First(kinds: seq<Support>, i: nat)
    requires i < |kinds|
  {
    forall j :: 0 <= j < i ==> kinds[j] != kinds[i]
  }

  /** The first video layer is an overlay; so is the first OSD layer if there are fewer than three layers. */
  predicate Candidate(kinds: seq<Support>, i: nat)
    requires i < |kinds|
  {
    kinds[i] != Unsupported && First(kinds, i) && (kinds[i] == Osd ==> |kinds| < 3)
  }

  /** But an OSD layer alone is given up. */
  predicate Chosen(kinds: seq<Support>, i: nat)
    requires i < |kinds|
  {
    Candidate(kinds, i) && (kinds[i] == Osd ==> Img in kinds)
  }

  lemma {:induction false} NumberUpdate(c: seq<Composition>, i: nat, x: Composition)
    requires i < |c| && c[i] != x
    ensures Number(c[i := x], x) == Number(c, x) + 1
  {
    if i == |c| - 1 {
      assert c[i := x][..i] == c[..i];
    } else {
      assert c[i := x][..|c| - 1] == c[..|c| - 1][i := x];
      NumberUpdate(c[..|c| - 1], i, x);
    }
  }

  lemma {:induction false} NoneInFramebuffer(c: seq<Composition>)
    requires Number(c, Framebuffer) == 0
    ensures forall i :: 0 <= i < |c| ==> c[i] == Overlay
  {
    if c != [] {
      NoneInFramebuffer(c[..|c| - 1]);
      forall i | 0 <= i < |c| ensures c[i] == Overlay {
        if i < |c| - 1 {
          assert c[i] == c[..|c| - 1][i];
        }
      }
    }
  }

  /** The composition types that were decided for a list. */
  ghost predicate Assigned(kinds: seq<Support>, c: seq<Composition>) {
    |c| == |kinds| && forall i :: 0 <= i < |c| ==> (c[i] == Overlay <==> Chosen(kinds, i))
  }

  /** At most one overlay of each kind, and no OSD overlay without a video overlay. */
  lemma OverlaysAreFew(kinds: seq<Support>, c: seq<Composition>)
    requires Assigned(kinds, c)
    ensures forall i, j :: 0 <= i < j < |c| && c[i] == Overlay && c[j] == Overlay ==> kinds[i] != kinds[j]
    ensures (exists i :: 0 <= i < |c| && c[i] == Overlay && kinds[i] == Osd)
            ==> exists i :: 0 <= i < |c| && c[i] == Overlay && kinds[i] == Img
  {
    forall i, j | 0 <= i < j < |c| && c[i] == Overlay && c[j] == Overlay ensures kinds[i] != kinds[j] {
      assert First(kinds, j);
    }
    if Img in kinds {
      var i := FirstOf(kinds, Img);
      assert Chosen(kinds, i);
    }
  }

  lemma FirstOf(kinds: seq<Support>, kind: Support) returns (i: nat)
    requires kind in kinds
    ensures i < |kinds| && kinds[i] == kind && First(kinds, i)
  {
    i := 0;
    while kinds[i] != kind
      invariant i < |kinds| && forall j :: 0 <= j < i ==> kinds[j] != kind
      decreases |kinds| - i
    {
      assert i + 1 < |kinds| by {
        var k :| 0 <= k < |kinds| && kinds[k] == kind;
      }
      i := i + 1;
    }
  }

  /** Everything is an overlay exactly when the list is a single video layer, or a video and an OSD layer. */
  predicate OverlayOnly(kinds: seq<Support>) {
    kinds == [Img] || kinds == [Img, Osd] || kinds == [Osd, Img]
  }

  lemma AllOverlays(kinds: seq<Support>, c: seq<Composition>)
    requires Assigned(kinds, c)
    ensures Number(c, Framebuffer) == 0 && |c| > 0 <==> OverlayOnly(kinds)
  {
    if Number(c, Framebuffer) == 0 && |c| > 0 {
      NoneInFramebuffer(c);
      forall i | 0 <= i < |c| ensures Chosen(kinds, i) {
        assert c[i] == Overlay;
      }
      AllChosen(kinds);
    }
    if OverlayOnly(kinds) {
      forall i | 0 <= i < |c| ensures c[i] == Overlay {
        assert Chosen(kinds, i);
      }
      AllOverlay(c);
    }
  }

  lemma AllChosen(kinds: seq<Support>)
    requires |kinds| > 0 && forall i :: 0 <= i < |kinds| ==> Chosen(kinds, i)
    ensures OverlayOnly(kinds)
  {
    assert Chosen(kinds, 0);
    if |kinds| > 1 {
      assert Chosen(kinds, 1) && First(kinds, 1);
    }
  }

  lemma {:induction false} AllOverlay(c: seq<Composition>)
    requires forall i :: 0 <= i < |c| ==> c[i] == Overlay
    ensures Number(c, Framebuffer) == 0
  {
    if c != [] {
      AllOverlay(c[..|c| - 1]);
    }
  }

  /** The state of the loop of hwc_prepare after the first |types| layers. */
  ghost predicate Begun(kinds: seq<Support>, types: seq<Composition>, count: nat, video: bool, osd: bool, at: nat) {
    && |types| <= |kinds|
    && (forall j :: 0 <= j < |types| ==> (types[j] == Overlay <==> Candidate(kinds, j)))
    && count == Number(types, Framebuffer)
    && (video <==> Img in kinds[..|types|])
    && (osd <==> |kinds| < 3 && Osd in kinds[..|types|])
    && (osd ==> at < |types| && kinds[at] == Osd && First(kinds, at))
  }

  lemma BegunNone(kinds: seq<Support>)
    ensures Begun(kinds, [], 0, false, false, 0)
  {
  }

  /** One more layer: its type and what changes with it. */
  lemma BegunNext(kinds: seq<Support>, types: seq<Composition>, count: nat, video: bool, osd: bool, at: nat)
    requires Begun(kinds, types, count, video, osd, at) && |types| < |kinds|
    ensures var i := |types|;
            if kinds[i] == Img && !video then Begun(kinds, types + [Overlay], count, true, osd, at)
            else if kinds[i] == Osd && !osd && |kinds| < 3 then Begun(kinds, types + [Overlay], count, video, true, i)
            else Begun(kinds, types + [Framebuffer], count + 1, video, osd, at)
  {
    var i := |types|;
    assert kinds[..i + 1] == kinds[..i] + [kinds[i]];
    assert First(kinds, i) <==> kinds[i] !in kinds[..i];
    assert (types + [Overlay])[..i] == (types + [Framebuffer])[..i] == types;
  }

  /** After the last layer, with an OSD overlay alone given up. */
  lemma BegunAll(kinds: seq<Support>, types: seq<Composition>, count: nat, video: bool, osd: bool, at: nat)
    requires Begun(kinds, types, count, video, osd, at) && |types| == |kinds|
    ensures count == Number(types, Framebuffer)
    ensures (video <==> Img in kinds) && (osd <==> |kinds| < 3 && Osd in kinds)
    ensures osd && !video ==>
              && at < |types| && Assigned(kinds, types[at := Framebuffer])
              && Number(types[at := Framebuffer], Framebuffer) == count + 1
    ensures !osd || video ==> Assigned(kinds, types)
  {
    hide Number;
    assert kinds[..|kinds|] == kinds;
    if osd && !video {
      assert Candidate(kinds, at);
      NumberUpdate(types, at, Framebuffer);
    }
  }

  // ---- The context ----

  class HwcContext {
    const build: Build
    const fbWidth: int
    const fbHeight: int

    var fbLayerCount: nat
    var preFbLayerCount: nat
    var osdOverlayFlag: bool
    var videoOverlayFlag: bool
    var stored: Rects

    constructor (build: Build, fbWidth: int, fbHeight: int, stored: Rects)
      ensures this.build == build && this.fbWidth == fbWidth && this.fbHeight == fbHeight && this.stored == stored
    {
      this.build, this.fbWidth, this.fbHeight, this.stored := build, fbWidth, fbHeight, stored;
      fbLayerCount, preFbLayerCount, osdOverlayFlag, videoOverlayFlag := 0, 0, false, false;
    }

    predicate SmallScreen() {
      0 < fbWidth < LIMIT && 0 < fbHeight < LIMIT
    }

    method VerifyVideoLayer(l: Layer) returns (accepted: bool)
      requires SmallScreen() && SmallLayer(l) && !l.skip && l.handle.Some?
      modifies this`stored
      ensures accepted <==> IsVideo(build, l, fbWidth, fbHeight)
      ensures stored == if Stores(l) then StoredRects(build, l, fbWidth, fbHeight) else old(stored)
      ensures accepted ==> Shows(stored, build, l, fbWidth, fbHeight)
    {
      hide SourceSpan, TargetSpan, U32, I32, Shows;
      if IsVideo(build, l, fbWidth, fbHeight) {
        AcceptedShows(build, l, fbWidth, fbHeight);
      }
      var h := l.handle.value;
      if !(h.usesPhy && !h.notOverlay) {
        return false;
      }
      if h.format != YCbCr_420_SP && h.format != YCrCb_420_SP && h.format != YV12 {
        return false;
      }
      if l.blended {
        return false;
      }
      if l.transform == FLIP_V {
        return false;
      }
      if l.transform == ROT_90 + FLIP_H || l.transform == ROT_90 + FLIP_V {
        return false;
      }
      SmallWord(h.width);
      SmallWord(h.height);
      stored := stored.(img := Image(h.format, U32(h.width), U32(h.height)));
      var rot := Rotated(l.transform);
      var sx, sw := SourceAxis(l.crop.left, l.crop.right, h.width, SrcMask(build));
      var sy, sh := SourceAxis(l.crop.top, l.crop.bottom, h.height, SrcMask(build));
      stored := stored.(src := Rect(sx, sy, sw, sh));
      var fx, fw := TargetAxis(l.display.left, l.display.right, fbWidth, !rot);
      var fy, fh := TargetAxis(l.display.top, l.display.bottom, fbHeight, rot);
      stored := stored.(fb := Rect(fx, fy, fw, fh));
      Word(SrcX(build, l).extent);
      Word(SrcY(build, l).extent);
      Word(FbX(l, fbWidth).extent);
      Word(FbY(l, fbHeight).extent);
      if sw < 4 || sh < 4 || fw < 4 || fh < 4 || fw > 960 || fh > 960 {
        return false;
      }
      var srcWidth, srcHeight := I32(sw), I32(sh);
      var destWidth, destHeight := if rot then I32(fh) else I32(fw), if rot then I32(fw) else I32(fh);
      if 4 * srcWidth < destWidth || srcWidth > 4 * destWidth || 4 * srcHeight < destHeight || srcHeight > 4 * destHeight {
        return false;
      }
      return true;
    }

    method VerifyOsdLayer(l: Layer) returns (accepted: bool)
      requires SmallScreen() && SmallLayer(l) && !l.skip && l.handle.Some? && l.handle.value.format == RGBA_8888
      ensures accepted <==> IsOsd(build, l, fbWidth, fbHeight)
    {
      var h := l.handle.value;
      var rot := Rotated(l.transform);
      if !build.allocOsdBuf && (l.transform != 0 || !h.usesPhy) {
        return false;
      }
      if l.transform != 0 && !rot {
        return false;
      } else if l.transform == 0 {
        if h.width != fbWidth || h.height != fbHeight {
          return false;
        }
        if !build.dmaCopyOsd && !h.usesPhy {
          return false;
        }
      } else if h.width != fbHeight || h.height != fbWidth || !h.usesPhy {
        return false;
      }
      var sx, sw := ClampAxis(l.crop.left, l.crop.right, h.width);
      var sy, sh := ClampAxis(l.crop.top, l.crop.bottom, h.height);
      var fx, fw := ClampAxis(l.display.left, l.display.right, fbWidth);
      var fy, fh := ClampAxis(l.display.top, l.display.bottom, fbHeight);
      var srcWidth, srcHeight := if rot then sh else sw, if rot then sw else sh;
      if srcWidth != fw || srcHeight != fh {
        return false;
      }
      if sx != 0 || sy != 0 {
        return false;
      }
      if fw != fbWidth || fh != fbHeight {
        return false;
      }
      return true;
    }

    method IsOverlaySupported(l: Layer) returns (support: Support)
      requires SmallScreen() && SmallLayer(l) && !l.skip && l.handle.Some?
      modifies this`stored
      ensures support == KindOf(build, l, fbWidth, fbHeight)
      ensures stored == if Stores(l) then StoredRects(build, l, fbWidth, fbHeight) else old(stored)
    {
      hide VideoFits, StoredRects;
      support := Unsupported;
      if l.handle.value.format == RGBA_8888 {
        var accepted := VerifyOsdLayer(l);
        if accepted {
          support := Osd;
        }
      } else {
        var accepted := VerifyVideoLayer(l);
        if accepted {
          support := Img;
        }
      }
    }

    /** What hwc_prepare does with one of `n` layers: its composition type, and the counter and flags. */
    method AssignLayer(l: Layer, n: nat) returns (t: Composition, isOsd: bool)
      requires SmallScreen() && SmallLayer(l)
      modifies this
      ensures var kind := KindOf(build, l, fbWidth, fbHeight);
              if kind == Img && !old(videoOverlayFlag) then
                t == Overlay && !isOsd && videoOverlayFlag && osdOverlayFlag == old(osdOverlayFlag)
                && fbLayerCount == old(fbLayerCount)
              else if kind == Osd && !old(osdOverlayFlag) && n < 3 then
                t == Overlay && isOsd && osdOverlayFlag && videoOverlayFlag == old(videoOverlayFlag)
                && fbLayerCount == old(fbLayerCount)
              else
                t == Framebuffer && !isOsd && fbLayerCount == old(fbLayerCount) + 1
                && videoOverlayFlag == old(videoOverlayFlag) && osdOverlayFlag == old(osdOverlayFlag)
      ensures stored == if Stores(l) then StoredRects(build, l, fbWidth, fbHeight) else old(stored)
    {
      hide KindOf, StoredRects;
      t, isOsd := Framebuffer, false;
      if l.skip || l.handle.None? {
        SkippedIsUnsupported(build, l, fbWidth, fbHeight);
        fbLayerCount := fbLayerCount + 1;
        return;
      }
      var support := IsOverlaySupported(l);
      if support == Img && !videoOverlayFlag {
        videoOverlayFlag := true;
        t := Overlay;
      } else if support == Osd && !osdOverlayFlag {
        if n >= 3 {
          fbLayerCount := fbLayerCount + 1;
        } else {
          osdOverlayFlag := true;
          t, isOsd := Overlay, true;
        }
      } else {
        fbLayerCount := fbLayerCount + 1;
      }
    }

    /** The loop of hwc_prepare. Returns where the OSD overlay is. */
    method AssignLayers(layers: seq<Layer>, types: array<Composition>) returns (overlayOsd: nat)
      requires SmallScreen() && types.Length == |layers|
      requires forall i :: 0 <= i < |layers| ==> SmallLayer(layers[i])
      modifies this, types
      ensures Begun(Kinds(build, layers, fbWidth, fbHeight), types[..], fbLayerCount,
                    videoOverlayFlag, osdOverlayFlag, overlayOsd)
      ensures stored == LastStored(build, layers, fbWidth, fbHeight, old(stored))
    {
      hide KindOf, StoredRects, Stores, Begun, SmallLayer, LastStored;
      LastStoredNone(build, fbWidth, fbHeight, stored);
      ghost var kinds := Kinds(build, layers, fbWidth, fbHeight);
      fbLayerCount, osdOverlayFlag, videoOverlayFlag := 0, false, false;
      overlayOsd := 0;
      BegunNone(kinds);
      var i := 0;
      while i < |layers|
        invariant 0 <= i <= |layers|
        invariant Begun(kinds, types[..i], fbLayerCount, videoOverlayFlag, osdOverlayFlag, overlayOsd)
        invariant stored == LastStored(build, layers[..i], fbWidth, fbHeight, old(stored))
      {
        LastStoredNext(build, layers, i, fbWidth, fbHeight, old(stored));
        assert kinds[i] == KindOf(build, layers[i], fbWidth, fbHeight);
        ghost var before := types[..i];
        BegunNext(kinds, before, fbLayerCount, videoOverlayFlag, osdOverlayFlag, overlayOsd);
        var t, isOsd := AssignLayer(layers[i], |layers|);
        types[i] := t;
        if isOsd {
          overlayOsd := i;
        }
        assert types[..i + 1] == before + [t];
        assert Begun(kinds, before + [t], fbLayerCount, videoOverlayFlag, osdOverlayFlag, overlayOsd);
        i := i + 1;
      }
      assert layers[..i] == layers && types[..i] == types[..];
    }

    /** hwc_prepare for a list; `types` are the composition types of its layers. */
    method Prepare(layers: seq<Layer>, types: array<Composition>)
      requires SmallScreen() && types.Length == |layers|
      requires forall i :: 0 <= i < |layers| ==> SmallLayer(layers[i])
      modifies this, types
      ensures Assigned(Kinds(build, layers, fbWidth, fbHeight), types[..])
      ensures fbLayerCount == preFbLayerCount == Number(types[..], Framebuffer)
      ensures videoOverlayFlag <==> Img in Kinds(build, layers, fbWidth, fbHeight)
      ensures osdOverlayFlag <==> videoOverlayFlag && |layers| < 3 && Osd in Kinds(build, layers, fbWidth, fbHeight)
      ensures stored == LastStored(build, layers, fbWidth, fbHeight, old(stored))
    {
      hide Begun, Kinds, Assigned, LastStored, Number;
      var overlayOsd := AssignLayers(layers, types);
      BegunAll(Kinds(build, layers, fbWidth, fbHeight), types[..], fbLayerCount,
               videoOverlayFlag, osdOverlayFlag, overlayOsd);
      if osdOverlayFlag && !videoOverlayFlag {
        ghost var before := types[..];
        types[overlayOsd] := Framebuffer;
        assert types[..] == before[overlayOsd := Framebuffer];
        osdOverlayFlag := false;
        fbLayerCount := fbLayerCount + 1;
      }
      preFbLayerCount := fbLayerCount;
    }

    /** The selection of hwc_set: which layers it hands to the overlays, and how the frame is shown. */
    method Set(layers: seq<Layer>, types: array<Composition>) returns (video: Option<nat>, osd: Option<nat>, shown: Shown)
      requires types.Length == |layers|
      requires forall i :: 0 <= i < |layers| && types[i] == Overlay ==> layers[i].handle.Some?
      ensures video == LastOverlay(layers, types[..], false) && osd == LastOverlay(layers, types[..], true)
      ensures shown == if fbLayerCount == 0 && (videoOverlayFlag || osdOverlayFlag)
                       then DisplayOverlay(videoOverlayFlag, osdOverlayFlag) else SwapBuffers
    {
      video, osd := None, None;
      var i := 0;
      while i < |layers|
        invariant 0 <= i <= |layers|
        invariant video == LastOverlay(layers[..i], types[..i], false)
        invariant osd == LastOverlay(layers[..i], types[..i], true)
      {
        assert layers[..i + 1][..i] == layers[..i] && types[..i + 1][..i] == types[..i];
        if types[i] == Overlay {
          if layers[i].handle.value.format == RGBA_8888 {
            osd := Some(i);
          } else {
            video := Some(i);
          }
        }
        i := i + 1;
      }
      assert layers[..i] == layers && types[..i] == types[..];
      shown := SwapBuffers;
      if fbLayerCount == 0 && (videoOverlayFlag || osdOverlayFlag) {
        shown := DisplayOverlay(videoOverlayFlag, osdOverlayFlag);
      }
    }

    /** A frame: hwc_prepare and hwc_set on the same list. */
    method Compose(layers: seq<Layer>, types: array<Composition>) returns (video: Option<nat>, osd: Option<nat>, shown: Shown)
      requires SmallScreen() && types.Length == |layers|
      requires forall i :: 0 <= i < |layers| ==> SmallLayer(layers[i])
      modifies this, types
      ensures var kinds := Kinds(build, layers, fbWidth, fbHeight);
              && (shown.DisplayOverlay? <==> OverlayOnly(kinds))
              && (shown.DisplayOverlay? ==> shown == DisplayOverlay(true, |kinds| == 2))
              && (video.Some? <==> Img in kinds)
              && (osd.Some? <==> Img in kinds && Osd in kinds && |kinds| < 3)
              && (video.Some? ==> video.value < |kinds| && kinds[video.value] == Img && First(kinds, video.value))
              && (osd.Some? ==> osd.value < |kinds| && kinds[osd.value] == Osd && First(kinds, osd.value))
    {
      ghost var kinds := Kinds(build, layers, fbWidth, fbHeight);
      Prepare(layers, types);
      OverlaysHaveHandles(build, layers, fbWidth, fbHeight, types[..]);
      video, osd, shown := Set(layers, types);
      AllOverlays(kinds, types[..]);
      LastIsFirst(build, layers, fbWidth, fbHeight, types[..]);
    }
  }

  /** How hwc_set shows a frame: overlays only, or through the framebuffer. */
  datatype Shown = DisplayOverlay(video: bool, osd: bool) | SwapBuffers

  lemma SkippedIsUnsupported(b: Build, l: Layer, fbWidth: int, fbHeight: int)
    requires l.skip || l.handle.None?
    ensures KindOf(b, l, fbWidth, fbHeight) == Unsupported && !Stores(l)
  {
  }

  /** The rectangles left in the context: those of the last layer that gets past the early exits. */
  function LastStored(b: Build, layers: seq<Layer>, fbWidth: int, fbHeight: int, old_: Rects): Rects {
    if layers == [] then old_
    else
      var l := layers[|layers| - 1];
      if Stores(l) then StoredRects(b, l, fbWidth, fbHeight)
      else LastStored(b, layers[..|layers| - 1], fbWidth, fbHeight, old_)
  }

  lemma LastStoredNone(b: Build, fbWidth: int, fbHeight: int, old_: Rects)
    ensures LastStored(b, [], fbWidth, fbHeight, old_) == old_
  {
  }

  lemma LastStoredNext(b: Build, layers: seq<Layer>, i: nat, fbWidth: int, fbHeight: int, old_: Rects)
    requires i < |layers|
    ensures Stores(layers[i])
            ==> LastStored(b, layers[..i + 1], fbWidth, fbHeight, old_) == StoredRects(b, layers[i], fbWidth, fbHeight)
    ensures !Stores(layers[i])
            ==> LastStored(b, layers[..i + 1], fbWidth, fbHeight, old_) == LastStored(b, layers[..i], fbWidth, fbHeight, old_)
  {
    assert layers[..i + 1][..i] == layers[..i];
  }

  /** The last layer that gets past the early exits, or -1. */
  function LastPast(layers: seq<Layer>): (j: int)
    ensures -1 <= j < |layers| && (j >= 0 ==> Stores(layers[j]))
    ensures forall k :: j < k < |layers| ==> !Stores(layers[k])
  {
    if layers == [] then -1
    else if Stores(layers[|layers| - 1]) then |layers| - 1
    else LastPast(layers[..|layers| - 1])
  }

  lemma {:induction false} StoredAreOfLastPast(b: Build, layers: seq<Layer>, fbWidth: int, fbHeight: int, old_: Rects)
    ensures var j := LastPast(layers);
            LastStored(b, layers, fbWidth, fbHeight, old_)
            == if j < 0 then old_ else StoredRects(b, layers[j], fbWidth, fbHeight)
  {
    hide StoredRects, Stores;
    if layers != [] && !Stores(layers[|layers| - 1]) {
      StoredAreOfLastPast(b, layers[..|layers| - 1], fbWidth, fbHeight, old_);
    }
  }

  /** Do two layers show buffers of one format and size, clamped and rounded to the same places? */
  predicate SamePlace(b: Build, l: Layer, m: Layer, fbWidth: int, fbHeight: int)
    requires l.handle.Some? && m.handle.Some?
  {
    && l.handle.value.format == m.handle.value.format
    && l.handle.value.width == m.handle.value.width && l.handle.value.height == m.handle.value.height
    && SrcX(b, l) == SrcX(b, m) && SrcY(b, l) == SrcY(b, m)
    && FbX(l, fbWidth) == FbX(m, fbWidth) && FbY(l, fbHeight) == FbY(m, fbHeight)
  }

  /** No two different extents wrap to the same word. */
  lemma WordsTell(x: int, y: int)
    requires -2 * LIMIT <= x <= 2 * LIMIT && -2 * LIMIT <= y <= 2 * LIMIT
    ensures U32(x) == U32(y) <==> x == y
  {
    hide U32, I32;
    Signed(x);
    Signed(y);
  }

  lemma ExtentsInRange(b: Build, l: Layer, fbWidth: int, fbHeight: int)
    requires SmallLayer(l) && l.handle.Some? && 0 < fbWidth < LIMIT && 0 < fbHeight < LIMIT
    ensures -2 * LIMIT <= SrcX(b, l).extent <= 2 * LIMIT && -2 * LIMIT <= SrcY(b, l).extent <= 2 * LIMIT
    ensures -2 * LIMIT <= FbX(l, fbWidth).extent <= 2 * LIMIT && -2 * LIMIT <= FbY(l, fbHeight).extent <= 2 * LIMIT
  {
    hide Up;
  }

  lemma RectsTell(b: Build, l: Layer, m: Layer, fbWidth: int, fbHeight: int)
    requires SmallLayer(l) && SmallLayer(m) && l.handle.Some? && m.handle.Some?
    requires 0 < fbWidth < LIMIT && 0 < fbHeight < LIMIT
    ensures StoredRects(b, l, fbWidth, fbHeight) == StoredRects(b, m, fbWidth, fbHeight)
            <==> SamePlace(b, l, m, fbWidth, fbHeight)
  {
    hide U32, SrcX, SrcY, FbX, FbY;
    ExtentsInRange(b, l, fbWidth, fbHeight);
    ExtentsInRange(b, m, fbWidth, fbHeight);
    WordsTell(l.handle.value.width, m.handle.value.width);
    WordsTell(l.handle.value.height, m.handle.value.height);
    WordsTell(SrcX(b, l).extent, SrcX(b, m).extent);
    WordsTell(SrcY(b, l).extent, SrcY(b, m).extent);
    WordsTell(FbX(l, fbWidth).extent, FbX(m, fbWidth).extent);
    WordsTell(FbY(l, fbHeight).extent, FbY(m, fbHeight).extent);
  }

  /**
    The rectangles left are the chosen video layer's if and only if the last layer past the early
    exits shows the same place; in particular if no later layer gets past them.
  */
  lemma StoredAreChosenIff(b: Build, layers: seq<Layer>, fbWidth: int, fbHeight: int, old_: Rects, i: nat)
    requires 0 < fbWidth < LIMIT && 0 < fbHeight < LIMIT
    requires i < |layers| && forall k :: 0 <= k < |layers| ==> SmallLayer(layers[k])
    requires Chosen(Kinds(b, layers, fbWidth, fbHeight), i) && IsVideo(b, layers[i], fbWidth, fbHeight)
    ensures var j := LastPast(layers);
            && i <= j
            && (LastStored(b, layers, fbWidth, fbHeight, old_) == StoredRects(b, layers[i], fbWidth, fbHeight)
                <==> SamePlace(b, layers[i], layers[j], fbWidth, fbHeight))
  {
    hide StoredRects, SamePlace, VideoFits, LastStored, SmallLayer;
    StoredAreOfLastPast(b, layers, fbWidth, fbHeight, old_);
    RectsTell(b, layers[i], layers[LastPast(layers)], fbWidth, fbHeight);
  }

  /** A plain 64 by 64 video layer shown at column `x`. */
  function PlainVideo(x: int): Layer {
    Layer(false, Some(Handle(YV12, 64, 64, true, false)), Frame(0, 0, 64, 64), Frame(x, 0, x + 64, 64), 0, false)
  }

  lemma PlainSource(b: Build)
    ensures SourceSpan(0, 64, 64, SrcMask(b)) == Span(0, 64)
  {
  }

  lemma PlainTarget(x: int)
    requires x == 0 || x == 64
    ensures TargetSpan(x, x + 64, 480, true) == Span(x, 64) && TargetSpan(0, 64, 800, false) == Span(0, 64)
  {
    hide Up;
    UpMultiple(x);
    UpMultiple(0);
    UpMultiple(64);
  }

  lemma UpMultiple(x: int)
    requires x % 4 == 0
    ensures Up(x, 3) == x
  {
  }

  lemma PlainRects(b: Build, x: int)
    requires x == 0 || x == 64
    ensures IsVideo(b, PlainVideo(x), 480, 800)
    ensures StoredRects(b, PlainVideo(x), 480, 800) == Rects(Image(YV12, 64, 64), Rect(0, 0, 64, 64), Rect(x, 0, 64, 64))
  {
    hide SourceSpan, TargetSpan, U32, SrcMask;
    PlainSource(b);
    PlainTarget(x);
    SmallWord(64);
    assert !Rotated(0);
  }

  /**
    It does happen otherwise: of two video layers the first is the overlay, but the rectangles are
    those of the second.
  */
  lemma LaterLayerOverwrites(b: Build, old_: Rects)
    ensures var layers := [PlainVideo(0), PlainVideo(64)];
            && Chosen(Kinds(b, layers, 480, 800), 0)
            && LastStored(b, layers, 480, 800, old_) == StoredRects(b, layers[1], 480, 800)
            && StoredRects(b, layers[1], 480, 800) != StoredRects(b, layers[0], 480, 800)
  {
    hide StoredRects, VideoFits;
    PlainRects(b, 0);
    PlainRects(b, 64);
  }

  /** The last overlay whose format is RGBA_8888, or is not. */
  function LastOverlay(layers: seq<Layer>, types: seq<Composition>, rgba: bool): Option<nat>
    requires |layers| == |types|
  {
    if layers == [] then None
    else
      var i := |layers| - 1;
      if types[i] == Overlay && layers[i].handle.Some? && (layers[i].handle.value.format == RGBA_8888) == rgba then Some(i)
      else LastOverlay(layers[..i], types[..i], rgba)
  }

  lemma OverlaysHaveHandles(b: Build, layers: seq<Layer>, fbWidth: int, fbHeight: int, types: seq<Composition>)
    requires Assigned(Kinds(b, layers, fbWidth, fbHeight), types)
    ensures forall i :: 0 <= i < |layers| && types[i] == Overlay ==> layers[i].handle.Some?
  {
    forall i | 0 <= i < |layers| && types[i] == Overlay ensures layers[i].handle.Some? {
      assert Chosen(Kinds(b, layers, fbWidth, fbHeight), i);
    }
  }

  /** An overlay is of format RGBA_8888 exactly if it is an OSD layer. */
  lemma FormatTellsKind(b: Build, l: Layer, fbWidth: int, fbHeight: int)
    requires KindOf(b, l, fbWidth, fbHeight) != Unsupported
    ensures l.handle.Some?
    ensures KindOf(b, l, fbWidth, fbHeight) == Osd <==> l.handle.value.format == RGBA_8888
  {
  }

  lemma {:induction false} LastOverlayFound(layers: seq<Layer>, types: seq<Composition>, rgba: bool)
    requires |layers| == |types|
    ensures var o := LastOverlay(layers, types, rgba);
            if o.Some? then
              && o.value < |layers| && types[o.value] == Overlay && layers[o.value].handle.Some?
              && (layers[o.value].handle.value.format == RGBA_8888) == rgba
            else
              forall i :: 0 <= i < |layers| && types[i] == Overlay && layers[i].handle.Some?
                ==> (layers[i].handle.value.format == RGBA_8888) != rgba
  {
    if layers != [] {
      LastOverlayFound(layers[..|layers| - 1], types[..|layers| - 1], rgba);
    }
  }

  lemma LastIsFirst(b: Build, layers: seq<Layer>, fbWidth: int, fbHeight: int, types: seq<Composition>)
    requires Assigned(Kinds(b, layers, fbWidth, fbHeight), types)
    ensures var kinds := Kinds(b, layers, fbWidth, fbHeight);
            var video := LastOverlay(layers, types, false);
            var osd := LastOverlay(layers, types, true);
            && (video.Some? <==> Img in kinds)
            && (osd.Some? <==> Img in kinds && Osd in kinds && |kinds| < 3)
            && (video.Some? ==> video.value < |kinds| && kinds[video.value] == Img && First(kinds, video.value))
            && (osd.Some? ==> osd.value < |kinds| && kinds[osd.value] == Osd && First(kinds, osd.value))
  {
    hide KindOf;
    var kinds := Kinds(b, layers, fbWidth, fbHeight);
    forall i | 0 <= i < |layers| && types[i] == Overlay
      ensures layers[i].handle.Some? && Chosen(kinds, i)
      ensures kinds[i] == Osd <==> layers[i].handle.value.format == RGBA_8888
    {
      assert Chosen(kinds, i);
      FormatTellsKind(b, layers[i], fbWidth, fbHeight);
    }
    LastOverlayFound(layers, types, false);
    LastOverlayFound(layers, types, true);
    if Img in kinds {
      var i := FirstOf(kinds, Img);
      assert Chosen(kinds, i) && types[i] == Overlay;
      if Osd in kinds && |kinds| < 3 {
        var j := FirstOf(kinds, Osd);
        assert Chosen(kinds, j) && types[j] == Overlay;
      }
    }
  }

  /** A word below 4 or above 960 as unsigned, against its signed value. */
  lemma Word(x: int)
    requires -2 * LIMIT <= x <= LIMIT
    ensures x >= 0 ==> U32(x) == x
    ensures x < 0 ==> U32(x) > LIMIT
  {
  }
}
