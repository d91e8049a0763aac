/** Sequence parameter sets of ITU-T H.264 (sections 7.3.2.1.1, 7.3.2.1.1.1 and E.1.1): what the
    server's parser makes of a bit string, the syntax as a printer, and that the one reads the
    other back. */
module SpsSyntax {
  import opened Wrappers
  import opened Bytes
  import opened BitReader

  /** A frame rate as a fraction. */
  datatype Fps = Fps(num: nat, den: nat)

  const DEFAULT_FPS := Fps(25, 1)

  // ----- the parser, on the bits still to be read -----

  /** The profiles for which the parser expects the chroma and scaling block. */
  predicate ParserExpectsHigh(profile: nat) {
    profile in {100, 110, 122, 244, 44, 83, 86, 118, 128}
  }

  function NextScale(last: byte, delta: int): byte {
    (last + delta + 256) % 256
  }

  /** scaling_list: `left` entries, of which deltas are coded until one makes the scale zero. */
  function SkipScalingList(b: bits, left: nat, last: byte, next: byte): bits
    decreases left
  {
    if left == 0 then b
    else if next == 0 then SkipScalingList(b, left - 1, last, next)
    else
      var d := SE(b);
      var scale := NextScale(last, d.value);
      SkipScalingList(d.rest, left - 1, if scale == 0 then last else scale, scale)
  }

  function ListSize(i: nat): nat {
    if i < 6 then 16 else 64
  }

  function SkipScalingLists(b: bits, i: nat, count: nat): bits
    decreases count - i
  {
    if i >= count then b
    else if Head(b) == 1 then SkipScalingLists(SkipScalingList(Tail(b), ListSize(i), 8, 8), i + 1, count)
    else SkipScalingLists(Tail(b), i + 1, count)
  }

  function ListCount(chromaFormat: nat): nat {
    if chromaFormat != 3 then 8 else 12
  }

  function SkipHigh(b: bits): bits {
    var chroma := UE(b);
    var depths := if chroma.value == 3 then Drop(chroma.rest, 1) else chroma.rest;
    var matrix := Drop(UE(UE(depths).rest).rest, 1);
    if Head(matrix) == 1 then SkipScalingLists(Tail(matrix), 0, ListCount(chroma.value)) else Tail(matrix)
  }

  function SkipSigned(b: bits, n: nat): bits
    decreases n
  {
    if n == 0 then b else SkipSigned(SE(b).rest, n - 1)
  }

  function SkipPicOrder(b: bits): bits {
    var kind := UE(b);
    if kind.value == 0 then UE(kind.rest).rest
    else if kind.value == 1 then
      var cycle := UE(SE(SE(Drop(kind.rest, 1)).rest).rest);
      SkipSigned(cycle.rest, cycle.value)
    else kind.rest
  }

  function SkipCrop(b: bits): bits {
    if Head(b) == 1 then UE(UE(UE(UE(Tail(b)).rest).rest).rest).rest else Tail(b)
  }

  /** From max_num_ref_frames to the cropping offsets. */
  function SkipPicture(b: bits): bits {
    var mbs := UE(UE(Drop(UE(b).rest, 1)).rest).rest;
    var direct := if Head(mbs) == 0 then Drop(Tail(mbs), 1) else Tail(mbs);
    SkipCrop(Drop(direct, 1))
  }

  function SkipAspect(b: bits): bits {
    if Head(b) == 0 then Tail(b)
    else if Value(Tail(b), 8) == 255 then Drop(Drop(Drop(Tail(b), 8), 16), 16)
    else Drop(Tail(b), 8)
  }

  function SkipOverscan(b: bits): bits {
    if Head(b) == 1 then Drop(Tail(b), 1) else Tail(b)
  }

  function SkipSignal(b: bits): bits {
    if Head(b) == 0 then Tail(b)
    else
      var colour := Drop(Drop(Tail(b), 3), 1);
      if Head(colour) == 1 then Drop(Drop(Drop(Tail(colour), 8), 8), 8) else Tail(colour)
  }

  function SkipChromaLoc(b: bits): bits {
    if Head(b) == 1 then UE(UE(Tail(b)).rest).rest else Tail(b)
  }

  function RateOf(units: uint32, scale: uint32): Fps {
    if units == 0 || scale == 0 then DEFAULT_FPS else Fps(scale, 2 * units)
  }

  function Word(b: bits): uint32 {
    Value(b, 32) % 0x1_0000_0000
  }

  function TimingFps(b: bits): Fps {
    if Head(b) == 0 then DEFAULT_FPS else RateOf(Word(Tail(b)), Word(Drop(Tail(b), 32)))
  }

  function VuiFps(b: bits): Fps {
    if Head(b) == 0 then DEFAULT_FPS
    else TimingFps(SkipChromaLoc(SkipSignal(SkipOverscan(SkipAspect(Tail(b))))))
  }

  /** The frame rate found in the bits behind the NAL header. */
  function FpsOfBits(b: bits): Fps {
    var id := UE(Drop(Drop(Drop(b, 8), 8), 8)).rest;
    var frameNum := if ParserExpectsHigh(Value(b, 8)) then SkipHigh(id) else id;
    VuiFps(SkipPicture(SkipPicOrder(UE(frameNum).rest)))
  }

  // ----- the syntax -----

  datatype HighBlock = HighBlock(chromaFormat: nat, separatePlanes: bit, lumaDepth: nat, chromaDepth: nat,
                                 bypass: bit, scaling: Option<seq<Option<seq<int>>>>)

  datatype PicOrder =
    | ByLsb(log2Max: nat)
    | ByCycle(alwaysZero: bit, nonRef: int, topToBottom: int, offsets: seq<int>)
    | ByOutput

  datatype Crop = Crop(left: nat, right: nat, top: nat, bottom: nat)

  datatype Aspect = Aspect(idc: byte, width: uint16, height: uint16)

  datatype Signal = Signal(format: nat, fullRange: bit, colour: Option<(byte, byte, byte)>)

  datatype Timing = Timing(units: uint32, scale: uint32)

  datatype Vui = Vui(aspect: Option<Aspect>, overscan: Option<bit>, signal: Option<Signal>,
                     chromaLoc: Option<(nat, nat)>, timing: Option<Timing>)

  /** `fieldFlag` is mb_adaptive_frame_field_flag, present unless frame_mbs_only_flag is set. */
  datatype Sps = Sps(profile: byte, constraints: byte, level: byte, id: nat, high: HighBlock, log2FrameNum: nat,
                     picOrder: PicOrder, maxRefFrames: nat, gaps: bit, width: nat, height: nat,
                     fieldFlag: Option<bit>, direct8x8: bit, crop: Option<Crop>, vui: Option<Vui>)

  /** The profiles whose parameter sets carry the chroma and scaling block (section 7.3.2.1.1). */
  predicate SyntaxHasHigh(profile: nat) {
    profile in {100, 110, 122, 244, 44, 83, 86, 118, 128, 138, 139, 134, 135}
  }

  /** Whether ds are the deltas coded for a list of which `left` entries remain (section
      7.3.2.1.1.1). */
  predicate CodedList(ds: seq<int>, left: nat, last: byte, next: byte)
    decreases left
  {
    if left == 0 || next == 0 then ds == []
    else
      && ds != [] && SignedCodable(ds[0])
      && var scale := (last + ds[0] + 256) % 256;
         CodedList(ds[1..], left - 1, if scale == 0 then last else scale, scale)
  }

  predicate HighOk(h: HighBlock) {
    && Codable(h.chromaFormat) && Codable(h.lumaDepth) && Codable(h.chromaDepth)
    && (h.scaling.Some? ==>
          && |h.scaling.value| == (if h.chromaFormat == 3 then 12 else 8)
          && forall i :: 0 <= i < |h.scaling.value| ==> ListOk(h.scaling.value[i], i))
  }

  predicate ListOk(l: Option<seq<int>>, i: nat) {
    l.Some? ==> CodedList(l.value, if i < 6 then 16 else 64, 8, 8)
  }

  predicate PicOrderOk(p: PicOrder) {
    match p
    case ByLsb(n) => Codable(n)
    case ByCycle(_, a, b, offsets) =>
      SignedCodable(a) && SignedCodable(b) && Codable(|offsets|)
      && forall i :: 0 <= i < |offsets| ==> SignedCodable(offsets[i])
    case ByOutput => true
  }

  predicate VuiOk(v: Vui) {
    && (v.signal.Some? ==> v.signal.value.format < 8)
    && (v.chromaLoc.Some? ==> Codable(v.chromaLoc.value.0) && Codable(v.chromaLoc.value.1))
  }

  predicate CropOk(c: Crop) {
    Codable(c.left) && Codable(c.right) && Codable(c.top) && Codable(c.bottom)
  }

  predicate SpsOk(s: Sps) {
    && Codable(s.id) && Codable(s.log2FrameNum) && Codable(s.maxRefFrames) && Codable(s.width) && Codable(s.height)
    && (SyntaxHasHigh(s.profile) ==> HighOk(s.high))
    && PicOrderOk(s.picOrder)
    && (s.crop.Some? ==> CropOk(s.crop.value))
    && (s.vui.Some? ==> VuiOk(s.vui.value))
  }

  // ----- the printer: each part goes before the rest -----

  function PutBit(x: bit, rest: bits): bits { [x] + rest }

  function PutBits(v: nat, n: nat, rest: bits): bits { Bits(v, n) + rest }

  function PutUE(v: nat, rest: bits): bits { UECode(v) + rest }

  function PutSE(k: int, rest: bits): bits { SECode(k) + rest }

  function PutDeltas(ds: seq<int>, rest: bits): bits {
    if ds == [] then rest else PutSE(ds[0], PutDeltas(ds[1..], rest))
  }

  function PutList(l: Option<seq<int>>, rest: bits): bits {
    if l.Some? then PutBit(1, PutDeltas(l.value, rest)) else PutBit(0, rest)
  }

  /** Lists i and following. */
  function PutLists(ls: seq<Option<seq<int>>>, i: nat, rest: bits): bits
    requires i <= |ls|
    decreases |ls| - i
  {
    if i == |ls| then rest else PutList(ls[i], PutLists(ls, i + 1, rest))
  }

  function PutScaling(ls: Option<seq<Option<seq<int>>>>, rest: bits): bits {
    if ls.Some? then PutBit(1, PutLists(ls.value, 0, rest)) else PutBit(0, rest)
  }

  function PutHigh(h: HighBlock, rest: bits): bits {
    var depths := PutUE(h.lumaDepth, PutUE(h.chromaDepth, PutBit(h.bypass, PutScaling(h.scaling, rest))));
    PutUE(h.chromaFormat, if h.chromaFormat == 3 then PutBit(h.separatePlanes, depths) else depths)
  }

  function PutPicOrder(p: PicOrder, rest: bits): bits {
    match p
    case ByLsb(n) => PutUE(0, PutUE(n, rest))
    case ByCycle(z, a, b, offsets) =>
      PutUE(1, PutBit(z, PutSE(a, PutSE(b, PutUE(|offsets|, PutDeltas(offsets, rest))))))
    case ByOutput => PutUE(2, rest)
  }

  function PutCrop(c: Option<Crop>, rest: bits): bits {
    if c.None? then PutBit(0, rest)
    else PutBit(1, PutUE(c.value.left, PutUE(c.value.right, PutUE(c.value.top, PutUE(c.value.bottom, rest)))))
  }

  function PutFieldFlag(f: Option<bit>, rest: bits): bits {
    if f.None? then PutBit(1, rest) else PutBit(0, PutBit(f.value, rest))
  }

  function PutPicture(s: Sps, rest: bits): bits {
    PutUE(s.maxRefFrames, PutBit(s.gaps, PutUE(s.width, PutUE(s.height,
      PutFieldFlag(s.fieldFlag, PutBit(s.direct8x8, PutCrop(s.crop, rest)))))))
  }

  function PutAspect(a: Option<Aspect>, rest: bits): bits {
    if a.None? then PutBit(0, rest)
    else if a.value.idc == 255 then
      PutBit(1, PutBits(255, 8, PutBits(a.value.width, 16, PutBits(a.value.height, 16, rest))))
    else PutBit(1, PutBits(a.value.idc, 8, rest))
  }

  function PutOverscan(o: Option<bit>, rest: bits): bits {
    if o.None? then PutBit(0, rest) else PutBit(1, PutBit(o.value, rest))
  }

  function PutColour(c: Option<(byte, byte, byte)>, rest: bits): bits {
    if c.None? then PutBit(0, rest)
    else PutBit(1, PutBits(c.value.0, 8, PutBits(c.value.1, 8, PutBits(c.value.2, 8, rest))))
  }

  function PutSignal(s: Option<Signal>, rest: bits): bits {
    if s.None? then PutBit(0, rest)
    else PutBit(1, PutBits(s.value.format, 3, PutBit(s.value.fullRange, PutColour(s.value.colour, rest))))
  }

  function PutChromaLoc(c: Option<(nat, nat)>, rest: bits): bits {
    if c.None? then PutBit(0, rest) else PutBit(1, PutUE(c.value.0, PutUE(c.value.1, rest)))
  }

  function PutTiming(t: Option<Timing>, rest: bits): bits {
    if t.None? then PutBit(0, rest) else PutBit(1, PutBits(t.value.units, 32, PutBits(t.value.scale, 32, rest)))
  }

  /** `rest` holds what follows the timing fields. */
  function PutVui(v: Option<Vui>, rest: bits): bits {
    if v.None? then PutBit(0, rest)
    else PutBit(1, PutAspect(v.value.aspect, PutOverscan(v.value.overscan, PutSignal(v.value.signal,
                   PutChromaLoc(v.value.chromaLoc, PutTiming(v.value.timing, rest))))))
  }

  function PutSps(s: Sps, rest: bits): bits {
    var tail := PutUE(s.log2FrameNum, PutPicOrder(s.picOrder, PutPicture(s, PutVui(s.vui, rest))));
    PutBits(s.profile, 8, PutBits(s.constraints, 8, PutBits(s.level, 8,
      PutUE(s.id, if SyntaxHasHigh(s.profile) then PutHigh(s.high, tail) else tail))))
  }

  /** The frame rate an SPS announces: time_scale over twice num_units_in_tick, or 25 for want of
      usable timing. */
  function Announced(s: Sps): Fps {
    AnnouncedBy(if s.vui.Some? then s.vui.value.timing else None)
  }

  function AnnouncedBy(t: Option<Timing>): Fps {
    if t.Some? && t.value.units != 0 && t.value.scale != 0 then Fps(t.value.scale, 2 * t.value.units) else Fps(25, 1)
  }

  // ----- reading back -----

  lemma BitBack(x: bit, rest: bits)
    ensures Head(PutBit(x, rest)) == x && Tail(PutBit(x, rest)) == rest && Drop(PutBit(x, rest), 1) == rest
  {
  }

  lemma BitsBack(v: nat, n: nat, rest: bits)
    requires v < Pow2(n)
    ensures Value(PutBits(v, n, rest), n) == v && Drop(PutBits(v, n, rest), n) == rest
  {
    BitsReadBack(v, n, rest);
  }

  lemma UEBack(v: nat, rest: bits)
    requires Codable(v)
    ensures UE(PutUE(v, rest)) == Read(v, rest)
  {
    UEReadBack(v, rest);
  }

  lemma SEBack(k: int, rest: bits)
    requires SignedCodable(k)
    ensures SE(PutSE(k, rest)) == Read(k, rest)
  {
    SEReadBack(k, rest);
  }

  lemma {:induction false} StopsAtZero(b: bits, left: nat, last: byte)
    ensures SkipScalingList(b, left, last, 0) == b
  {
    if left > 0 {
      StopsAtZero(b, left - 1, last);
    }
  }

  lemma {:induction false} ScalingListBack(ds: seq<int>, left: nat, last: byte, next: byte, rest: bits)
    requires CodedList(ds, left, last, next)
    ensures SkipScalingList(PutDeltas(ds, rest), left, last, next) == rest
    decreases left
  {
    hide SE, PutSE;
    if left == 0 {
    } else if next == 0 {
      StopsAtZero(rest, left, last);
    } else {
      SEBack(ds[0], PutDeltas(ds[1..], rest));
      var scale := NextScale(last, ds[0]);
      ScalingListBack(ds[1..], left - 1, if scale == 0 then last else scale, scale, rest);
    }
  }

  lemma {:induction false} ScalingListsBack(ls: seq<Option<seq<int>>>, i: nat, rest: bits)
    requires i <= |ls| && forall k :: 0 <= k < |ls| ==> ListOk(ls[k], k)
    ensures SkipScalingLists(PutLists(ls, i, rest), i, |ls|) == rest
    decreases |ls| - i
  {
    hide PutBit, Head, Tail, SkipScalingList, PutDeltas;
    if i < |ls| {
      var later := PutLists(ls, i + 1, rest);
      ScalingListsBack(ls, i + 1, rest);
      if ls[i].Some? {
        assert ListOk(ls[i], i);
        BitBack(1, PutDeltas(ls[i].value, later));
        ScalingListBack(ls[i].value, ListSize(i), 8, 8, later);
      } else {
        BitBack(0, later);
      }
    }
  }

  lemma HighBack(h: HighBlock, rest: bits)
    requires HighOk(h)
    ensures SkipHigh(PutHigh(h, rest)) == rest
  {
    hide PutBit, PutUE, UE, Head, Tail, Drop, SkipScalingLists, PutLists, ListOk;
    var scaling := PutScaling(h.scaling, rest);
    var chroma := PutUE(h.chromaDepth, PutBit(h.bypass, scaling));
    var depths := PutUE(h.lumaDepth, chroma);
    UEBack(h.chromaFormat, if h.chromaFormat == 3 then PutBit(h.separatePlanes, depths) else depths);
    BitBack(h.separatePlanes, depths);
    UEBack(h.lumaDepth, chroma);
    UEBack(h.chromaDepth, PutBit(h.bypass, scaling));
    BitBack(h.bypass, scaling);
    if h.scaling.Some? {
      BitBack(1, PutLists(h.scaling.value, 0, rest));
      ScalingListsBack(h.scaling.value, 0, rest);
    } else {
      BitBack(0, rest);
    }
  }

  lemma {:induction false} SignedBack(ks: seq<int>, rest: bits)
    requires forall i :: 0 <= i < |ks| ==> SignedCodable(ks[i])
    ensures SkipSigned(PutDeltas(ks, rest), |ks|) == rest
  {
    hide SE, PutSE;
    if ks == [] {
    } else {
      SEBack(ks[0], PutDeltas(ks[1..], rest));
      SignedBack(ks[1..], rest);
    }
  }

  lemma PicOrderBack(p: PicOrder, rest: bits)
    requires PicOrderOk(p)
    ensures SkipPicOrder(PutPicOrder(p, rest)) == rest
  {
    hide PutBit, PutUE, PutSE, UE, SE, Drop, SkipSigned, PutDeltas;
    match p
    case ByLsb(n) =>
      UEBack(0, PutUE(n, rest));
      UEBack(n, rest);
    case ByCycle(z, a, b, offsets) =>
      var cycle := PutUE(|offsets|, PutDeltas(offsets, rest));
      UEBack(1, PutBit(z, PutSE(a, PutSE(b, cycle))));
      BitBack(z, PutSE(a, PutSE(b, cycle)));
      SEBack(a, PutSE(b, cycle));
      SEBack(b, cycle);
      UEBack(|offsets|, PutDeltas(offsets, rest));
      SignedBack(offsets, rest);
    case ByOutput =>
      UEBack(2, rest);
  }

  lemma CropBack(c: Option<Crop>, rest: bits)
    requires c.Some? ==> CropOk(c.value)
    ensures SkipCrop(PutCrop(c, rest)) == rest
  {
    hide PutBit, PutUE, UE, Head, Tail;
    if c.None? {
      BitBack(0, rest);
    } else {
      var b := PutUE(c.value.bottom, rest);
      var t := PutUE(c.value.top, b);
      var r := PutUE(c.value.right, t);
      BitBack(1, PutUE(c.value.left, r));
      UEBack(c.value.left, r);
      UEBack(c.value.right, t);
      UEBack(c.value.top, b);
      UEBack(c.value.bottom, rest);
    }
  }

  lemma PictureBack(s: Sps, rest: bits)
    requires SpsOk(s)
    ensures SkipPicture(PutPicture(s, rest)) == rest
  {
    hide PutBit, PutUE, UE, Head, Tail, Drop, SkipCrop, PutCrop;
    var crop := PutCrop(s.crop, rest);
    var direct := PutBit(s.direct8x8, crop);
    var mbs := PutFieldFlag(s.fieldFlag, direct);
    var height := PutUE(s.height, mbs);
    var width := PutUE(s.width, height);
    UEBack(s.maxRefFrames, PutBit(s.gaps, width));
    BitBack(s.gaps, width);
    UEBack(s.width, height);
    UEBack(s.height, mbs);
    if s.fieldFlag.Some? {
      BitBack(0, PutBit(s.fieldFlag.value, direct));
      BitBack(s.fieldFlag.value, direct);
    } else {
      BitBack(1, direct);
    }
    BitBack(s.direct8x8, crop);
    CropBack(s.crop, rest);
  }

  lemma Pow2Values()
    ensures Pow2(3) == 8 && Pow2(8) == 0x100 && Pow2(16) == 0x1_0000 && Pow2(32) == 0x1_0000_0000
  {
    assert Pow2(8) == 0x100;
    assert Pow2(12) == 0x1000;
    assert Pow2(16) == 0x1_0000;
    assert Pow2(22) == 0x40_0000;
    assert Pow2(27) == 0x800_0000;
  }

  lemma AspectBack(a: Option<Aspect>, rest: bits)
    ensures SkipAspect(PutAspect(a, rest)) == rest
  {
    hide PutBit, PutBits, Head, Tail, Drop, Value;
    Pow2Values();
    if a.None? {
      BitBack(0, rest);
    } else if a.value.idc == 255 {
      var h := PutBits(a.value.height, 16, rest);
      var w := PutBits(a.value.width, 16, h);
      BitBack(1, PutBits(255, 8, w));
      BitsBack(255, 8, w);
      BitsBack(a.value.width, 16, h);
      BitsBack(a.value.height, 16, rest);
    } else {
      BitBack(1, PutBits(a.value.idc, 8, rest));
      BitsBack(a.value.idc, 8, rest);
    }
  }

  lemma OverscanBack(o: Option<bit>, rest: bits)
    ensures SkipOverscan(PutOverscan(o, rest)) == rest
  {
    hide PutBit, Head, Tail, Drop;
    if o.None? {
      BitBack(0, rest);
    } else {
      BitBack(1, PutBit(o.value, rest));
      BitBack(o.value, rest);
    }
  }

  lemma SignalBack(s: Option<Signal>, rest: bits)
    requires s.Some? ==> s.value.format < 8
    ensures SkipSignal(PutSignal(s, rest)) == rest
  {
    hide PutBit, PutBits, Head, Tail, Drop;
    Pow2Values();
    if s.None? {
      BitBack(0, rest);
    } else {
      var colour := PutColour(s.value.colour, rest);
      var range := PutBit(s.value.fullRange, colour);
      BitBack(1, PutBits(s.value.format, 3, range));
      BitsBack(s.value.format, 3, range);
      BitBack(s.value.fullRange, colour);
      if s.value.colour.None? {
        BitBack(0, rest);
      } else {
        var c := s.value.colour.value;
        BitBack(1, PutBits(c.0, 8, PutBits(c.1, 8, PutBits(c.2, 8, rest))));
        BitsBack(c.0, 8, PutBits(c.1, 8, PutBits(c.2, 8, rest)));
        BitsBack(c.1, 8, PutBits(c.2, 8, rest));
        BitsBack(c.2, 8, rest);
      }
    }
  }

  lemma ChromaLocBack(c: Option<(nat, nat)>, rest: bits)
    requires c.Some? ==> Codable(c.value.0) && Codable(c.value.1)
    ensures SkipChromaLoc(PutChromaLoc(c, rest)) == rest
  {
    hide PutBit, PutUE, UE, Head, Tail;
    if c.None? {
      BitBack(0, rest);
    } else {
      BitBack(1, PutUE(c.value.0, PutUE(c.value.1, rest)));
      UEBack(c.value.0, PutUE(c.value.1, rest));
      UEBack(c.value.1, rest);
    }
  }

  lemma TimingBack(t: Option<Timing>, rest: bits)
    ensures TimingFps(PutTiming(t, rest)) == AnnouncedBy(t)
  {
    hide PutBit, PutBits, Head, Tail, Drop, Value;
    Pow2Values();
    if t.None? {
      BitBack(0, rest);
    } else {
      var scale := PutBits(t.value.scale, 32, rest);
      BitBack(1, PutBits(t.value.units, 32, scale));
      BitsBack(t.value.units, 32, scale);
      BitsBack(t.value.scale, 32, rest);
    }
  }

  lemma VuiBack(v: Option<Vui>, rest: bits)
    requires v.Some? ==> VuiOk(v.value)
    ensures VuiFps(PutVui(v, rest))
            == AnnouncedBy(if v.Some? then v.value.timing else None)
  {
    hide PutBit, Head, Tail, SkipAspect, SkipOverscan, SkipSignal, SkipChromaLoc, TimingFps,
         PutAspect, PutOverscan, PutSignal, PutChromaLoc, PutTiming;
    if v.None? {
      BitBack(0, rest);
    } else {
      var timing := PutTiming(v.value.timing, rest);
      var chroma := PutChromaLoc(v.value.chromaLoc, timing);
      var signal := PutSignal(v.value.signal, chroma);
      var overscan := PutOverscan(v.value.overscan, signal);
      BitBack(1, PutAspect(v.value.aspect, overscan));
      AspectBack(v.value.aspect, overscan);
      OverscanBack(v.value.overscan, signal);
      SignalBack(v.value.signal, chroma);
      ChromaLocBack(v.value.chromaLoc, timing);
      TimingBack(v.value.timing, rest);
    }
  }

  /** Every parameter set, printed as the standard says, is parsed to the frame rate it
      announces, unless its profile is one of the four whose chroma and scaling block the
      parser does not expect. */
  lemma SpsBack(s: Sps, rest: bits)
    requires SpsOk(s) && s.profile !in {138, 139, 134, 135}
    ensures FpsOfBits(PutSps(s, rest)) == Announced(s)
  {
    hide PutBits, PutUE, UE, Drop, Value, SkipHigh, PutHigh, SkipPicOrder, PutPicOrder, SkipPicture, PutPicture,
         VuiFps, PutVui, HighOk, PicOrderOk, CropOk, VuiOk;
    Pow2Values();
    var vui := PutVui(s.vui, rest);
    var picture := PutPicture(s, vui);
    var order := PutPicOrder(s.picOrder, picture);
    var tail := PutUE(s.log2FrameNum, order);
    var high := if SyntaxHasHigh(s.profile) then PutHigh(s.high, tail) else tail;
    var id := PutUE(s.id, high);
    var level := PutBits(s.level, 8, id);
    var constraints := PutBits(s.constraints, 8, level);
    BitsBack(s.profile, 8, constraints);
    BitsBack(s.constraints, 8, level);
    BitsBack(s.level, 8, id);
    UEBack(s.id, high);
    if SyntaxHasHigh(s.profile) {
      HighBack(s.high, tail);
    }
    UEBack(s.log2FrameNum, order);
    PicOrderBack(s.picOrder, picture);
    PictureBack(s, vui);
    VuiBack(s.vui, rest);
  }

  // ----- the four profiles the parser does not know -----

  lemma UEOfBit(rest: bits)
    ensures PutUE(0, rest) == PutBit(1, rest)
  {
    assert Zeros(0) + [1] + Bits(0, 0) == [1];
  }

  lemma FirstBits(v: nat, rest: bits)
    ensures v >= 1 ==> Head(PutUE(v, rest)) == 0
    ensures v >= 3 ==> Head(Tail(PutUE(v, rest))) == 0
  {
    var z := CodeZeros(v);
    assert v >= 3 ==> z >= 2;
    if z >= 1 {
      assert PutUE(v, rest)[0] == 0;
    }
    if z >= 2 {
      assert PutUE(v, rest)[1] == 0;
    }
  }

  /** For those profiles the block is taken for the fields behind it. With the values below the
      parser then sees no VUI and returns 25 whatever the parameter set announces. */
  lemma UnknownHighProfileMisread(s: Sps, rest: bits)
    requires SpsOk(s) && s.profile in {138, 139, 134, 135}
    requires s.high == HighBlock(1, 0, 0, 0, 1, None)
    requires s.picOrder == ByOutput && s.maxRefFrames == 0 && s.width >= 3
    ensures FpsOfBits(PutSps(s, rest)) == Fps(25, 1)
  {
    hide FpsOfBits, PutSps, PutUE, UE, VuiFps, SkipPicture, PutVui, SpsOk, PutBit, Drop, Head, PutPicture;
    SpsOkFields(s);
    var vui := PutVui(s.vui, rest);
    var tail := PutUE(s.log2FrameNum, PutUE(2, PutPicture(s, vui)));
    var bypass := PutBit(1, PutBit(0, tail));
    var chromaDepth := PutUE(0, bypass);
    var lumaDepth := PutUE(0, chromaDepth);
    SkippedBlock(s, rest);
    UEBack(1, lumaDepth);
    UEBack(0, chromaDepth);
    UEBack(0, bypass);
    MisreadPicture(s, vui);
  }

  /** All parameter sets with this profile are parsed to the frame rate they announce. */
  ghost predicate AlwaysReadBack(profile: byte) {
    forall s, rest :: SpsOk(s) && s.profile == profile ==> FpsOfBits(PutSps(s, rest)) == Announced(s)
  }

  /** A parameter set of 50 frames a second. */
  function FiftyPerSecond(profile: byte): Sps {
    Sps(profile, 0, 0, 0, HighBlock(1, 0, 0, 0, 1, None), 0, ByOutput, 0, 0, 3, 0, None, 0, None,
        Some(Vui(None, None, None, None, Some(Timing(1, 100)))))
  }

  /** The parser can be relied on for a profile if and only if it is not one of the four. */
  lemma ReadBackExactly(profile: byte)
    ensures AlwaysReadBack(profile) <==> profile !in {138, 139, 134, 135}
  {
    hide FpsOfBits, PutSps;
    if profile in {138, 139, 134, 135} {
      var s := FiftyPerSecond(profile);
      assert SpsOk(s);
      UnknownHighProfileMisread(s, []);
      assert Announced(s) == Fps(100, 2);
    } else {
      forall s, rest | SpsOk(s) && s.profile == profile ensures FpsOfBits(PutSps(s, rest)) == Announced(s) {
        SpsBack(s, rest);
      }
    }
  }

  lemma UnknownToParser(profile: nat)
    requires profile in {138, 139, 134, 135}
    ensures SyntaxHasHigh(profile) && !ParserExpectsHigh(profile)
  {
  }

  /** The parser goes on with the block as if it were not there. */
  lemma SkippedBlock(s: Sps, rest: bits)
    requires SpsOk(s) && s.profile in {138, 139, 134, 135}
    ensures var tail := PutUE(s.log2FrameNum, PutPicOrder(s.picOrder, PutPicture(s, PutVui(s.vui, rest))));
            FpsOfBits(PutSps(s, rest)) == VuiFps(SkipPicture(SkipPicOrder(UE(PutHigh(s.high, tail)).rest)))
  {
    hide PutBits, PutUE, UE, Drop, Value, PutHigh, PutPicOrder, PutPicture, PutVui, VuiFps, SkipPicture,
         SkipPicOrder, SpsOk, SyntaxHasHigh, ParserExpectsHigh;
    UnknownToParser(s.profile);
    SpsOkFields(s);
    Pow2Values();
    var tail := PutUE(s.log2FrameNum, PutPicOrder(s.picOrder, PutPicture(s, PutVui(s.vui, rest))));
    var id := PutUE(s.id, PutHigh(s.high, tail));
    var level := PutBits(s.level, 8, id);
    var constraints := PutBits(s.constraints, 8, level);
    BitsBack(s.profile, 8, constraints);
    BitsBack(s.constraints, 8, level);
    BitsBack(s.level, 8, id);
    UEBack(s.id, PutHigh(s.high, tail));
  }

  lemma SpsOkFields(s: Sps)
    requires SpsOk(s)
    ensures Codable(s.id) && Codable(s.log2FrameNum)
  {
  }

  lemma MisreadPicture(s: Sps, vui: bits)
    requires Codable(s.log2FrameNum) && s.maxRefFrames == 0 && s.width >= 3
    ensures VuiFps(SkipPicture(PutBit(1, PutBit(0, PutUE(s.log2FrameNum, PutUE(2, PutPicture(s, vui)))))))
            == DEFAULT_FPS
  {
    hide PutUE, UE, Drop, Value, PutBit, Head, Tail, PutCrop, PutFieldFlag, TimingFps, SkipAspect;
    var picture := PutPicture(s, vui);
    var order := PutUE(2, picture);
    var frameNum := PutUE(s.log2FrameNum, order);
    UEOfBit(PutBit(0, frameNum));
    UEBack(0, PutBit(0, frameNum));
    BitBack(0, frameNum);
    UEBack(s.log2FrameNum, order);
    UEBack(2, picture);
    var width := PutUE(s.width, PutUE(s.height, PutFieldFlag(s.fieldFlag, PutBit(s.direct8x8, PutCrop(s.crop, vui)))));
    UEOfBit(PutBit(s.gaps, width));
    BitBack(1, PutBit(s.gaps, width));
    BitBack(s.gaps, width);
    FirstBits(s.width, PutUE(s.height, PutFieldFlag(s.fieldFlag, PutBit(s.direct8x8, PutCrop(s.crop, vui)))));
  }
}
