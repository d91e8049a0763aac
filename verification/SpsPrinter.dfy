/** Parameter sets as byte strings: the syntax of SpsSyntax with its stop bit, packed into
    bytes, with emulation prevention and a start code. */
module SpsPrinter {
  import opened Wrappers
  import opened Bytes
  import opened BitReader
  import opened SpsSyntax

  // ----- packing -----

  /** The number a bit string denotes. */
  function FromBits(b: bits): (v: nat)
    ensures v < Pow2(|b|)
  {
    if b == [] then 0 else 2 * FromBits(b[..|b| - 1]) + b[|b| - 1]
  }

  function PackByte(b: bits): byte
    requires |b| == 8
  {
    Pow2Of8();
    FromBits(b)
  }

  function Pack(b: bits): (s: bytes)
    requires |b| % 8 == 0
    ensures |s| == |b| / 8
  {
    if b == [] then [] else Pack(b[..|b| - 8]) + [PackByte(b[|b| - 8..])]
  }

  lemma {:induction false} BitsOfFromBits(b: bits)
    ensures Bits(FromBits(b), |b|) == b
  {
    if b == [] {
    } else {
      var init, last := b[..|b| - 1], b[|b| - 1];
      BitsOfFromBits(init);
      BitsStep(FromBits(init), last, |init|);
      assert b == init + [last];
    }
  }

  lemma BitsStep(v: nat, last: bit, n: nat)
    ensures Bits(2 * v + last, n + 1) == Bits(v, n) + [last]
  {
  }

  lemma {:induction false} UnpackOfPack(b: bits)
    requires |b| % 8 == 0
    ensures Unpack(Pack(b)) == b
  {
    hide Bits, FromBits;
    if b == [] {
    } else {
      var init, last := b[..|b| - 8], b[|b| - 8..];
      UnpackOfPack(init);
      BitsOfFromBits(last);
      assert Pack(b)[..|Pack(b)| - 1] == Pack(init);
      assert b == init + last;
    }
  }

  lemma {:induction false} BitsOfZero(n: nat, k: nat)
    requires k < n
    ensures Bits(0, n)[k] == 0
  {
    if k < n - 1 {
      BitsOfZero(n - 1, k);
    }
  }

  /** A one among the last eight bits makes the last byte nonzero. */
  lemma LastByteOfPack(b: bits, k: nat)
    requires |b| % 8 == 0 && k < 8 && k < |b| && b[|b| - 1 - k] == 1
    ensures Pack(b) != [] && Pack(b)[|Pack(b)| - 1] != 0
  {
    var last := b[|b| - 8..];
    BitsOfFromBits(last);
    BitsOfZero(8, 7 - k);
    assert last[7 - k] == 1;
  }

  // ----- what comes last in the syntax comes last in the bits -----

  lemma BitAppend(x: bit, a: bits, b: bits)
    ensures PutBit(x, a + b) == PutBit(x, a) + b
  {
  }

  lemma BitsAppend(v: nat, n: nat, a: bits, b: bits)
    ensures PutBits(v, n, a + b) == PutBits(v, n, a) + b
  {
  }

  lemma UEAppend(v: nat, a: bits, b: bits)
    ensures PutUE(v, a + b) == PutUE(v, a) + b
  {
    hide UECode;
  }

  lemma SEAppend(k: int, a: bits, b: bits)
    ensures PutSE(k, a + b) == PutSE(k, a) + b
  {
    hide SECode;
  }

  lemma {:induction false} DeltasAppend(ds: seq<int>, a: bits, b: bits)
    ensures PutDeltas(ds, a + b) == PutDeltas(ds, a) + b
  {
    hide PutSE;
    if ds == [] {
    } else {
      DeltasAppend(ds[1..], a, b);
      SEAppend(ds[0], PutDeltas(ds[1..], a), b);
    }
  }

  lemma {:induction false} ListsAppend(ls: seq<Option<seq<int>>>, i: nat, a: bits, b: bits)
    requires i <= |ls|
    ensures PutLists(ls, i, a + b) == PutLists(ls, i, a) + b
    decreases |ls| - i
  {
    hide PutBit, PutDeltas;
    if i == |ls| {
    } else {
      ListsAppend(ls, i + 1, a, b);
      var later := PutLists(ls, i + 1, a);
      if ls[i].Some? {
        DeltasAppend(ls[i].value, later, b);
        BitAppend(1, PutDeltas(ls[i].value, later), b);
      } else {
        BitAppend(0, later, b);
      }
    }
  }

  lemma ScalingAppend(ls: Option<seq<Option<seq<int>>>>, a: bits, b: bits)
    ensures PutScaling(ls, a + b) == PutScaling(ls, a) + b
  {
    hide PutBit, PutLists;
    if ls.Some? {
      ListsAppend(ls.value, 0, a, b);
      BitAppend(1, PutLists(ls.value, 0, a), b);
    } else {
      BitAppend(0, a, b);
    }
  }

  lemma HighAppend(h: HighBlock, a: bits, b: bits)
    ensures PutHigh(h, a + b) == PutHigh(h, a) + b
  {
    hide PutBit, PutUE, PutScaling;
    ScalingAppend(h.scaling, a, b);
    var scaling := PutScaling(h.scaling, a);
    BitAppend(h.bypass, scaling, b);
    var bypass := PutBit(h.bypass, scaling);
    UEAppend(h.chromaDepth, bypass, b);
    UEAppend(h.lumaDepth, PutUE(h.chromaDepth, bypass), b);
    var depths := PutUE(h.lumaDepth, PutUE(h.chromaDepth, bypass));
    BitAppend(h.separatePlanes, depths, b);
    UEAppend(h.chromaFormat, if h.chromaFormat == 3 then PutBit(h.separatePlanes, depths) else depths, b);
  }

  lemma PicOrderAppend(p: PicOrder, a: bits, b: bits)
    ensures PutPicOrder(p, a + b) == PutPicOrder(p, a) + b
  {
    hide PutBit, PutUE, PutSE, PutDeltas;
    match p
    case ByLsb(n) =>
      UEAppend(n, a, b);
      UEAppend(0, PutUE(n, a), b);
    case ByCycle(z, x, y, offsets) =>
      DeltasAppend(offsets, a, b);
      var deltas := PutDeltas(offsets, a);
      UEAppend(|offsets|, deltas, b);
      SEAppend(y, PutUE(|offsets|, deltas), b);
      SEAppend(x, PutSE(y, PutUE(|offsets|, deltas)), b);
      var signed := PutSE(x, PutSE(y, PutUE(|offsets|, deltas)));
      BitAppend(z, signed, b);
      UEAppend(1, PutBit(z, signed), b);
    case ByOutput =>
      UEAppend(2, a, b);
  }

  lemma CropAppend(c: Option<Crop>, a: bits, b: bits)
    ensures PutCrop(c, a + b) == PutCrop(c, a) + b
  {
    hide PutBit, PutUE;
    if c.Some? {
      var bottom := PutUE(c.value.bottom, a);
      var top := PutUE(c.value.top, bottom);
      var right := PutUE(c.value.right, top);
      UEAppend(c.value.bottom, a, b);
      UEAppend(c.value.top, bottom, b);
      UEAppend(c.value.right, top, b);
      UEAppend(c.value.left, right, b);
      BitAppend(1, PutUE(c.value.left, right), b);
    } else {
      BitAppend(0, a, b);
    }
  }

  lemma PictureAppend(s: Sps, a: bits, b: bits)
    ensures PutPicture(s, a + b) == PutPicture(s, a) + b
  {
    hide PutBit, PutUE, PutCrop;
    CropAppend(s.crop, a, b);
    var crop := PutCrop(s.crop, a);
    var direct := PutBit(s.direct8x8, crop);
    BitAppend(s.direct8x8, crop, b);
    FieldFlagAppend(s.fieldFlag, direct, b);
    var field := PutFieldFlag(s.fieldFlag, direct);
    UEAppend(s.height, field, b);
    UEAppend(s.width, PutUE(s.height, field), b);
    BitAppend(s.gaps, PutUE(s.width, PutUE(s.height, field)), b);
    UEAppend(s.maxRefFrames, PutBit(s.gaps, PutUE(s.width, PutUE(s.height, field))), b);
  }

  lemma FieldFlagAppend(f: Option<bit>, a: bits, b: bits)
    ensures PutFieldFlag(f, a + b) == PutFieldFlag(f, a) + b
  {
  }

  lemma AspectAppend(x: Option<Aspect>, a: bits, b: bits)
    ensures PutAspect(x, a + b) == PutAspect(x, a) + b
  {
    hide PutBit, PutBits;
    if x.None? {
      BitAppend(0, a, b);
    } else if x.value.idc == 255 {
      var height := PutBits(x.value.height, 16, a);
      var width := PutBits(x.value.width, 16, height);
      BitsAppend(x.value.height, 16, a, b);
      BitsAppend(x.value.width, 16, height, b);
      BitsAppend(255, 8, width, b);
      BitAppend(1, PutBits(255, 8, width), b);
    } else {
      BitsAppend(x.value.idc, 8, a, b);
      BitAppend(1, PutBits(x.value.idc, 8, a), b);
    }
  }

  lemma OverscanAppend(o: Option<bit>, a: bits, b: bits)
    ensures PutOverscan(o, a + b) == PutOverscan(o, a) + b
  {
  }

  lemma ColourAppend(c: Option<(byte, byte, byte)>, a: bits, b: bits)
    ensures PutColour(c, a + b) == PutColour(c, a) + b
  {
    hide PutBit, PutBits;
    if c.None? {
      BitAppend(0, a, b);
    } else {
      var matrix := PutBits(c.value.2, 8, a);
      var transfer := PutBits(c.value.1, 8, matrix);
      BitsAppend(c.value.2, 8, a, b);
      BitsAppend(c.value.1, 8, matrix, b);
      BitsAppend(c.value.0, 8, transfer, b);
      BitAppend(1, PutBits(c.value.0, 8, transfer), b);
    }
  }

  lemma SignalAppend(s: Option<Signal>, a: bits, b: bits)
    ensures PutSignal(s, a + b) == PutSignal(s, a) + b
  {
    hide PutBit, PutBits, PutColour;
    if s.None? {
      BitAppend(0, a, b);
    } else {
      var colour := PutColour(s.value.colour, a);
      var range := PutBit(s.value.fullRange, colour);
      ColourAppend(s.value.colour, a, b);
      BitAppend(s.value.fullRange, colour, b);
      BitsAppend(s.value.format, 3, range, b);
      BitAppend(1, PutBits(s.value.format, 3, range), b);
    }
  }

  lemma ChromaLocAppend(c: Option<(nat, nat)>, a: bits, b: bits)
    ensures PutChromaLoc(c, a + b) == PutChromaLoc(c, a) + b
  {
    hide PutBit, PutUE;
    if c.None? {
      BitAppend(0, a, b);
    } else {
      UEAppend(c.value.1, a, b);
      UEAppend(c.value.0, PutUE(c.value.1, a), b);
      BitAppend(1, PutUE(c.value.0, PutUE(c.value.1, a)), b);
    }
  }

  lemma TimingAppend(t: Option<Timing>, a: bits, b: bits)
    ensures PutTiming(t, a + b) == PutTiming(t, a) + b
  {
    hide PutBit, PutBits;
    if t.None? {
      BitAppend(0, a, b);
    } else {
      BitsAppend(t.value.scale, 32, a, b);
      BitsAppend(t.value.units, 32, PutBits(t.value.scale, 32, a), b);
      BitAppend(1, PutBits(t.value.units, 32, PutBits(t.value.scale, 32, a)), b);
    }
  }

  lemma VuiAppend(v: Option<Vui>, a: bits, b: bits)
    ensures PutVui(v, a + b) == PutVui(v, a) + b
  {
    hide PutBit, PutAspect, PutOverscan, PutSignal, PutChromaLoc, PutTiming;
    if v.None? {
      BitAppend(0, a, b);
    } else {
      var timing := PutTiming(v.value.timing, a);
      var chroma := PutChromaLoc(v.value.chromaLoc, timing);
      var signal := PutSignal(v.value.signal, chroma);
      var overscan := PutOverscan(v.value.overscan, signal);
      TimingAppend(v.value.timing, a, b);
      ChromaLocAppend(v.value.chromaLoc, timing, b);
      SignalAppend(v.value.signal, chroma, b);
      OverscanAppend(v.value.overscan, signal, b);
      AspectAppend(v.value.aspect, overscan, b);
      BitAppend(1, PutAspect(v.value.aspect, overscan), b);
    }
  }

  lemma SpsAppend(s: Sps, a: bits, b: bits)
    ensures PutSps(s, a + b) == PutSps(s, a) + b
  {
    hide PutBits, PutUE, PutHigh, PutPicOrder, PutPicture, PutVui, SyntaxHasHigh;
    var vui := PutVui(s.vui, a);
    var picture := PutPicture(s, vui);
    var order := PutPicOrder(s.picOrder, picture);
    var tail := PutUE(s.log2FrameNum, order);
    var high := if SyntaxHasHigh(s.profile) then PutHigh(s.high, tail) else tail;
    var id := PutUE(s.id, high);
    var level := PutBits(s.level, 8, id);
    VuiAppend(s.vui, a, b);
    PictureAppend(s, vui, b);
    PicOrderAppend(s.picOrder, picture, b);
    UEAppend(s.log2FrameNum, order, b);
    HighAppend(s.high, tail, b);
    UEAppend(s.id, high, b);
    BitsAppend(s.level, 8, id, b);
    BitsAppend(s.constraints, 8, level, b);
    BitsAppend(s.profile, 8, PutBits(s.constraints, 8, level), b);
  }

  // ----- the payload -----

  /** rbsp_trailing_bits: a stop bit and zeros up to a whole number of bytes. */
  function Trailing(length: nat): (t: bits)
    ensures (length + |t|) % 8 == 0 && 1 <= |t| <= 8
    ensures t[0] == 1
  {
    [1] + Zeros(7 - length % 8)
  }

  function WithTrailing(fields: bits): (b: bits)
    ensures |b| % 8 == 0
  {
    fields + Trailing(|fields|)
  }

  /** The payload of a parameter set; `more` holds the fields behind the timing. */
  function Payload(s: Sps, more: bits): bytes {
    Pack(WithTrailing(PutSps(s, more)))
  }

  lemma PayloadIsSyntax(s: Sps, more: bits)
    ensures Unpack(Payload(s, more)) == PutSps(s, more + Trailing(|PutSps(s, more)|))
    ensures Payload(s, more) != [] && Payload(s, more)[|Payload(s, more)| - 1] != 0
  {
    hide PutSps, Pack, Unpack, Trailing;
    var fields := PutSps(s, more);
    var t := Trailing(|fields|);
    SpsAppend(s, more, t);
    UnpackOfPack(fields + t);
    assert (fields + t)[|fields|] == 1;
    LastByteOfPack(fields + t, |t| - 1);
  }
}
