/** The server's parameter set parser, driving a bit reader, and what it returns for parameter
    sets as they stand in a file. */
module SpsParser {
  import opened Bytes
  import opened BitReader
  import opened SpsSyntax
  import AnnexB
  import EP = EmulationPrevention
  import SpsPrinter

  /** Where the NAL unit begins behind its start code; 0 if there is none. */
  function StartCodeLength(nal: bytes): nat {
    if |nal| >= 4 && nal[0] == 0 && nal[1] == 0
    then (if nal[2] == 0 && nal[3] == 1 then 4 else if nal[2] == 1 then 3 else 0)
    else 0
  }

  /** ParseH264Fps as a function of the NAL unit. */
  function FpsOfNal(nal: bytes): Fps {
    var offset := StartCodeLength(nal);
    if offset == 0 || offset + 1 >= |nal| then DEFAULT_FPS
    else
      var rbsp := EP.Remove(nal[offset..]);
      if |rbsp| < 4 then DEFAULT_FPS else FpsOfBits(Unpack(rbsp[1..]))
  }

  // ----- the code -----

  method SkipScalingListBits(r: BitstreamReader, size: nat)
    requires r.Valid()
    modifies r
    ensures r.Valid() && r.Rest() == SkipScalingList(old(r.Rest()), size, 8, 8)
  {
    hide Unpack, SE;
    ghost var b := r.Rest();
    var lastScale: byte := 8;
    var nextScale: byte := 8;
    var j := 0;
    while j < size
      invariant 0 <= j <= size && r.Valid()
      invariant SkipScalingList(b, size, 8, 8) == SkipScalingList(r.Rest(), size - j, lastScale, nextScale)
    {
      if nextScale != 0 {
        var delta := r.ReadSE();
        nextScale := NextScale(lastScale, delta);
      }
      lastScale := if nextScale == 0 then lastScale else nextScale;
      j := j + 1;
    }
  }

  method SkipScalingMatrix(r: BitstreamReader, count: nat)
    requires r.Valid()
    modifies r
    ensures r.Valid() && r.Rest() == SkipScalingLists(old(r.Rest()), 0, count)
  {
    hide Unpack, Head, Tail, SkipScalingList;
    ghost var b := r.Rest();
    var i := 0;
    while i < count
      invariant 0 <= i <= count && r.Valid()
      invariant SkipScalingLists(b, 0, count) == SkipScalingLists(r.Rest(), i, count)
    {
      var present := r.ReadBit();
      if present == 1 {
        SkipScalingListBits(r, if i < 6 then 16 else 64);
      }
      i := i + 1;
    }
  }

  method SkipHighProfile(r: BitstreamReader)
    requires r.Valid()
    modifies r
    ensures r.Valid() && r.Rest() == SkipHigh(old(r.Rest()))
  {
    hide Unpack, Head, Tail, Drop, UE, SkipScalingLists;
    var chromaFormat := r.ReadUE();
    if chromaFormat == 3 {
      r.SkipBits(1);
    }
    var _ := r.ReadUE();
    var _ := r.ReadUE();
    r.SkipBits(1);
    var matrixPresent := r.ReadBit();
    if matrixPresent == 1 {
      SkipScalingMatrix(r, if chromaFormat != 3 then 8 else 12);
    }
  }

  method SkipPicOrderCount(r: BitstreamReader)
    requires r.Valid()
    modifies r
    ensures r.Valid() && r.Rest() == SkipPicOrder(old(r.Rest()))
  {
    hide Unpack, Drop, UE, SE;
    ghost var b := r.Rest();
    var kind := r.ReadUE();
    if kind == 0 {
      var _ := r.ReadUE();
    } else if kind == 1 {
      r.SkipBits(1);
      var _ := r.ReadSE();
      var _ := r.ReadSE();
      var cycle := r.ReadUE();
      ghost var c := r.Rest();
      var i := 0;
      while i < cycle
        invariant 0 <= i <= cycle && r.Valid()
        invariant SkipSigned(c, cycle) == SkipSigned(r.Rest(), cycle - i)
      {
        var _ := r.ReadSE();
        i := i + 1;
      }
    }
  }

  method SkipPictureFields(r: BitstreamReader)
    requires r.Valid()
    modifies r
    ensures r.Valid() && r.Rest() == SkipPicture(old(r.Rest()))
  {
    hide Unpack, Drop, UE, Head, Tail;
    var _ := r.ReadUE();
    r.SkipBits(1);
    var _ := r.ReadUE();
    var _ := r.ReadUE();
    var frameMbsOnly := r.ReadBit();
    if frameMbsOnly == 0 {
      r.SkipBits(1);
    }
    r.SkipBits(1);
    var cropping := r.ReadBit();
    if cropping == 1 {
      var _ := r.ReadUE();
      var _ := r.ReadUE();
      var _ := r.ReadUE();
      var _ := r.ReadUE();
    }
  }

  method SkipVideoSignal(r: BitstreamReader)
    requires r.Valid()
    modifies r
    ensures r.Valid() && r.Rest() == SkipSignal(old(r.Rest()))
  {
    hide Unpack, Drop, Head, Tail;
    var signal := r.ReadBit();
    if signal == 1 {
      r.SkipBits(3);
      r.SkipBits(1);
      var colour := r.ReadBit();
      if colour == 1 {
        r.SkipBits(8);
        r.SkipBits(8);
        r.SkipBits(8);
      }
    }
  }

  method SkipAspectAndOverscan(r: BitstreamReader)
    requires r.Valid()
    modifies r
    ensures r.Valid() && r.Rest() == SkipOverscan(SkipAspect(old(r.Rest())))
  {
    hide Unpack, Drop, Head, Tail, Value;
    ghost var b := r.Rest();
    var aspect := r.ReadBit();
    if aspect == 1 {
      ValueBound(r.Rest(), 8);
      Pow2Values();
      var idc := r.ReadBits(8);
      if idc == 255 {
        r.SkipBits(16);
        r.SkipBits(16);
      }
    }
    assert r.Rest() == SkipAspect(b);
    var overscan := r.ReadBit();
    if overscan == 1 {
      r.SkipBits(1);
    }
  }

  method ReadVuiFps(r: BitstreamReader) returns (fps: Fps)
    requires r.Valid()
    modifies r
    ensures r.Valid() && fps == VuiFps(old(r.Rest()))
  {
    hide Unpack, Drop, Head, Tail, UE, SkipAspect, SkipOverscan, SkipSignal;
    var vui := r.ReadBit();
    if vui == 0 {
      return DEFAULT_FPS;
    }
    SkipAspectAndOverscan(r);
    SkipVideoSignal(r);
    ghost var signal := r.Rest();
    var chromaLoc := r.ReadBit();
    if chromaLoc == 1 {
      var _ := r.ReadUE();
      var _ := r.ReadUE();
    }
    assert r.Rest() == SkipChromaLoc(signal);
    fps := ReadTiming(r);
  }

  method ReadTiming(r: BitstreamReader) returns (fps: Fps)
    requires r.Valid()
    modifies r
    ensures r.Valid() && fps == TimingFps(old(r.Rest()))
  {
    hide Unpack, Drop, Head, Tail, Value;
    var timing := r.ReadBit();
    if timing == 0 {
      return DEFAULT_FPS;
    }
    var numUnitsInTick := r.ReadBits(32);
    var timeScale := r.ReadBits(32);
    if numUnitsInTick == 0 || timeScale == 0 {
      return DEFAULT_FPS;
    }
    var units: nat := numUnitsInTick;
    fps := Fps(timeScale, 2 * units);
  }

  method ParseH264Fps(spsData: bytes) returns (fps: Fps)
    ensures fps == FpsOfNal(spsData)
  {
    hide Unpack, FpsOfBits, EP.Remove;
    var offset := 0;
    if |spsData| >= 4 && spsData[0] == 0 && spsData[1] == 0 {
      if spsData[2] == 0 && spsData[3] == 1 {
        offset := 4;
      } else if spsData[2] == 1 {
        offset := 3;
      }
    }
    if offset == 0 || offset + 1 >= |spsData| {
      return DEFAULT_FPS;
    }
    var rbsp := EP.RemoveEmulationPrevention(spsData[offset..]);
    if |rbsp| < 4 {
      return DEFAULT_FPS;
    }
    var reader := new BitstreamReader(rbsp[1..]);
    fps := ReadSpsFps(reader);
  }

  /** The fields behind the NAL header, one after the other. */
  method ReadSpsFps(r: BitstreamReader) returns (fps: Fps)
    requires r.Valid()
    modifies r
    ensures r.Valid() && fps == FpsOfBits(old(r.Rest()))
  {
    hide Unpack, Drop, Value, UE, SkipHigh, SkipPicOrder, SkipPicture, VuiFps, ParserExpectsHigh;
    var profileIdc := ReadProfile(r);
    if ParserExpectsHigh(profileIdc) {
      SkipHighProfile(r);
    }
    fps := ReadFromFrameNum(r);
  }

  /** profile_idc, the constraint flags, level_idc and the parameter set's id. */
  method ReadProfile(r: BitstreamReader) returns (profileIdc: byte)
    requires r.Valid()
    modifies r
    ensures r.Valid() && profileIdc == Value(old(r.Rest()), 8)
    ensures r.Rest() == UE(Drop(Drop(Drop(old(r.Rest()), 8), 8), 8)).rest
  {
    hide Unpack, Drop, Value, UE;
    ValueBound(r.Rest(), 8);
    Pow2Values();
    profileIdc := r.ReadBits(8);
    r.SkipBits(8);
    r.SkipBits(8);
    var _ := r.ReadUE();
  }

  method ReadFromFrameNum(r: BitstreamReader) returns (fps: Fps)
    requires r.Valid()
    modifies r
    ensures r.Valid() && fps == VuiFps(SkipPicture(SkipPicOrder(UE(old(r.Rest())).rest)))
  {
    hide Unpack, Drop, Value, UE, SkipPicOrder, SkipPicture, VuiFps;
    var _ := r.ReadUE();
    SkipPicOrderCount(r);
    SkipPictureFields(r);
    fps := ReadVuiFps(r);
  }

  // ----- parameter sets in a file -----

  lemma UnpackLength(data: bytes)
    ensures |Unpack(data)| == 8 * |data|
  {
  }

  /** An SPS in a stream: start code, NAL header, and the payload, all with emulation
      prevention. Its bits are those of the parameter set, then anything. */
  ghost predicate IsSpsNal(nal: bytes, long: bool, header: byte, payload: bytes, s: Sps, rest: bits) {
    && header != 0
    && payload != [] && payload[|payload| - 1] != 0
    && Unpack(payload) == PutSps(s, rest)
    && nal == (if long then [0, 0, 0, 1] else [0, 0, 1]) + EP.InsertAll([header] + payload)
  }

  lemma PutSpsLength(s: Sps, rest: bits)
    ensures |PutSps(s, rest)| >= 24
  {
    hide PutUE, PutHigh, PutPicOrder, PutPicture, PutVui;
  }

  /** Any NAL unit that carries the parameter set is parsed to the frame rate it announces. */
  lemma FpsRoundTrip(nal: bytes, long: bool, header: byte, payload: bytes, s: Sps, rest: bits)
    requires IsSpsNal(nal, long, header, payload, s, rest)
    requires SpsOk(s) && s.profile !in {138, 139, 134, 135}
    ensures FpsOfNal(nal) == Announced(s)
  {
    hide FpsOfBits, PutSps, Unpack, EP.Remove, EP.InsertAll, EP.TrailingZeros;
    var body := EP.InsertAll([header] + payload);
    var offset := if long then 4 else 3;
    assert nal[offset..] == body;
    EvenTrailing([header] + payload);
    EP.RoundTripWithTrailing([header] + payload);
    PutSpsLength(s, rest);
    UnpackLength(payload);
    InsertAllLength([header] + payload);
    assert ([header] + payload)[1..] == payload;
    SpsBack(s, rest);
  }

  /** A parameter set as a unit of a stream. */
  function SpsUnit(s: Sps, more: bits, header: byte, long: bool): AnnexB.Unit {
    AnnexB.Unit(long, EP.InsertAll([header] + SpsPrinter.Payload(s, more)))
  }

  lemma SpsUnitIsSpsNal(s: Sps, more: bits, header: byte, long: bool)
    requires header != 0
    ensures IsSpsNal(AnnexB.PrintUnit(SpsUnit(s, more, header, long)), long, header, SpsPrinter.Payload(s, more), s,
                     more + SpsPrinter.Trailing(|PutSps(s, more)|))
  {
    hide PutSps, Unpack, EP.InsertAll, SpsPrinter.Payload, SpsPrinter.Trailing;
    SpsPrinter.PayloadIsSyntax(s, more);
  }

  /** The whole chain, for every parameter set and start code: print the syntax, add the stop
      bit, pack, insert emulation prevention, put a start code in front; the parser returns the
      frame rate the parameter set announces. */
  lemma PrintedSpsIsRead(s: Sps, more: bits, header: byte, long: bool)
    requires SpsOk(s) && s.profile !in {138, 139, 134, 135} && header != 0
    ensures FpsOfNal(AnnexB.PrintUnit(SpsUnit(s, more, header, long))) == Announced(s)
  {
    hide *;
    SpsUnitIsSpsNal(s, more, header, long);
    FpsRoundTrip(AnnexB.PrintUnit(SpsUnit(s, more, header, long)), long, header, SpsPrinter.Payload(s, more), s,
                 more + SpsPrinter.Trailing(|PutSps(s, more)|));
  }

  lemma EvenTrailing(x: bytes)
    requires x != [] && x[|x| - 1] != 0
    ensures EP.TrailingZeros(x) == 0
  {
  }

  lemma {:induction false} InsertLength(x: bytes)
    ensures |EP.Insert(x)| >= |x|
  {
    if x == [] {
    } else {
      InsertLength(x[..|x| - 1]);
    }
  }

  lemma InsertAllLength(x: bytes)
    ensures |EP.InsertAll(x)| >= |x|
  {
    InsertLength(x);
  }
}
