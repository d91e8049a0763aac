/** Loading a raw stream: split, find the frame rate, group into access units. */
module NalParser {
  import opened Wrappers
  import opened Bytes
  import opened AnnexB
  import opened SpsSyntax
  import opened SpsParser
  import AU = AccessUnits
  import EP = EmulationPrevention
  import BitReader
  import SpsPrinter

  function SpsType(isH265: bool): byte {
    if isH265 then 33 else 7
  }

  /** The frame rate of the first parameter set among NAL units i and following. */
  function RateFrom(nals: seq<bytes>, i: nat, isH265: bool, h265Fps: bytes -> Fps): Fps
    requires i <= |nals|
    decreases |nals| - i
  {
    if i == |nals| then DEFAULT_FPS
    else if AU.NalType(nals[i], isH265) == SpsType(isH265) then (if isH265 then h265Fps(nals[i]) else FpsOfNal(nals[i]))
    else RateFrom(nals, i + 1, isH265, h265Fps)
  }

  class NalParser {
    var nalUnits: seq<bytes>
    var accessUnits: seq<AU.Group>
    var isH265: bool
    var frameRate: Fps

    constructor ()
    {
      nalUnits, accessUnits, isH265, frameRate := [], [], false, DEFAULT_FPS;
    }

    /** LoadFile, given the file's bytes unless it cannot be opened or read. The H.265 parameter set
        parser is a parameter. */
    method LoadFile(file: Option<bytes>, isH265: bool, h265Fps: bytes -> Fps) returns (ok: bool)
      modifies this
      ensures this.isH265 == isH265 && ok == file.Some?
      ensures file.None? ==>
                nalUnits == old(nalUnits) && accessUnits == old(accessUnits) && frameRate == DEFAULT_FPS
      ensures file.Some? ==>
                && nalUnits == Split(file.value)
                && frameRate == RateFrom(nalUnits, 0, isH265, h265Fps)
                && AU.Grouping(accessUnits, nalUnits, isH265)
                && forall gs :: AU.Grouping(gs, nalUnits, isH265) ==> |accessUnits| <= |gs|
    {
      hide Split, FpsOfNal, AU.Grouping, AU.NalType;
      this.isH265 := isH265;
      frameRate := DEFAULT_FPS;
      if file.None? {
        return false;
      }
      var buffer := file.value;
      nalUnits := ParseNalUnits(buffer);
      var spsType := SpsType(isH265);
      var i := 0;
      while i < |nalUnits|
        invariant 0 <= i <= |nalUnits| && nalUnits == Split(buffer) && this.isH265 == isH265
        invariant frameRate == DEFAULT_FPS
        invariant RateFrom(nalUnits, 0, isH265, h265Fps) == RateFrom(nalUnits, i, isH265, h265Fps)
      {
        if AU.NalType(nalUnits[i], isH265) == spsType {
          if isH265 {
            frameRate := h265Fps(nalUnits[i]);
          } else {
            frameRate := ParseH264Fps(nalUnits[i]);
          }
          break;
        }
        i := i + 1;
      }
      accessUnits := AU.GroupIntoAccessUnits(nalUnits, isH265);
      AU.FewestAccessUnits(nalUnits, isH265);
      ok := true;
    }
  }

  // ----- a printed stream -----

  lemma {:induction false} PrintedAt(us: seq<Unit>, n: nat, k: nat)
    requires k < n <= |us|
    ensures Printed(us, n)[k] == PrintUnit(us[k])
  {
    if k < n - 1 {
      PrintedAt(us, n - 1, k);
    }
  }

  lemma {:induction false} RateSkips(nals: seq<bytes>, i: nat, k: nat, h265Fps: bytes -> Fps)
    requires i <= k < |nals|
    requires forall j :: i <= j < k ==> AU.NalType(nals[j], false) != 7
    requires AU.NalType(nals[k], false) == 7
    ensures RateFrom(nals, i, false, h265Fps) == FpsOfNal(nals[k])
    decreases k - i
  {
    hide AU.NalType, FpsOfNal;
    if i < k {
      RateSkips(nals, i + 1, k, h265Fps);
    }
  }

  /** The type of a unit printed behind a start code is read from its first byte. */
  lemma TypeOfPrinted(u: Unit)
    requires BodyOk(u.body)
    ensures AU.NalType(PrintUnit(u), false) == u.body[0] % 32
  {
    var p := PrintUnit(u);
    assert p[|StartCode(u.long)|] == u.body[0];
  }

  /** A unit printed behind either start code is a parameter set by its first byte: type 7, of H.265
      type 33. */
  predicate SpsByte(h: byte, isH265: bool) {
    if isH265 then h / 2 % 64 == 33 else h % 32 == 7
  }

  lemma SpsOnBytes(u: Unit, isH265: bool)
    requires u.body != []
    ensures AU.NalType(PrintUnit(u), isH265) == SpsType(isH265) <==> SpsByte(u.body[0], isH265)
  {
    var p := PrintUnit(u);
    assert p[|StartCode(u.long)|] == u.body[0];
  }

  /** The frame rate of a printed stream is that of its first parameter set, 25 without one. */
  lemma {:induction false} RateOnBytes(us: seq<Unit>, i: nat, isH265: bool, h265Fps: bytes -> Fps)
    requires i <= |us| && forall j :: 0 <= j < |us| ==> us[j].body != []
    ensures var rate := RateFrom(Printed(us, |us|), i, isH265, h265Fps);
            || (rate == Fps(25, 1) && forall j :: i <= j < |us| ==> !SpsByte(us[j].body[0], isH265))
            || exists j :: i <= j < |us| && FirstSps(us, i, j, isH265)
                           && rate == (if isH265 then h265Fps(PrintUnit(us[j])) else FpsOfNal(PrintUnit(us[j])))
    decreases |us| - i
  {
    hide AU.NalType, FpsOfNal, SpsByte, FirstSps, PrintUnit, SpsType, Printed;
    if i < |us| {
      PrintedAt(us, |us|, i);
      SpsOnBytes(us[i], isH265);
      RateOnBytes(us, i + 1, isH265, h265Fps);
      FirstSpsNext(us, i, isH265);
    }
  }

  /** Unit j is the first parameter set from unit i on. */
  predicate FirstSps(us: seq<Unit>, i: nat, j: nat, isH265: bool)
    requires j < |us| && forall k :: 0 <= k < |us| ==> us[k].body != []
  {
    SpsByte(us[j].body[0], isH265) && forall k :: i <= k < j ==> !SpsByte(us[k].body[0], isH265)
  }

  lemma FirstSpsNext(us: seq<Unit>, i: nat, isH265: bool)
    requires i < |us| && forall k :: 0 <= k < |us| ==> us[k].body != []
    ensures SpsByte(us[i].body[0], isH265) ==> FirstSps(us, i, i, isH265)
    ensures !SpsByte(us[i].body[0], isH265) ==>
              forall j: nat :: i < j < |us| && FirstSps(us, i + 1, j, isH265) ==> FirstSps(us, i, j, isH265)
  {
  }

  /** The unit of a parameter set is well formed, and its first byte is the header. */
  lemma SpsUnitOk(s: Sps, more: BitReader.bits, header: byte, long: bool)
    requires header != 0
    ensures BodyOk(SpsUnit(s, more, header, long).body) && SpsUnit(s, more, header, long).body[0] == header
  {
    hide SpsPrinter.Payload;
    var payload := SpsPrinter.Payload(s, more);
    EP.InsertedIsBody([header] + payload);
    EP.InsertBehindHeader(header, payload);
  }

  function StreamWith(before: seq<Unit>, sps: Unit, after: seq<Unit>): seq<Unit> {
    before + [sps] + after
  }

  /** From syntax to playback: print a stream that has a parameter set, the first of its kind,
      somewhere among other NAL units, and load it: the NAL units come back, and the frame rate
      is the one the parameter set announces. */
  lemma StreamRoundTrip(before: seq<Unit>, after: seq<Unit>, s: Sps, more: BitReader.bits, header: byte, long: bool,
                        h265Fps: bytes -> Fps)
    requires UnitsOk(before) && UnitsOk(after)
    requires if before == [] then long else before[0].long
    requires forall j :: 0 <= j < |before| ==> before[j].body[0] % 32 != 7
    requires header % 32 == 7
    requires SpsOk(s) && s.profile !in {138, 139, 134, 135}
    ensures var us := StreamWith(before, SpsUnit(s, more, header, long), after);
            && Split(PrintStream(us, |us|)) == Printed(us, |us|)
            && RateFrom(Printed(us, |us|), 0, false, h265Fps) == Announced(s)
  {
    hide Split, PrintStream, AU.NalType, FpsOfNal, SpsOk, Printed, Announced, PrintUnit, BodyOk, SpsUnit;
    var sps := SpsUnit(s, more, header, long);
    var us, k := StreamWith(before, sps, after), |before|;
    SpsUnitOk(s, more, header, long);
    AllUnitsOk(before, sps, after);
    SpsUnitIsLong(s, more, header, long);
    SplitOfPrinted(us);
    var nals := Printed(us, |us|);
    forall j | 0 <= j < k ensures AU.NalType(nals[j], false) != 7 {
      PrintedAt(us, |us|, j);
      TypeOfPrinted(us[j]);
    }
    PrintedAt(us, |us|, k);
    TypeOfPrinted(sps);
    RateSkips(nals, 0, k, h265Fps);
    PrintedSpsIsRead(s, more, header, long);
  }

  lemma SpsUnitIsLong(s: Sps, more: BitReader.bits, header: byte, long: bool)
    ensures SpsUnit(s, more, header, long).long == long
  {
  }

  lemma AllUnitsOk(before: seq<Unit>, sps: Unit, after: seq<Unit>)
    requires UnitsOk(before) && BodyOk(sps.body) && UnitsOk(after)
    ensures UnitsOk(StreamWith(before, sps, after))
  {
    hide BodyOk;
  }
}
