/** The media message format: fixed header, layered extension headers, payload,
    and how a receiver reads one message. */
module FrameFormat {
  import opened Bytes
  import opened Wrappers

  const PROTOCOL_MAGIC: uint16 := 0xEB01
  const PROTOCOL_VERSION: byte := 1
  const FIXED_HEADER_SIZE := 20
  const FRAGMENT_EXT_SIZE := 6
  const MAX_FRAGMENTS := 256
  const VIDEO: byte := 1
  const AUDIO: byte := 2
  const FLAG_FRAGMENT: byte := 1
  const FLAG_HAS_COMMON: byte := 8

  predicate IsFragment(flags: byte) { flags % 2 == 1 }

  predicate HasCommon(flags: byte) { flags / 8 % 2 == 1 }

  predicate HasAbsTime(commonFlags: byte) { commonFlags % 2 == 1 }

  // ----- what a message says -----

  datatype FragmentPart = FragmentPart(frameId: uint16, index: uint16, total: uint16)

  datatype TypeFields = TypeFields(videoCodec: byte, videoFrameType: byte, videoResolution: uint16,
                                   audioCodec: byte, audioSampleRate: byte, audioChannels: byte)

  datatype ExtFields = ExtFields(fragment: FragmentPart, absTime: int64, kind: TypeFields)

  /** Everything about a frame except its bytes. */
  datatype Meta = Meta(msgType: byte, timestamp: int64, absTime: int64, kind: TypeFields)

  datatype ParsedFrame = ParsedFrame(meta: Meta, payload: bytes)

  /** One message as the receiver understands it. */
  datatype Message =
    | Rejected
    | Skipped
    | Whole(frame: ParsedFrame)
    | Fragment(part: FragmentPart, meta: Meta, payload: bytes)

  const NO_FRAGMENT := FragmentPart(0, 0, 0)
  const NO_TYPE_FIELDS := TypeFields(0, 0, 0, 0, 0, 0)
  const NO_META := Meta(0, 0, 0, NO_TYPE_FIELDS)

  // ----- reading the extension region, layer by layer -----

  function FragmentLayer(ext: bytes, flags: byte): FragmentPart {
    if IsFragment(flags) && FRAGMENT_EXT_SIZE <= |ext|
    then FragmentPart(ReadBE16(ext[0..2]), ReadBE16(ext[2..4]), ReadBE16(ext[4..6]))
    else NO_FRAGMENT
  }

  function CommonStart(ext: bytes, flags: byte): byte {
    if IsFragment(flags) && FRAGMENT_EXT_SIZE <= |ext| then FRAGMENT_EXT_SIZE else 0
  }

  function AbsTimeLayer(ext: bytes, flags: byte): int64 {
    var at := CommonStart(ext, flags);
    if HasCommon(flags) && at + 10 <= |ext| && HasAbsTime(ext[at + 1]) && 10 <= ext[at]
    then ReadBE64(ext[at + 2..at + 10])
    else 0
  }

  /** Where the type-specific part begins: the receiver keeps this offset in eight bits. */
  function TypeStart(ext: bytes, flags: byte): byte {
    var at := CommonStart(ext, flags);
    if HasCommon(flags) && at + 2 <= |ext| then (at + ext[at]) % 256 else at
  }

  function TypeLayer(part: bytes, msgType: byte): TypeFields {
    if |part| < 4 then NO_TYPE_FIELDS
    else if msgType == VIDEO then TypeFields(part[0], part[1], ReadBE16(part[2..4]), 0, 0, 0)
    else if msgType == AUDIO then TypeFields(0, 0, 0, part[0], part[1], part[2])
    else NO_TYPE_FIELDS
  }

  function ExtFieldsOf(ext: bytes, flags: byte, msgType: byte): ExtFields {
    var at := TypeStart(ext, flags);
    ExtFields(FragmentLayer(ext, flags), AbsTimeLayer(ext, flags),
              TypeLayer(if at <= |ext| then ext[at..] else [], msgType))
  }

  // ----- reading a message -----

  /** The size a message announces for itself. */
  function AnnouncedSize(d: bytes): nat
    requires |d| >= FIXED_HEADER_SIZE
  {
    FIXED_HEADER_SIZE + d[13] + ReadBE32(d[14..18])
  }

  /** The receiver adds the sizes up as signed 32-bit numbers. */
  predicate PassesSizeCheck(d: bytes)
    requires |d| >= FIXED_HEADER_SIZE
  {
    |d| >= ToSigned32(AnnouncedSize(d))
  }

  predicate IsCurrent(d: bytes) {
    |d| >= FIXED_HEADER_SIZE && ReadBE16(d[0..2]) == PROTOCOL_MAGIC && d[2] == PROTOCOL_VERSION
  }

  /** The receiver does not take a message for longer than it is. Its size is a signed 32-bit
      number; the announced one may be anything. */
  predicate InBounds(d: bytes) {
    && |d| < 0x8000_0000
    && (IsCurrent(d) && PassesSizeCheck(d) ==> |d| >= AnnouncedSize(d))
  }

  type Datagram = d: bytes | InBounds(d) witness []

  function Decode(d: Datagram): Message {
    if |d| < FIXED_HEADER_SIZE || ReadBE16(d[0..2]) != PROTOCOL_MAGIC then Rejected
    else if d[2] != PROTOCOL_VERSION then Skipped
    else
      var extEnd := FIXED_HEADER_SIZE + d[13];
      var end := extEnd + ReadBE32(d[14..18]);
      if |d| < end then Rejected
      else
        var fields := ExtFieldsOf(d[FIXED_HEADER_SIZE..extEnd], d[4], d[3]);
        var meta := Meta(d[3], ReadBE64(d[5..13]), fields.absTime, fields.kind);
        var payload := d[extEnd..end];
        if !IsFragment(d[4]) then Whole(ParsedFrame(meta, payload))
        else if fields.fragment.total == 0 || fields.fragment.total > MAX_FRAGMENTS then Rejected
        else Fragment(fields.fragment, meta, payload)
  }

  function DecodeAll(ds: seq<Datagram>): (ms: seq<Message>)
    ensures |ms| == |ds|
  {
    seq(|ds|, i requires 0 <= i < |ds| => Decode(ds[i]))
  }

  // ----- writing a message -----

  function FixedHeader(msgType: byte, flags: byte, timestamp: int64, extLength: byte, payloadLength: uint32): (s: bytes)
    ensures |s| == FIXED_HEADER_SIZE
  {
    BE(PROTOCOL_MAGIC, 2) + [PROTOCOL_VERSION, msgType, flags] + BE(ToUnsigned64(timestamp), 8)
    + [extLength] + BE(payloadLength, 4) + [0, 0]
  }

  /** The common extension header: its own length, a bit set, abs_time if bit 0 is set,
      then the bytes of fields this receiver does not know. */
  datatype CommonPart = CommonPart(commonFlags: byte, absTime: int64, unknown: bytes)

  /** A well-formed extension region. */
  datatype ExtLayout = ExtLayout(fragment: Option<FragmentPart>, common: Option<CommonPart>, typePart: bytes)

  function PrintFragmentPart(p: FragmentPart): (s: bytes)
    ensures |s| == FRAGMENT_EXT_SIZE
  {
    BE(p.frameId, 2) + BE(p.index, 2) + BE(p.total, 2)
  }

  function CommonLength(c: CommonPart): nat {
    2 + (if HasAbsTime(c.commonFlags) then 8 else 0) + |c.unknown|
  }

  function PrintCommonPart(c: CommonPart): (s: bytes)
    requires CommonLength(c) < 256
    ensures |s| == CommonLength(c)
  {
    [CommonLength(c), c.commonFlags]
    + (if HasAbsTime(c.commonFlags) then BE(ToUnsigned64(c.absTime), 8) else [])
    + c.unknown
  }

  function LayoutLength(l: ExtLayout): nat {
    (if l.fragment.Some? then FRAGMENT_EXT_SIZE else 0)
    + (if l.common.Some? then CommonLength(l.common.value) else 0) + |l.typePart|
  }

  function PrintLayout(l: ExtLayout): (s: bytes)
    requires LayoutLength(l) < 256
    ensures |s| == LayoutLength(l)
  {
    (if l.fragment.Some? then PrintFragmentPart(l.fragment.value) else [])
    + (if l.common.Some? then PrintCommonPart(l.common.value) else [])
    + l.typePart
  }

  /** The flags byte announces exactly the layers present (its other bits are free). */
  predicate Announces(flags: byte, l: ExtLayout) {
    && (IsFragment(flags) <==> l.fragment.Some?)
    && (HasCommon(flags) <==> l.common.Some?)
  }

  function PrintMessage(msgType: byte, flags: byte, timestamp: int64, l: ExtLayout, payload: bytes): bytes
    requires LayoutLength(l) < 256
    requires |payload| < 0x1_0000_0000
  {
    FixedHeader(msgType, flags, timestamp, LayoutLength(l), |payload|) + PrintLayout(l) + payload
  }

  // ----- printed regions and messages are read back -----

  lemma FragmentPartReadBack(p: FragmentPart, rest: bytes, flags: byte)
    requires IsFragment(flags)
    ensures FragmentLayer(PrintFragmentPart(p) + rest, flags) == p
  {
    ReadWrite16(p.frameId);
    ReadWrite16(p.index);
    ReadWrite16(p.total);
    var s := PrintFragmentPart(p) + rest;
    assert s[0..2] == BE(p.frameId, 2) && s[2..4] == BE(p.index, 2) && s[4..6] == BE(p.total, 2);
  }

  lemma Middle(a: bytes, b: bytes, c: bytes)
    ensures (a + b + c)[|a|..|a| + |b|] == b
  {
  }

  lemma CommonPartReadBack(before: bytes, c: CommonPart, rest: bytes, flags: byte)
    requires CommonLength(c) < 256
    requires HasCommon(flags)
    requires |before| == (if IsFragment(flags) then FRAGMENT_EXT_SIZE else 0)
    requires |before| + CommonLength(c) + |rest| < 256
    ensures var ext := before + PrintCommonPart(c) + rest;
            && AbsTimeLayer(ext, flags) == (if HasAbsTime(c.commonFlags) then c.absTime else 0)
            && TypeStart(ext, flags) == |before| + CommonLength(c)
            && ext[|before| + CommonLength(c)..] == rest
  {
    var ext := before + PrintCommonPart(c) + rest;
    var at := |before|;
    assert CommonStart(ext, flags) == at;
    assert ext[at] == CommonLength(c) && ext[at + 1] == c.commonFlags;
    if HasAbsTime(c.commonFlags) {
      var time := BE(ToUnsigned64(c.absTime), 8);
      assert ext == before + [CommonLength(c), c.commonFlags] + time + (c.unknown + rest);
      Middle(before + [CommonLength(c), c.commonFlags], time, c.unknown + rest);
      ReadWrite64(c.absTime);
    }
  }

  /** A well-formed extension region is read back exactly, whatever unknown common fields,
      unknown bits of the two flag bytes and trailing type-specific bytes it carries. */
  lemma LayoutReadBack(l: ExtLayout, flags: byte, msgType: byte)
    requires LayoutLength(l) < 256
    requires Announces(flags, l)
    ensures var e := ExtFieldsOf(PrintLayout(l), flags, msgType);
            && e.fragment == (if l.fragment.Some? then l.fragment.value else NO_FRAGMENT)
            && e.absTime == (if l.common.Some? && HasAbsTime(l.common.value.commonFlags)
                  then l.common.value.absTime else 0)
            && e.kind == TypeLayer(l.typePart, msgType)
  {
    var ext := PrintLayout(l);
    var before := if l.fragment.Some? then PrintFragmentPart(l.fragment.value) else [];
    var rest := ext[|before|..];
    assert ext == before + rest;
    if l.fragment.Some? {
      FragmentPartReadBack(l.fragment.value, rest, flags);
    }
    if l.common.Some? {
      CommonPartReadBack(before, l.common.value, l.typePart, flags);
      assert ext == before + PrintCommonPart(l.common.value) + l.typePart;
    } else {
      assert rest == l.typePart;
    }
  }

  /** What a newer sender may write: further common bits with their bytes, and a longer
      type-specific part. */
  function Newer(l: ExtLayout, commonFlags: byte, unknown: bytes, trailing: bytes): ExtLayout
    requires l.common.Some?
  {
    var c := l.common.value;
    ExtLayout(l.fragment, Some(CommonPart(commonFlags, c.absTime, c.unknown + unknown)), l.typePart + trailing)
  }

  /** Forward compatibility: an old receiver decodes the same fields. */
  lemma {:induction false} ForwardCompatible(l: ExtLayout, flags: byte, msgType: byte,
                                             newerFlags: byte, unknown: bytes, trailing: bytes)
    requires l.common.Some? && HasAbsTime(newerFlags) == HasAbsTime(l.common.value.commonFlags)
    requires |l.typePart| >= 4
    requires LayoutLength(Newer(l, newerFlags, unknown, trailing)) < 256
    requires Announces(flags, l)
    ensures LayoutLength(l) < 256
    ensures ExtFieldsOf(PrintLayout(Newer(l, newerFlags, unknown, trailing)), flags, msgType)
            == ExtFieldsOf(PrintLayout(l), flags, msgType)
  {
    hide ExtFieldsOf, PrintLayout;
    LayoutReadBack(Newer(l, newerFlags, unknown, trailing), flags, msgType);
    LayoutReadBack(l, flags, msgType);
    assert (l.typePart + trailing)[2..4] == l.typePart[2..4];
  }

  /** The design document discards a message whose common_length exceeds what is left of the
      region. The receiver does not: its eight-bit offset wraps, and here the video fields are
      read out of the fragment header. */
  lemma OversizedCommonLengthIsNotDiscarded(p: FragmentPart, timestamp: int64, payload: bytes)
    requires 1 <= p.total <= MAX_FRAGMENTS && |payload| < 0x1_0000
    ensures var ext := PrintFragmentPart(p) + [250, 0];
            var d := FixedHeader(VIDEO, 9, timestamp, 8, |payload|) + ext + payload;
            && CommonStart(ext, 9) + 250 > |ext|
            && InBounds(d)
            && Decode(d).Fragment? && Decode(d).part == p && Decode(d).payload == payload
            && Decode(d).meta.kind == TypeFields(ext[0], ext[1], p.index, 0, 0, 0)
  {
    var ext := PrintFragmentPart(p) + [250, 0];
    var d := FixedHeader(VIDEO, 9, timestamp, 8, |payload|) + ext + payload;
    HeaderReadBack(VIDEO, 9, timestamp, ext, payload);
    FragmentPartReadBack(p, [250, 0], 9);
    ReadWrite16(p.index);
    assert ext[2..4] == BE(p.index, 2);
    assert ext[0..] == ext;
  }

  /** There is room for the fragment part and for a common part of the length it gives itself. */
  predicate LayersFit(ext: bytes, flags: byte) {
    && (IsFragment(flags) ==> FRAGMENT_EXT_SIZE <= |ext|)
    && (HasCommon(flags) ==> var at := CommonStart(ext, flags); at + 2 <= |ext| && at + ext[at] <= |ext|)
  }

  /** The document's minimum for the type-specific part; none for a type it does not list. */
  function TypeMinimum(msgType: byte): nat {
    if msgType == VIDEO then 4 else if msgType == AUDIO then 3 else if msgType == 3 || msgType == 4 then 4
    else if msgType == 5 then 2 else 0
  }

  predicate IsLaterFragment(ext: bytes, flags: byte) {
    IsFragment(flags) && FragmentLayer(ext, flags).index > 0
  }

  /** The messages the document allows to be read: the layers fit and, but for later fragments,
      what they leave is at least the minimum for the type. It wants all others discarded. */
  predicate DocumentAccepts(ext: bytes, flags: byte, msgType: byte) {
    && LayersFit(ext, flags)
    && var at: nat := CommonStart(ext, flags);
       var start: nat := if HasCommon(flags) then at + ext[at] else at;
       IsLaterFragment(ext, flags) || |ext| - start >= TypeMinimum(msgType)
  }

  function ExtOf(d: bytes): bytes
    requires |d| >= FIXED_HEADER_SIZE && |d| >= AnnouncedSize(d)
  {
    d[FIXED_HEADER_SIZE..FIXED_HEADER_SIZE + d[13]]
  }

  /** No room for a fragment part, or a total of 0 or above 256. */
  predicate BadFragmentPart(ext: bytes) {
    |ext| < FRAGMENT_EXT_SIZE || ReadBE16(ext[4..6]) == 0 || ReadBE16(ext[4..6]) > MAX_FRAGMENTS
  }

  /** Which complete messages the receiver discards: exactly the fragments without a usable
      fragment part. So of the messages that the document wants discarded it discards those and no
      others: neither a malformed common part nor a short type-specific part is ever a reason. */
  lemma {:induction false} DiscardsExactly(d: Datagram)
    requires IsCurrent(d) && |d| >= AnnouncedSize(d)
    ensures Decode(d) == Rejected <==> IsFragment(d[4]) && BadFragmentPart(ExtOf(d))
    ensures (!DocumentAccepts(ExtOf(d), d[4], d[3]) ==> Decode(d) == Rejected)
            <==> DocumentAccepts(ExtOf(d), d[4], d[3]) || (IsFragment(d[4]) && BadFragmentPart(ExtOf(d)))
  {
    hide TypeLayer, AbsTimeLayer, TypeStart, DocumentAccepts;
    assert ExtOf(d) == d[FIXED_HEADER_SIZE..FIXED_HEADER_SIZE + d[13]];
  }

  /** An input: a video message with two bytes of type-specific part is delivered without fields. */
  lemma ShortTypePartIsNotDiscarded(timestamp: int64, payload: bytes)
    requires |payload| < 0x1_0000
    ensures var d := FixedHeader(VIDEO, 0, timestamp, 2, |payload|) + [1, 2] + payload;
            && !DocumentAccepts([1, 2], 0, VIDEO)
            && InBounds(d)
            && Decode(d) == Whole(ParsedFrame(Meta(VIDEO, timestamp, 0, NO_TYPE_FIELDS), payload))
  {
    HeaderReadBack(VIDEO, 0, timestamp, [1, 2], payload);
  }

  /** The document's audio part of three bytes is accepted too, and its fields are ignored. */
  lemma DocumentedAudioPartIsIgnored(timestamp: int64, kind: bytes, payload: bytes)
    requires |kind| == 3 && |payload| < 0x1_0000
    ensures var d := FixedHeader(AUDIO, 0, timestamp, 3, |payload|) + kind + payload;
            && DocumentAccepts(kind, 0, AUDIO)
            && InBounds(d)
            && Decode(d) == Whole(ParsedFrame(Meta(AUDIO, timestamp, 0, NO_TYPE_FIELDS), payload))
  {
    HeaderReadBack(AUDIO, 0, timestamp, kind, payload);
  }

  /** What becomes of the others whose common_length points beyond the region: four bytes are
      taken for type-specific fields if and only if the eight-bit offset wraps to leave room for
      them. */
  lemma OversizedCommonLengthExactly(ext: bytes, flags: byte, msgType: byte)
    requires |ext| < 256 && HasCommon(flags)
    requires var at := CommonStart(ext, flags); at + 2 <= |ext| && at + ext[at] > |ext|
    ensures var at := CommonStart(ext, flags);
            var wrapped := at + ext[at] - 256;
            ExtFieldsOf(ext, flags, msgType).kind
            == if 0 <= wrapped && wrapped + 4 <= |ext| then TypeLayer(ext[wrapped..], msgType) else NO_TYPE_FIELDS
  {
    var at: nat := CommonStart(ext, flags);
    var end: nat := at + ext[at];
    assert end % 256 == if end >= 256 then end - 256 else end;
  }

  // ----- which regions some sender can have meant -----

  predicate WellFormed(ext: bytes, flags: byte) {
    && LayersFit(ext, flags)
    && (HasCommon(flags) ==> var at := CommonStart(ext, flags);
                             (if HasAbsTime(ext[at + 1]) then 10 else 2) <= ext[at])
  }

  ghost predicate IsPrint(ext: bytes, flags: byte, l: ExtLayout) {
    LayoutLength(l) < 256 && Announces(flags, l) && PrintLayout(l) == ext
  }

  function CommonPartOf(part: bytes): CommonPart
    requires |part| >= 2 && (HasAbsTime(part[1]) ==> |part| >= 10)
  {
    if HasAbsTime(part[1]) then CommonPart(part[1], ReadBE64(part[2..10]), part[10..])
    else CommonPart(part[1], 0, part[2..])
  }

  lemma CommonPartPrinted(part: bytes)
    requires |part| >= 2 && (HasAbsTime(part[1]) ==> |part| >= 10)
    requires part[0] == |part|
    ensures CommonLength(CommonPartOf(part)) == |part|
    ensures PrintCommonPart(CommonPartOf(part)) == part
  {
    if HasAbsTime(part[1]) {
      WriteRead64(part[2..10]);
      assert part == [part[0], part[1]] + part[2..10] + part[10..];
    } else {
      assert part == [part[0], part[1]] + [] + part[2..];
    }
  }

  lemma FragmentPartPrinted(ext: bytes, flags: byte)
    requires IsFragment(flags) && |ext| >= FRAGMENT_EXT_SIZE
    ensures PrintFragmentPart(FragmentLayer(ext, flags)) == ext[..FRAGMENT_EXT_SIZE]
  {
    BEOfFromBE(ext[0..2]);
    BEOfFromBE(ext[2..4]);
    BEOfFromBE(ext[4..6]);
    assert ext[..FRAGMENT_EXT_SIZE] == ext[0..2] + ext[2..4] + ext[4..6];
  }

  /** The layout a well-formed region stands for. */
  function LayoutOf(ext: bytes, flags: byte): ExtLayout
    requires WellFormed(ext, flags)
  {
    var at := CommonStart(ext, flags);
    var end := if HasCommon(flags) then at + ext[at] else at;
    ExtLayout(if IsFragment(flags) then Some(FragmentLayer(ext, flags)) else None,
              if HasCommon(flags) then Some(CommonPartOf(ext[at..end])) else None,
              ext[end..])
  }

  lemma {:induction false} LayoutPrinted(ext: bytes, flags: byte)
    requires |ext| < 256 && WellFormed(ext, flags)
    ensures IsPrint(ext, flags, LayoutOf(ext, flags))
  {
    hide FragmentLayer, CommonPartOf, CommonLength, PrintFragmentPart, PrintCommonPart;
    var at: nat := CommonStart(ext, flags);
    var end: nat := if HasCommon(flags) then at + ext[at] else at;
    if IsFragment(flags) {
      FragmentPartPrinted(ext, flags);
    }
    if HasCommon(flags) {
      CommonPartPrinted(ext[at..end]);
    }
    assert ext == ext[..at] + ext[at..end] + ext[end..];
  }

  /** A region is what some sender prints under these flags if and only if it is well formed. With
      LayoutReadBack: exactly then are the fields decoded those a sender meant. */
  lemma {:induction false} WellFormedExactly(ext: bytes, flags: byte)
    requires |ext| < 256
    ensures WellFormed(ext, flags) <==> exists l :: IsPrint(ext, flags, l)
  {
    hide IsPrint, WellFormed, LayoutOf;
    if WellFormed(ext, flags) {
      LayoutPrinted(ext, flags);
    }
    if l :| IsPrint(ext, flags, l) {
      PrintIsWellFormed(ext, flags, l);
    }
  }

  lemma PrintIsWellFormed(ext: bytes, flags: byte, l: ExtLayout)
    requires IsPrint(ext, flags, l)
    ensures WellFormed(ext, flags)
  {
    hide PrintFragmentPart;
    var before := if l.fragment.Some? then PrintFragmentPart(l.fragment.value) else [];
    assert CommonStart(ext, flags) == |before|;
    if l.common.Some? {
      var part := PrintCommonPart(l.common.value);
      assert ext == before + part + l.typePart;
      assert ext[|before|] == part[0] && ext[|before| + 1] == part[1];
    }
  }

  // ----- messages that announce more than they hold -----

  /** The signed sum lets a message pass that is shorter than it announces if and only if the sum
      leaves the signed range and, taken back by 2^32, is no more than the size. */
  lemma ShortMessagePassesExactly(d: bytes)
    requires FIXED_HEADER_SIZE <= |d| < 0x8000_0000
    ensures PassesSizeCheck(d) && |d| < AnnouncedSize(d)
            <==> AnnouncedSize(d) >= 0x8000_0000 && |d| + 0x1_0000_0000 >= AnnouncedSize(d)
  {
    var n := AnnouncedSize(d);
    if n >= 0x1_0000_0000 {
      assert n % 0x1_0000_0000 == n - 0x1_0000_0000;
    }
  }

  /** A header of twenty bytes and no more that announces 2^31 bytes of payload passes. */
  lemma ShortMessagePasses(timestamp: int64)
    ensures var d := FixedHeader(VIDEO, 0, timestamp, 0, 0x8000_0000);
            |d| == FIXED_HEADER_SIZE && IsCurrent(d) && PassesSizeCheck(d) && !InBounds(d)
  {
    var d := FixedHeader(VIDEO, 0, timestamp, 0, 0x8000_0000);
    ReadWrite16(PROTOCOL_MAGIC);
    ReadWrite32(0x8000_0000);
    assert d[0..2] == BE(PROTOCOL_MAGIC, 2);
    assert d[14..18] == BE(0x8000_0000, 4);
  }

  lemma HeaderReadBack(msgType: byte, flags: byte, timestamp: int64, ext: bytes, payload: bytes)
    requires |ext| < 256 && |payload| < 0x1_0000_0000
    ensures var d := FixedHeader(msgType, flags, timestamp, |ext|, |payload|) + ext + payload;
            && |d| == FIXED_HEADER_SIZE + |ext| + |payload|
            && ReadBE16(d[0..2]) == PROTOCOL_MAGIC && d[2] == PROTOCOL_VERSION && d[3] == msgType && d[4] == flags
            && ReadBE64(d[5..13]) == timestamp && d[13] == |ext| && ReadBE32(d[14..18]) == |payload|
            && d[FIXED_HEADER_SIZE..FIXED_HEADER_SIZE + |ext|] == ext
            && d[FIXED_HEADER_SIZE + |ext|..FIXED_HEADER_SIZE + |ext| + |payload|] == payload
  {
    var d := FixedHeader(msgType, flags, timestamp, |ext|, |payload|) + ext + payload;
    ReadWrite16(PROTOCOL_MAGIC);
    ReadWrite64(timestamp);
    ReadWrite32(|payload|);
    assert d[0..2] == BE(PROTOCOL_MAGIC, 2);
    assert d[5..13] == BE(ToUnsigned64(timestamp), 8);
    assert d[14..18] == BE(|payload|, 4);
  }

  /** A printed message is decoded to what was printed. */
  lemma MessageReadBack(msgType: byte, flags: byte, timestamp: int64, l: ExtLayout, payload: bytes)
    requires LayoutLength(l) < 256 && Announces(flags, l)
    requires |payload| < 0x7FFF_FE00
    requires l.fragment.Some? ==> 1 <= l.fragment.value.total <= MAX_FRAGMENTS
    ensures var d := PrintMessage(msgType, flags, timestamp, l, payload);
            var absTime := if l.common.Some? && HasAbsTime(l.common.value.commonFlags)
                then l.common.value.absTime else 0;
            var meta := Meta(msgType, timestamp, absTime, TypeLayer(l.typePart, msgType));
            && InBounds(d)
            && Decode(d) == (if l.fragment.Some? then Fragment(l.fragment.value, meta, payload)
                             else Whole(ParsedFrame(meta, payload)))
  {
    HeaderReadBack(msgType, flags, timestamp, PrintLayout(l), payload);
    LayoutReadBack(l, flags, msgType);
  }

  /** A printed fragment whose total is out of range is rejected. */
  lemma BadTotalRejected(msgType: byte, flags: byte, timestamp: int64, l: ExtLayout, payload: bytes)
    requires LayoutLength(l) < 256 && Announces(flags, l)
    requires |payload| < 0x7FFF_FE00
    requires l.fragment.Some? && (l.fragment.value.total == 0 || l.fragment.value.total > MAX_FRAGMENTS)
    ensures var d := PrintMessage(msgType, flags, timestamp, l, payload);
            InBounds(d) && Decode(d) == Rejected
  {
    HeaderReadBack(msgType, flags, timestamp, PrintLayout(l), payload);
    LayoutReadBack(l, flags, msgType);
  }

  // ----- the same, byte by byte -----

  /** Eight bytes for a signed number. */
  function SignedOctets(v: int64): bytes {
    Octets(if v < 0 then v + 0x1_0000_0000_0000_0000 else v, 8)
  }

  /** The fixed header, written out. */
  lemma HeaderBytes(msgType: byte, flags: byte, timestamp: int64, extLength: byte, payloadLength: uint32)
    ensures FixedHeader(msgType, flags, timestamp, extLength, payloadLength)
            == [0xEB, 0x01, 1, msgType, flags] + SignedOctets(timestamp) + [extLength]
               + Octets(payloadLength, 4) + [0, 0]
  {
    BEIsOctets(0xEB01, 2);
    OctetValues(0xEB01);
    BEIsOctets(ToUnsigned64(timestamp), 8);
    BEIsOctets(payloadLength, 4);
    assert BE(PROTOCOL_MAGIC, 2) == [0xEB, 0x01];
    assert [0xEB, 0x01] + [1, msgType, flags] == [0xEB, 0x01, 1, msgType, flags];
  }

  lemma FragmentPartBytes(p: FragmentPart)
    ensures PrintFragmentPart(p) == Octets(p.frameId, 2) + Octets(p.index, 2) + Octets(p.total, 2)
  {
    BEIsOctets(p.frameId, 2);
    BEIsOctets(p.index, 2);
    BEIsOctets(p.total, 2);
  }

  lemma CommonPartBytes(absTime: int64)
    ensures PrintCommonPart(CommonPart(1, absTime, [])) == [10, 1] + SignedOctets(absTime)
  {
    BEIsOctets(ToUnsigned64(absTime), 8);
    assert [10, 1] + BE(ToUnsigned64(absTime), 8) + [] == [10, 1] + BE(ToUnsigned64(absTime), 8);
  }

  /** The length of the region and of the whole message, as a message of twenty bytes and more gives
      them. */
  function TotalSize(d: bytes): nat
    requires |d| >= 20
  {
    20 + d[13] + Four(d, 14)
  }

  /** Which messages are discarded, which skipped, and which are fragments, told from the bytes. */
  lemma {:induction false} VerdictBytes(d: Datagram)
    ensures Decode(d).Rejected?
            <==> || |d| < 20 || d[0] != 0xEB || d[1] != 0x01
                 || (d[2] == 1 && |d| < TotalSize(d))
                 || (d[2] == 1 && d[4] % 2 == 1 && (d[13] < 6 || Two(d, 24) == 0 || Two(d, 24) > 256))
    ensures Decode(d).Skipped? <==> |d| >= 20 && d[0] == 0xEB && d[1] == 0x01 && d[2] != 1
    ensures Decode(d).Fragment? ==> d[4] % 2 == 1
    ensures Decode(d).Whole? ==> d[4] % 2 == 0
  {
    hide AbsTimeLayer, TypeLayer, TypeStart, ReadBE16, ReadBE32, ReadBE64;
    if |d| >= 20 {
      ReadTwo(d, 0);
      ReadFour(d, 14);
      if |d| >= TotalSize(d) {
        FragmentBytes(d);
      }
    }
  }

  lemma SliceOfSlice(s: bytes, a: nat, b: nat, i: nat, j: nat)
    requires i <= j && a + j <= b <= |s|
    ensures s[a..b][i..j] == s[a + i..a + j]
  {
    forall k | 0 <= k < j - i ensures s[a..b][i..j][k] == s[a + i..a + j][k] {
      assert s[a..b][i + k] == s[a + i + k];
    }
  }

  /** The fragment part of a complete message. */
  lemma FragmentBytes(d: bytes)
    requires |d| >= 20 && |d| >= TotalSize(d)
    ensures 20 + d[13] <= |d|
    ensures FragmentLayer(d[20..20 + d[13]], d[4])
            == if d[4] % 2 == 1 && d[13] >= 6 then FragmentPart(Two(d, 20), Two(d, 22), Two(d, 24))
               else FragmentPart(0, 0, 0)
  {
    hide ReadBE16;
    var region: nat := d[13];
    var ext, end := d[20..20 + region], 20 + region;
    if d[4] % 2 == 1 && d[13] >= 6 {
      SliceOfSlice(d, 20, end, 0, 2);
      SliceOfSlice(d, 20, end, 2, 4);
      SliceOfSlice(d, 20, end, 4, 6);
      ReadTwo(d, 20);
      ReadTwo(d, 22);
      ReadTwo(d, 24);
    }
  }

  /** The metadata, the part and the payload of a message that is taken. */
  function MetaOf(m: Message): Meta
    requires m.Whole? || m.Fragment?
  {
    if m.Whole? then m.frame.meta else m.meta
  }

  function PayloadOf(m: Message): bytes
    requires m.Whole? || m.Fragment?
  {
    if m.Whole? then m.frame.payload else m.payload
  }

  /** Its fields, told from the bytes. The type-specific part begins behind the fragment part and the
      common part, by a sum kept in eight bits. */
  lemma {:induction false} FieldBytes(d: Datagram)
    requires Decode(d).Whole? || Decode(d).Fragment?
    ensures |d| >= 20 && |d| >= TotalSize(d)
    ensures var m := Decode(d);
            && MetaOf(m).msgType == d[3] && MetaOf(m).timestamp == Signed8(d, 5)
            && PayloadOf(m) == d[20 + d[13]..TotalSize(d)]
            && (m.Fragment? ==> m.part == FragmentPart(Two(d, 20), Two(d, 22), Two(d, 24)))
    ensures var region: nat, fragment: nat := d[13], if d[4] % 2 == 1 then 6 else 0;
            var common := d[4] / 8 % 2 == 1;
            && MetaOf(Decode(d)).absTime
               == (if common && fragment + 10 <= region && d[20 + fragment] >= 10 && d[21 + fragment] % 2 == 1
                   then Signed8(d, 22 + fragment) else 0)
            && var at := if common && fragment + 2 <= region then (fragment + d[20 + fragment]) % 256 else fragment;
               MetaOf(Decode(d)).kind
               == if at + 4 > region then TypeFields(0, 0, 0, 0, 0, 0)
                  else if d[3] == 1 then TypeFields(d[20 + at], d[21 + at], Two(d, 22 + at), 0, 0, 0)
                  else if d[3] == 2 then TypeFields(0, 0, 0, d[20 + at], d[21 + at], d[22 + at])
                  else TypeFields(0, 0, 0, 0, 0, 0)
  {
    hide Decode, Two, Four, Signed8, ReadBE32, ReadBE64, FragmentLayer, AbsTimeLayer, KindLayer, ExtFieldsOf, InBounds;
    VerdictBytes(d);
    DecodeParts(d);
    HeaderNumbers(d);
    FragmentBytes(d);
    AbsTimeBytes(d);
    KindBytes(d);
  }

  lemma DecodeParts(d: Datagram)
    requires Decode(d).Whole? || Decode(d).Fragment?
    ensures |d| >= 20 && |d| >= 20 + d[13] + ReadBE32(d[14..18])
    ensures var m := Decode(d);
            var fields := ExtFieldsOf(d[20..20 + d[13]], d[4], d[3]);
            && MetaOf(m) == Meta(d[3], ReadBE64(d[5..13]), fields.absTime, fields.kind)
            && PayloadOf(m) == d[20 + d[13]..20 + d[13] + ReadBE32(d[14..18])]
            && (m.Fragment? ==> m.part == fields.fragment)
            && fields == ExtFields(FragmentLayer(d[20..20 + d[13]], d[4]), AbsTimeLayer(d[20..20 + d[13]], d[4]),
                                   KindLayer(d[20..20 + d[13]], d[4], d[3]))
  {
    hide AbsTimeLayer, TypeLayer, TypeStart, FragmentLayer, ReadBE64;
  }

  function KindLayer(ext: bytes, flags: byte, msgType: byte): TypeFields {
    var at := TypeStart(ext, flags);
    TypeLayer(if at <= |ext| then ext[at..] else [], msgType)
  }

  lemma HeaderNumbers(d: bytes)
    requires |d| >= 20
    ensures ReadBE32(d[14..18]) == Four(d, 14) && ReadBE64(d[5..13]) == Signed8(d, 5)
  {
    ReadFour(d, 14);
    ReadEight(d, 5);
  }

  lemma AbsTimeBytes(d: bytes)
    requires |d| >= 20 && |d| >= TotalSize(d) && (d[4] % 2 == 1 ==> d[13] >= 6)
    ensures 20 + d[13] <= |d|
    ensures var region: nat, fragment: nat := d[13], if d[4] % 2 == 1 then 6 else 0;
            AbsTimeLayer(d[20..20 + d[13]], d[4])
            == if d[4] / 8 % 2 == 1 && fragment + 10 <= region && d[20 + fragment] >= 10 && d[21 + fragment] % 2 == 1
               then Signed8(d, 22 + fragment) else 0
  {
    hide ReadBE64;
    var region: nat, fragment: nat := d[13], if d[4] % 2 == 1 then 6 else 0;
    var ext := d[20..20 + d[13]];
    assert CommonStart(ext, d[4]) == fragment;
    if fragment + 10 <= region {
      SliceOfSlice(d, 20, 20 + region, fragment + 2, fragment + 10);
      ReadEight(d, 22 + fragment);
    }
  }

  lemma KindBytes(d: bytes)
    requires |d| >= 20 && |d| >= TotalSize(d) && (d[4] % 2 == 1 ==> d[13] >= 6)
    ensures 20 + d[13] <= |d|
    ensures var region: nat, fragment: nat := d[13], if d[4] % 2 == 1 then 6 else 0;
            var at := if d[4] / 8 % 2 == 1 && fragment + 2 <= region then (fragment + d[20 + fragment]) % 256
                      else fragment;
            KindLayer(d[20..20 + d[13]], d[4], d[3])
            == if at + 4 > region then TypeFields(0, 0, 0, 0, 0, 0)
               else if d[3] == 1 then TypeFields(d[20 + at], d[21 + at], Two(d, 22 + at), 0, 0, 0)
               else if d[3] == 2 then TypeFields(0, 0, 0, d[20 + at], d[21 + at], d[22 + at])
               else TypeFields(0, 0, 0, 0, 0, 0)
  {
    hide TypeLayer, Two;
    var region: nat, fragment: nat := d[13], if d[4] % 2 == 1 then 6 else 0;
    var ext := d[20..20 + region];
    assert CommonStart(ext, d[4]) == fragment;
    var at: nat := TypeStart(ext, d[4]);
    if at <= region {
      assert ext[at..] == ext[at..region];
      SliceOfSlice(d, 20, 20 + region, at, region);
      TypeLayerBytes(d, 20 + at, 20 + region, d[3]);
    } else {
      TypeLayerBytes(d, 20, 20, d[3]);
      assert d[20..20] == [];
    }
  }

  lemma TypeLayerBytes(d: bytes, from: nat, end: nat, msgType: byte)
    requires from <= end <= |d|
    ensures TypeLayer(d[from..end], msgType)
            == if from + 4 > end then TypeFields(0, 0, 0, 0, 0, 0)
               else if msgType == 1 then TypeFields(d[from], d[from + 1], Two(d, from + 2), 0, 0, 0)
               else if msgType == 2 then TypeFields(0, 0, 0, d[from], d[from + 1], d[from + 2])
               else TypeFields(0, 0, 0, 0, 0, 0)
  {
    hide ReadBE16, Two;
    if from + 4 <= end {
      SliceOfSlice(d, from, end, 2, 4);
      ReadTwo(d, from + 2);
    }
  }
}
