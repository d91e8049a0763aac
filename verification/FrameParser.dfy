/** The client's parser: sixteen slots, updated in place, that refine the abstract table. */
module FrameParser {
  import opened Wrappers
  import opened Bytes
  import opened FrameFormat
  import opened Reassembly

  /** One slot of g_fragments. The chunk sizes are the lengths of the chunks. */
  datatype Slot = Slot(active: bool, frameId: uint16, total: nat, receivedCount: nat,
                       data: seq<bytes>, present: seq<bool>, meta: Meta)

  const FREE_SLOT := Slot(false, 0, 0, 0, [], [], NO_META)

  function Count(present: seq<bool>): nat {
    if present == [] then 0 else Count(present[..|present| - 1]) + (if present[|present| - 1] then 1 else 0)
  }

  lemma {:induction false} CountIsLengthWhenAll(present: seq<bool>)
    ensures Count(present) <= |present|
    ensures Count(present) == |present| <==> forall k :: 0 <= k < |present| ==> present[k]
  {
    if present == [] {
    } else {
      var init := present[..|present| - 1];
      CountIsLengthWhenAll(init);
      assert forall k :: 0 <= k < |init| ==> init[k] == present[k];
      assert present == init + [present[|present| - 1]];
    }
  }

  lemma {:induction false} CountAfterSet(present: seq<bool>, k: nat)
    requires k < |present| && !present[k]
    ensures Count(present[k := true]) == Count(present) + 1
  {
    var n := |present| - 1;
    if k == n {
      assert present[k := true][..n] == present[..n];
    } else {
      CountAfterSet(present[..n], k);
      assert present[k := true][..n] == present[..n][k := true];
    }
  }

  lemma {:induction false} CountOfNone(n: nat)
    ensures Count(seq(n, _ => false)) == 0
  {
    if n == 0 {
    } else {
      CountOfNone(n - 1);
      assert seq(n, _ => false)[..n - 1] == seq(n - 1, _ => false);
    }
  }

  ghost predicate ShapeOk(s: Slot) {
    s.active ==>
      && 1 <= s.total <= MAX_FRAGMENTS
      && |s.data| == |s.present| == s.total
      && s.receivedCount == Count(s.present)
  }

  /** A slot between calls: the count is exact and still short of the total. */
  ghost predicate SlotOk(s: Slot) {
    ShapeOk(s) && (s.active ==> s.receivedCount < s.total)
  }

  ghost predicate Distinct(ss: seq<Slot>) {
    forall i, j :: 0 <= i < j < |ss| && ss[i].active && ss[j].active ==> ss[i].frameId != ss[j].frameId
  }

  ghost predicate SlotsOk(ss: seq<Slot>) {
    && |ss| == MAX_ENTRIES
    && Distinct(ss)
    && forall i :: 0 <= i < |ss| ==> SlotOk(ss[i])
  }

  /** What a slot stands for. */
  ghost function Entry(s: Slot): Partial {
    Partial(s.total, map k: nat | k < |s.present| && k < |s.data| && s.present[k] :: s.data[k], s.meta)
  }

  ghost function TableOf(ss: seq<Slot>): Table {
    if ss == [] then map[]
    else
      var init, last := ss[..|ss| - 1], ss[|ss| - 1];
      if last.active then TableOf(init)[last.frameId := Entry(last)] else TableOf(init)
  }

  lemma FullWhenCounted(s: Slot)
    requires s.active && ShapeOk(s)
    ensures s.receivedCount <= s.total
    ensures s.receivedCount == s.total <==> IsFull(Entry(s))
  {
    CountIsLengthWhenAll(s.present);
    if IsFull(Entry(s)) {
      forall k | 0 <= k < |s.present| ensures s.present[k] {
        assert k in Entry(s).chunks;
      }
    }
  }

  ghost predicate Holds(ss: seq<Slot>, i: nat, id: uint16) {
    i < |ss| && ss[i].active && ss[i].frameId == id
  }

  lemma {:induction false} InTable(ss: seq<Slot>, id: uint16)
    ensures id in TableOf(ss) <==> exists i: nat :: Holds(ss, i, id)
  {
    if ss == [] {
    } else {
      var n := |ss| - 1;
      InTable(ss[..n], id);
      if id in TableOf(ss[..n]) {
        var i: nat :| Holds(ss[..n], i, id);
        assert Holds(ss, i, id);
      } else if id in TableOf(ss) {
        assert Holds(ss, n, id);
      }
      if i: nat :| Holds(ss, i, id) {
        assert i < n ==> Holds(ss[..n], i, id);
      }
    }
  }

  lemma DistinctPrefix(ss: seq<Slot>)
    requires Distinct(ss) && ss != []
    ensures var n := |ss| - 1;
            Distinct(ss[..n]) && (ss[n].active ==> ss[n].frameId !in TableOf(ss[..n]))
  {
    var n := |ss| - 1;
    InTable(ss[..n], ss[n].frameId);
  }

  lemma InNone(ss: seq<Slot>)
    requires forall i :: 0 <= i < |ss| ==> !ss[i].active
    ensures TableOf(ss) == map[]
  {
  }

  /** Writing one slot changes one entry of the table. */
  lemma {:induction false} WriteSlot(ss: seq<Slot>, i: nat, s: Slot)
    requires Distinct(ss) && i < |ss|
    requires s.active ==> forall j :: 0 <= j < |ss| && j != i && ss[j].active ==> ss[j].frameId != s.frameId
    ensures var rest := if ss[i].active then TableOf(ss) - {ss[i].frameId} else TableOf(ss);
            TableOf(ss[i := s]) == if s.active then rest[s.frameId := Entry(s)] else rest
  {
    var n := |ss| - 1;
    DistinctPrefix(ss);
    if i == n {
      assert ss[i := s][..n] == ss[..n];
    } else {
      WriteSlot(ss[..n], i, s);
      assert ss[i := s][..n] == ss[..n][i := s];
      assert ss[i := s][n] == ss[n];
    }
  }

  lemma {:induction false} AtSlot(ss: seq<Slot>, i: nat)
    requires Distinct(ss) && i < |ss| && ss[i].active
    ensures ss[i].frameId in TableOf(ss) && TableOf(ss)[ss[i].frameId] == Entry(ss[i])
  {
    var n := |ss| - 1;
    if i < n {
      AtSlot(ss[..n], i);
    }
  }

  lemma {:induction false} TableSize(ss: seq<Slot>)
    requires Distinct(ss)
    ensures |TableOf(ss)| <= |ss|
    ensures |TableOf(ss)| == |ss| <==> forall i :: 0 <= i < |ss| ==> ss[i].active
  {
    if ss == [] {
    } else {
      var n := |ss| - 1;
      DistinctPrefix(ss);
      TableSize(ss[..n]);
      assert forall i :: 0 <= i < n ==> ss[..n][i] == ss[i];
    }
  }

  /** Every reachable slot array stands for a well-formed table. */
  lemma SlotsGiveTable(ss: seq<Slot>)
    requires SlotsOk(ss)
    ensures TableOk(TableOf(ss))
    ensures RealVictim(TableOf(ss), ss[0].frameId)
  {
    TableSize(ss);
    if ss[0].active {
      AtSlot(ss, 0);
    }
    forall id | id in TableOf(ss) ensures EntryOk(TableOf(ss)[id]) {
      InTable(ss, id);
      var i: nat :| Holds(ss, i, id);
      AtSlot(ss, i);
      FullWhenCounted(ss[i]);
    }
  }

  class Parser {
    const slots: array<Slot>

    ghost predicate Valid()
      reads this, slots
    {
      SlotsOk(slots[..])
    }

    ghost function Contents(): Table
      requires Valid()
      reads this, slots
    {
      TableOf(slots[..])
    }

    /** The frame in the first slot. */
    ghost function FirstSlot(): Option<uint16>
      requires Valid()
      reads this, slots
    {
      if slots[0].active then Some(slots[0].frameId) else None
    }

    /** frame_protocol_init. */
    constructor ()
      ensures Valid() && fresh(slots)
      ensures Contents() == map[] && FirstSlot() == None
    {
      slots := new Slot[MAX_ENTRIES](_ => FREE_SLOT);
      new;
      InNone(slots[..]);
    }

    method FindFragmentEntry(frameId: uint16) returns (found: int)
      requires Valid()
      ensures -1 <= found < MAX_ENTRIES
      ensures found >= 0 ==> slots[found].active && slots[found].frameId == frameId
      ensures found == -1 <==> frameId !in Contents()
    {
      var i := 0;
      while i < MAX_ENTRIES
        invariant 0 <= i <= MAX_ENTRIES
        invariant forall j :: 0 <= j < i ==> !(slots[j].active && slots[j].frameId == frameId)
      {
        if slots[i].active && slots[i].frameId == frameId {
          AtSlot(slots[..], i);
          return i;
        }
        i := i + 1;
      }
      InTable(slots[..], frameId);
      found := -1;
    }

    /** The first free slot, or slot 0 with its frame thrown away. */
    method AllocFragmentEntry(frameId: uint16, total: nat) returns (at: nat)
      requires Valid() && frameId !in Contents() && 1 <= total <= MAX_FRAGMENTS
      modifies slots
      ensures Valid() && at < MAX_ENTRIES && slots[at].active && slots[at].frameId == frameId
      ensures Contents() == MakeRoom(old(Contents()), old(slots[0].frameId))[frameId := Partial(total, map[], NO_META)]
      ensures FirstSlot() == FirstSlotSeated(old(Contents()), old(FirstSlot()), frameId)
    {
      at := 0;
      while at < MAX_ENTRIES && slots[at].active
        invariant at <= MAX_ENTRIES
        invariant forall j :: 0 <= j < at ==> slots[j].active
      {
        at := at + 1;
      }
      TableSize(slots[..]);
      if at == MAX_ENTRIES {
        at := 0;
      } else {
        assert !slots[..][at].active;
      }
      var s := Slot(true, frameId, total, 0, seq(total, _ => []), seq(total, _ => false), NO_META);
      CountOfNone(total);
      FreshEntry(slots[..], at, s);
      slots[at] := s;
      assert slots[..] == old(slots[..])[at := s];
    }

    /** memcpy. */
    static method CopyInto(out: array<byte>, offset: nat, chunk: bytes)
      requires offset + |chunk| <= out.Length
      modifies out
      ensures out[..offset + |chunk|] == old(out[..offset]) + chunk
    {
      forall j | 0 <= j < |chunk| {
        out[offset + j] := chunk[j];
      }
    }

    method ReassembleFragments(at: nat) returns (buf: bytes)
      requires slots.Length == MAX_ENTRIES && at < MAX_ENTRIES
      requires slots[at].active && ShapeOk(slots[at]) && IsFull(Entry(slots[at]))
      ensures buf == JoinChunks(Entry(slots[at]).chunks, slots[at].total)
    {
      var entry := slots[at];
      ghost var chunks := Entry(entry).chunks;
      assert forall k: nat :: k < entry.total ==> k in chunks && chunks[k] == entry.data[k];
      var total := 0;
      var i := 0;
      while i < entry.total
        invariant 0 <= i <= entry.total
        invariant total == |JoinChunks(chunks, i)|
      {
        total := total + |entry.data[i]|;
        i := i + 1;
      }
      var out := new byte[total];
      var offset := 0;
      i := 0;
      while i < entry.total
        invariant 0 <= i <= entry.total
        invariant 0 <= offset <= total == out.Length
        invariant out[..offset] == JoinChunks(chunks, i)
      {
        JoinGrows(chunks, i + 1, entry.total);
        var chunk := entry.data[i];
        CopyInto(out, offset, chunk);
        offset := offset + |chunk|;
        i := i + 1;
      }
      assert out[..offset] == out[..];
      buf := out[..];
    }

    /** Files a fragment in its slot and delivers the frame when that completes it. */
    method StoreFragment(at: nat, index: uint16, meta: Meta, payload: bytes) returns (r: Outcome)
      requires Valid() && at < MAX_ENTRIES && slots[at].active
      modifies slots
      ensures Valid()
      ensures var id := old(slots[at].frameId);
              var t := old(Contents());
              && id in t
              && var entry := Absorb(t[id], index, meta, payload);
              if IsFull(entry)
              then Contents() == t - {id}
                   && r == Complete(ParsedFrame(entry.meta, JoinChunks(entry.chunks, entry.total)))
              else Contents() == t[id := entry] && r == Pending
      ensures FirstSlot() == if r.Complete? && old(FirstSlot()) == Some(old(slots[at].frameId)) then None
                             else old(FirstSlot())
    {
      ghost var ss := slots[..];
      AtSlot(ss, at);
      var s := slots[at];
      assert s == ss[at] && SlotOk(s);
      if index == 0 {
        s := s.(meta := meta);
      }
      if index < s.total && !s.present[index] {
        s := s.(data := s.data[index := payload], present := s.present[index := true],
                receivedCount := s.receivedCount + 1);
      }
      FilesFragment(ss[at], s, index, meta, payload);
      slots[at] := s;
      if s.receivedCount >= s.total {
        var joined := ReassembleFragments(at);
        r := Complete(ParsedFrame(s.meta, joined));
        s := s.(active := false, data := [], present := []);
        slots[at] := s;
      } else {
        r := Pending;
      }
      assert slots[..] == ss[at := s];
      RewriteEntry(ss, at, s);
    }

    /** parse_ext_headers: an eight-bit offset walks over the layers that are present. */
    method ParseExtHeaders(ext: bytes, flags: byte, msgType: byte) returns (e: ExtFields)
      requires |ext| < 256
      ensures e == ExtFieldsOf(ext, flags, msgType)
    {
      var fragment, absTime, kind := NO_FRAGMENT, 0, NO_TYPE_FIELDS;
      var offset: byte := 0;
      if IsFragment(flags) && offset + FRAGMENT_EXT_SIZE <= |ext| {
        fragment := FragmentPart(ReadBE16(ext[offset..offset + 2]), ReadBE16(ext[offset + 2..offset + 4]),
                                 ReadBE16(ext[offset + 4..offset + 6]));
        offset := offset + FRAGMENT_EXT_SIZE;
      }
      assert fragment == FragmentLayer(ext, flags) && offset == CommonStart(ext, flags);
      if HasCommon(flags) && offset + 2 <= |ext| {
        var commonLength := ext[offset];
        var commonFlags := ext[offset + 1];
        var fieldOffset: byte := 2;
        if HasAbsTime(commonFlags) && fieldOffset + 8 <= commonLength && offset + fieldOffset + 8 <= |ext| {
          absTime := ReadBE64(ext[offset + fieldOffset..offset + fieldOffset + 8]);
        }
        offset := (offset + commonLength) % 256;
      }
      assert absTime == AbsTimeLayer(ext, flags) && offset == TypeStart(ext, flags);
      kind := ParseTypeExt(ext, offset, msgType);
      e := ExtFields(fragment, absTime, kind);
    }

    /** Layer 3, at the offset where the first two layers end. */
    method ParseTypeExt(ext: bytes, offset: byte, msgType: byte) returns (kind: TypeFields)
      requires |ext| < 256
      ensures kind == TypeLayer(if offset <= |ext| then ext[offset..] else [], msgType)
    {
      kind := NO_TYPE_FIELDS;
      if offset + 4 <= |ext| {
        SliceOfTail(ext, offset, 2, 4);
        if msgType == VIDEO {
          kind := TypeFields(ext[offset], ext[offset + 1], ReadBE16(ext[offset + 2..offset + 4]), 0, 0, 0);
        } else if msgType == AUDIO {
          kind := TypeFields(0, 0, 0, ext[offset], ext[offset + 1], ext[offset + 2]);
        }
      }
    }

    /** frame_protocol_parse. Each call is one step of the abstract table; the frame that a full
        table loses is the one in slot 0. */
    method Parse(d: Datagram) returns (r: Outcome)
      requires Valid()
      modifies slots
      ensures Valid()
      ensures Reply(Contents(), r) == Step(old(Contents()), old(slots[0].frameId), Decode(d))
      ensures FirstSlot() == FirstSlotAfter(old(Contents()), old(FirstSlot()), Decode(d), r)
    {
      if |d| < FIXED_HEADER_SIZE {
        return Error;
      }
      if ReadBE16(d[0..2]) != PROTOCOL_MAGIC {
        return Error;
      }
      if d[2] != PROTOCOL_VERSION {
        return Skip;
      }
      var msgType, flags, timestamp := d[3], d[4], ReadBE64(d[5..13]);
      var extLength, payloadLength := d[13], ReadBE32(d[14..18]);
      if |d| < ToSigned32(FIXED_HEADER_SIZE + extLength + payloadLength) {
        ShortIsRejected(d);
        return Error;
      }
      var payload := d[FIXED_HEADER_SIZE + extLength..FIXED_HEADER_SIZE + extLength + payloadLength];
      var fields := ParseExtHeaders(d[FIXED_HEADER_SIZE..FIXED_HEADER_SIZE + extLength], flags, msgType);
      var meta := Meta(msgType, timestamp, fields.absTime, fields.kind);
      if !IsFragment(flags) {
        return Complete(ParsedFrame(meta, payload));
      }
      var part := fields.fragment;
      if part.total == 0 || part.total > MAX_FRAGMENTS {
        return Error;
      }
      assert Decode(d) == Fragment(part, meta, payload);
      r := ParseFragment(part, meta, payload);
    }

    /** The fragmented half of frame_protocol_parse. */
    method ParseFragment(part: FragmentPart, meta: Meta, payload: bytes) returns (r: Outcome)
      requires Valid() && 1 <= part.total <= MAX_FRAGMENTS
      modifies slots
      ensures Valid()
      ensures Reply(Contents(), r) == Accept(old(Contents()), old(slots[0].frameId), part, meta, payload)
      ensures FirstSlot() == FirstSlotAfter(old(Contents()), old(FirstSlot()), Fragment(part, meta, payload), r)
    {
      var found := FindFragmentEntry(part.frameId);
      if found == -1 {
        var at := AllocFragmentEntry(part.frameId, part.total);
        assert Contents() == Seat(old(Contents()), old(slots[0].frameId), part);
        r := StoreFragment(at, part.index, meta, payload);
      } else {
        AtSlot(slots[..], found);
        r := StoreFragment(found, part.index, meta, payload);
      }
    }

    /** The worker's loop: one message after the other. The victims are the entries that would
        have been evicted. */
    method ParseAll(ds: seq<Datagram>) returns (outcomes: seq<Outcome>, ghost victims: seq<uint16>)
      requires Valid()
      modifies slots
      ensures Valid()
      ensures |victims| == |ds|
      ensures TableOk(old(Contents())) && RealVictims(old(Contents()), DecodeAll(ds), victims)
      ensures RunResult(Contents(), outcomes) == Run(old(Contents()), DecodeAll(ds), victims)
    {
      hide Decode, Step, Run, RealVictims, RealVictim, DecodeAll, TableOf, TableOk;
      outcomes, victims := [], [];
      SlotsGiveTable(slots[..]);
      DecodeNone();
      NoVictims(Contents());
      var i := 0;
      while i < |ds|
        invariant 0 <= i <= |ds| && |victims| == i
        invariant Valid()
        invariant RealVictims(old(Contents()), DecodeAll(ds[..i]), victims)
        invariant RunResult(Contents(), outcomes) == Run(old(Contents()), DecodeAll(ds[..i]), victims)
      {
        SlotsGiveTable(slots[..]);
        ghost var victim := slots[0].frameId;
        RealVictimsAppend(old(Contents()), DecodeAll(ds[..i]), victims, Decode(ds[i]), victim);
        RunAppend(old(Contents()), DecodeAll(ds[..i]), victims, Decode(ds[i]), victim);
        DecodeNext(ds, i);
        var r := Parse(ds[i]);
        outcomes, victims := outcomes + [r], victims + [victim];
        i := i + 1;
      }
      assert ds[..i] == ds;
    }
  }

  lemma DecodeNone()
    ensures DecodeAll([]) == []
  {
  }

  lemma DecodeNext(ds: seq<Datagram>, i: nat)
    requires i < |ds|
    ensures DecodeAll(ds[..i + 1]) == DecodeAll(ds[..i]) + [Decode(ds[i])]
  {
    hide Decode;
  }

  lemma NoVictims(t: Table)
    ensures RealVictims(t, [], []) && Run(t, [], []) == RunResult(t, [])
  {
  }

  lemma ShortIsRejected(d: Datagram)
    requires IsCurrent(d) && !PassesSizeCheck(d)
    ensures Decode(d) == Rejected
  {
    var n := AnnouncedSize(d);
    assert n % 0x1_0000_0000 <= n;
  }

  lemma SliceOfTail(s: bytes, a: nat, i: nat, j: nat)
    requires i <= j && a + j <= |s|
    ensures s[a..][i..j] == s[a + i..a + j]
  {
  }

  lemma FilesFragment(s: Slot, s': Slot, index: nat, meta: Meta, payload: bytes)
    requires s.active && SlotOk(s)
    requires var stored := if index == 0 then s.(meta := meta) else s;
             s' == if index < s.total && !s.present[index]
                   then stored.(data := s.data[index := payload], present := s.present[index := true],
                                receivedCount := s.receivedCount + 1)
                   else stored
    ensures ShapeOk(s') && s'.receivedCount <= s'.total
    ensures Entry(s') == Absorb(Entry(s), index, meta, payload)
    ensures s'.receivedCount == s'.total <==> IsFull(Entry(s'))
  {
    if index < s.total && !s.present[index] {
      CountAfterSet(s.present, index);
    }
    assert Entry(s').chunks == Absorb(Entry(s), index, meta, payload).chunks;
    FullWhenCounted(s');
  }

  lemma FreshEntry(ss: seq<Slot>, at: nat, s: Slot)
    requires SlotsOk(ss) && at < |ss| && s.active && SlotOk(s) && s.frameId !in TableOf(ss)
    requires ss[at].active ==> at == 0 && |TableOf(ss)| >= MAX_ENTRIES
    requires !ss[at].active ==> |TableOf(ss)| < MAX_ENTRIES
    ensures SlotsOk(ss[at := s])
    ensures TableOf(ss[at := s]) == MakeRoom(TableOf(ss), ss[0].frameId)[s.frameId := Entry(s)]
  {
    InTable(ss, s.frameId);
    forall j | 0 <= j < |ss| && j != at && ss[j].active ensures ss[j].frameId != s.frameId {
      assert !Holds(ss, j, s.frameId);
    }
    WriteSlot(ss, at, s);
  }

  lemma RewriteEntry(ss: seq<Slot>, at: nat, s: Slot)
    requires SlotsOk(ss) && at < |ss| && ss[at].active && SlotOk(s)
    requires s.active ==> s.frameId == ss[at].frameId
    ensures SlotsOk(ss[at := s])
    ensures TableOf(ss[at := s])
            == if s.active then TableOf(ss)[ss[at].frameId := Entry(s)] else TableOf(ss) - {ss[at].frameId}
  {
    forall j | 0 <= j < |ss| && j != at && ss[j].active ensures ss[j].frameId != ss[at].frameId {
      assert j < at || at < j;
    }
    WriteSlot(ss, at, s);
    AtSlot(ss, at);
  }
}
