/** WebSocket frames (RFC 6455, sections 5.2 and 5.3): printing, parsing and cutting a byte
    stream into frames. */
module WebSocket {
  import opened Wrappers
  import opened Bytes

  const TEXT: byte := 1
  const BINARY: byte := 2
  const CLOSE: byte := 8
  const PING: byte := 9
  const PONG: byte := 10

  type Opcode = x: byte | x < 16
  type MaskKey = k: bytes | |k| == 4 witness [0, 0, 0, 0]

  datatype WsFrame = WsFrame(fin: bool, opcode: Opcode, maskKey: Option<MaskKey>, payload: bytes)

  /** TooLong: the length sum wraps in 64 bits, so the frame is taken for complete, and its payload
      buffer cannot be made: an exception that nothing catches. */
  datatype ParseResult = Incomplete | Parsed(frame: WsFrame, consumed: nat) | TooLong

  function Masked(key: MaskKey, s: bytes): (t: bytes)
    ensures |t| == |s|
  {
    seq(|s|, i requires 0 <= i < |s| => Xor(s[i], key[i % 4]))
  }

  lemma MaskTwice(key: MaskKey, s: bytes)
    ensures Masked(key, Masked(key, s)) == s
  {
    forall i | 0 <= i < |s| ensures Masked(key, Masked(key, s))[i] == s[i] {
      XorUndo(s[i], key[i % 4]);
    }
  }

  // ----- printing -----

  /** The payload length in its shortest form; `mask` is the mask bit. */
  function PrintLength(n: uint64, mask: bool): (s: bytes)
    ensures 1 <= |s| <= 9
  {
    var bit := if mask then 128 else 0;
    if n < 126 then [bit + n]
    else if n <= 0xFFFF then [bit + 126] + BE(n, 2)
    else [bit + 127] + BE(n, 8)
  }

  function FirstByte(f: WsFrame): byte {
    (if f.fin then 128 else 0) + f.opcode
  }

  function PrintFrame(f: WsFrame): bytes
    requires |f.payload| < 0x1_0000_0000_0000_0000
  {
    [FirstByte(f)] + PrintLength(|f.payload|, f.maskKey.Some?)
    + (match f.maskKey case None => f.payload case Some(key) => key + Masked(key, f.payload))
  }

  // ----- parsing -----

  function LengthBytes(second: byte): nat {
    if second % 128 == 126 then 2 else if second % 128 == 127 then 8 else 0
  }

  /** Where the payload begins. */
  function HeaderLength(second: byte): nat {
    2 + LengthBytes(second) + (if second >= 128 then 4 else 0)
  }

  function PayloadLength(data: bytes): nat
    requires |data| >= 2 && |data| >= HeaderLength(data[1])
  {
    if data[1] % 128 < 126 then data[1] % 128 else FromBE(data[2..2 + LengthBytes(data[1])])
  }

  function Parse(data: bytes): ParseResult {
    if |data| < 2 || |data| < HeaderLength(data[1]) then Incomplete
    else
      var start := HeaderLength(data[1]);
      var end := start + PayloadLength(data);
      if end >= 0x1_0000_0000_0000_0000 then TooLong
      else if |data| < end then Incomplete
      else
        var key: Option<MaskKey> := if data[1] >= 128 then Some(data[start - 4..start]) else None;
        var body := data[start..end];
        Parsed(WsFrame(data[0] >= 128, data[0] % 16, key, if key.Some? then Masked(key.value, body) else body), end)
  }

  /** When that happens: with the eight-byte length form and a length that, the header added, does
      not fit 64 bits. */
  lemma {:induction false} TooLongExactly(data: bytes)
    ensures Parse(data).TooLong?
            <==> && |data| >= 2 && data[1] % 128 == 127 && |data| >= HeaderLength(data[1])
                 && FromBE(data[2..10]) + HeaderLength(data[1]) >= 0x1_0000_0000_0000_0000
  {
    if |data| >= 4 {
      FromBEBound(data[2..4]);
      Pow256Values();
    }
  }

  /** Ten bytes are enough. */
  lemma TooLongInput()
    ensures Parse([0x82, 127, 255, 255, 255, 255, 255, 255, 255, 255]).TooLong?
  {
    var data: bytes := [0x82, 127, 255, 255, 255, 255, 255, 255, 255, 255];
    var length := data[2..10];
    assert length == [255, 255, 255, 255, 255, 255, 255, 255];
    Pow256Values();
    AllOnes(8);
    assert length == seq(8, _ => 255);
  }

  lemma {:induction false} AllOnes(n: nat)
    ensures FromBE(seq(n, _ => 255)) == Pow256(n) - 1
  {
    if n == 0 {
    } else {
      AllOnes(n - 1);
      assert seq(n, _ => 255)[..n - 1] == seq(n - 1, _ => 255);
    }
  }

  // ----- round trip -----

  lemma LengthReadBack(f: WsFrame, rest: bytes)
    requires |f.payload| < 0x1_0000_0000_0000_0000
    ensures var data := PrintFrame(f) + rest;
            && |data| >= 2 && |data| >= HeaderLength(data[1]) && PayloadLength(data) == |f.payload|
            && (data[1] >= 128 <==> f.maskKey.Some?)
            && HeaderLength(data[1]) == 1 + |PrintLength(|f.payload|, f.maskKey.Some?)|
                 + (if f.maskKey.Some? then 4 else 0)
  {
    var n := |f.payload|;
    var data := PrintFrame(f) + rest;
    var length := PrintLength(n, f.maskKey.Some?);
    assert data[1] == length[0];
    Pow256Values();
    if 126 <= n <= 0xFFFF {
      assert data[2..4] == BE(n, 2);
      FromBEOfBE(n, 2);
    } else if n > 0xFFFF {
      assert data[2..10] == BE(n, 8);
      FromBEOfBE(n, 8);
    }
  }

  /** Header and payload together fit 64 bits. */
  predicate Printable(f: WsFrame) {
    |f.payload| < 0x1_0000_0000_0000_0000 && |PrintFrame(f)| < 0x1_0000_0000_0000_0000
  }

  /** A printed frame, masked or not, is parsed back whatever follows it, and exactly its own
      bytes are consumed; unless it is so long that the parser's sum wraps. */
  lemma RoundTrip(f: WsFrame, rest: bytes)
    requires |f.payload| < 0x1_0000_0000_0000_0000
    ensures Parse(PrintFrame(f) + rest) == if Printable(f) then Parsed(f, |PrintFrame(f)|) else TooLong
  {
    hide PayloadLength, HeaderLength, LengthBytes, PrintLength, Masked;
    var data := PrintFrame(f) + rest;
    LengthReadBack(f, rest);
    assert data[0] == FirstByte(f);
    var start := HeaderLength(data[1]);
    match f.maskKey
    case None =>
      assert data[start..start + |f.payload|] == f.payload;
    case Some(key) =>
      assert data[start - 4..start] == key;
      assert data[start..start + |f.payload|] == Masked(key, f.payload);
      MaskTwice(key, f.payload);
  }

  /** The printed form is the shortest: no byte string that parses to the frame is consumed
      with fewer bytes. */
  lemma PrintedIsShortest(data: bytes)
    ensures Parse(data).Parsed? ==> |Parse(data).frame.payload| < 0x1_0000_0000_0000_0000
                                    && |PrintFrame(Parse(data).frame)| <= Parse(data).consumed
  {
    if Parse(data).Parsed? && LengthBytes(data[1]) == 2 {
      FromBEBound(data[2..4]);
      Pow256Values();
    }
  }

  // ----- byte for byte -----

  /** The bytes of length behind the second byte. */
  function Extra(second: byte): nat {
    if second % 128 == 126 then 2 else if second % 128 == 127 then 8 else 0
  }

  /** Where the payload of a frame begins, and how long it says it is. */
  function At(data: bytes): nat
    requires |data| >= 2
  {
    2 + Extra(data[1]) + (if data[1] >= 128 then 4 else 0)
  }

  function Announced(data: bytes): nat
    requires |data| >= 2 && |data| >= At(data)
  {
    if data[1] % 128 == 126 then Two(data, 2)
    else if data[1] % 128 == 127 then Four(data, 2) * 0x1_0000_0000 + Four(data, 6)
    else data[1] % 128
  }

  lemma AnnouncedIsLength(data: bytes)
    requires |data| >= 2 && |data| >= At(data)
    ensures At(data) == HeaderLength(data[1]) && Announced(data) == PayloadLength(data)
  {
    if data[1] % 128 == 126 {
      ReadTwo(data, 2);
    } else if data[1] % 128 == 127 {
      ReadEight(data, 2);
    }
  }

  /** Bit j of a byte. */
  predicate BitSet(b: byte, j: nat) {
    b / Pow2(j) % 2 == 1
  }

  lemma MaskedBit(key: MaskKey, s: bytes, i: nat, j: nat)
    requires i < |s| && j < 8
    ensures BitSet(Masked(key, s)[i], j) <==> BitSet(s[i], j) != BitSet(key[i % 4], j)
  {
    XorBit(s[i], key[i % 4], 8, j);
  }

  /** What the parser makes of any bytes, told from the bytes: when it waits, when its sum wraps, and
      otherwise each field, the payload bit by bit. */
  lemma ParsedBytes(data: bytes)
    ensures Parse(data).Incomplete?
            <==> || |data| < 2 || |data| < At(data)
                 || (At(data) + Announced(data) < 0x1_0000_0000_0000_0000 && |data| < At(data) + Announced(data))
    ensures Parse(data).TooLong?
            <==> |data| >= 2 && |data| >= At(data) && At(data) + Announced(data) >= 0x1_0000_0000_0000_0000
    ensures Parse(data).Parsed? ==>
              var f, at := Parse(data).frame, At(data);
              && (f.fin <==> data[0] >= 128) && f.opcode == data[0] % 16
              && |f.payload| == Announced(data) && Parse(data).consumed == at + |f.payload| <= |data|
              && (data[1] < 128 ==> f.payload == data[at..at + |f.payload|])
              && (data[1] >= 128 ==>
                    forall i, j :: 0 <= i < |f.payload| && 0 <= j < 8 ==>
                      (BitSet(f.payload[i], j) <==> BitSet(data[at + i], j) != BitSet(data[at - 4 + i % 4], j)))
  {
    hide Masked, BitSet;
    if |data| >= 2 && |data| >= At(data) {
      AnnouncedIsLength(data);
    }
    if Parse(data).Parsed? && data[1] >= 128 {
      var at := At(data);
      var body, key := data[at..at + Announced(data)], data[at - 4..at];
      forall i, j | 0 <= i < |body| && 0 <= j < 8
        ensures BitSet(Masked(key, body)[i], j) <==> BitSet(data[at + i], j) != BitSet(data[at - 4 + i % 4], j)
      {
        MaskedBit(key, body, i, j);
      }
    }
  }

  /** What the server prints, told byte by byte. */
  lemma PrintedBytes(opcode: Opcode, payload: bytes)
    requires |payload| < 0x1_0000_0000_0000_0000
    ensures PrintFrame(Plain(opcode, payload))
            == [128 + opcode]
               + (if |payload| < 126 then [|payload|]
                  else if |payload| < 0x1_0000 then [126] + Octets(|payload|, 2)
                  else [127] + Octets(|payload|, 8))
               + payload
  {
    BEIsOctets(|payload|, 2);
    BEIsOctets(|payload|, 8);
  }

  // ----- a stream of frames -----

  /** What has been recognised stays recognised when more bytes arrive. */
  lemma MoreBytes(data: bytes, more: bytes)
    requires !Parse(data).Incomplete?
    ensures Parse(data + more) == Parse(data)
  {
    hide Masked, FromBE;
    SliceOfFront(data, more, 2, 2 + LengthBytes(data[1]));
    if Parse(data).Parsed? {
      var start, end := HeaderLength(data[1]), Parse(data).consumed;
      SliceOfFront(data, more, start, end);
      if data[1] >= 128 {
        SliceOfFront(data, more, start - 4, start);
      }
    }
  }

  lemma SliceOfFront(a: bytes, b: bytes, i: nat, j: nat)
    requires i <= j <= |a|
    ensures (a + b)[i..j] == a[i..j]
  {
  }

  lemma ConsumedBounds(data: bytes)
    ensures Parse(data).Parsed? ==> 2 <= Parse(data).consumed <= |data|
  {
  }

  /** A frame is recognised at its last byte and not before. */
  lemma StrictPrefixIncomplete(data: bytes, k: nat)
    requires Parse(data).Parsed? && k < Parse(data).consumed
    ensures k < |data| && Parse(data[..k]) == Incomplete
  {
    ConsumedBounds(data);
    if !Parse(data[..k]).Incomplete? {
      MoreBytes(data[..k], data[k..]);
      assert data[..k] + data[k..] == data;
      ConsumedBounds(data[..k]);
    }
  }

  /** The frames at the front of a buffer, and the bytes left. */
  datatype Cut = Cut(frames: seq<WsFrame>, rest: bytes)

  function CutFrames(data: bytes): Cut
    decreases |data|
  {
    ConsumedBounds(data);
    match Parse(data)
    case Parsed(f, n) => var later := CutFrames(data[n..]); Cut([f] + later.frames, later.rest)
    case _ => Cut([], data)
  }

  lemma CutFirst(data: bytes)
    ensures var p := Parse(data);
            if p.Parsed?
            then p.consumed <= |data|
                 && CutFrames(data) == Cut([p.frame] + CutFrames(data[p.consumed..]).frames,
                                     CutFrames(data[p.consumed..]).rest)
            else CutFrames(data) == Cut([], data)
  {
  }

  /** Cutting what has come, then the remainder with what comes later, cuts the whole. */
  lemma {:induction false} CutConcat(a: bytes, b: bytes)
    ensures var first := CutFrames(a);
            var second := CutFrames(first.rest + b);
            CutFrames(a + b) == Cut(first.frames + second.frames, second.rest)
    decreases |a|
  {
    hide Parse, CutFrames;
    ConsumedBounds(a);
    CutFirst(a);
    if Parse(a).Parsed? {
      var n := Parse(a).consumed;
      MoreBytes(a, b);
      CutFirst(a + b);
      assert (a + b)[n..] == a[n..] + b;
      CutConcat(a[n..], b);
      var later := CutFrames(a[n..]);
      var second := CutFrames(later.rest + b);
      var f := Parse(a).frame;
      assert [f] + (later.frames + second.frames) == ([f] + later.frames) + second.frames;
    } else {
      assert [] + CutFrames(a + b).frames == CutFrames(a + b).frames;
    }
  }

  function Joined(chunks: seq<bytes>): bytes {
    if chunks == [] then [] else Joined(chunks[..|chunks| - 1]) + chunks[|chunks| - 1]
  }

  /** Append-then-cut for every chunk in turn. */
  function CutChunks(chunks: seq<bytes>): Cut {
    if chunks == [] then Cut([], [])
    else
      var before := CutChunks(chunks[..|chunks| - 1]);
      var now := CutFrames(before.rest + chunks[|chunks| - 1]);
      Cut(before.frames + now.frames, now.rest)
  }

  /** However the stream is split, the frames and the remainder are those of the whole. */
  lemma {:induction false} ChunkingIndependent(chunks: seq<bytes>)
    ensures CutChunks(chunks) == CutFrames(Joined(chunks))
  {
    if chunks == [] {
    } else {
      var init := chunks[..|chunks| - 1];
      ChunkingIndependent(init);
      CutConcat(Joined(init), chunks[|chunks| - 1]);
    }
  }

  predicate AllPrintable(fs: seq<WsFrame>) {
    forall i :: 0 <= i < |fs| ==> Printable(fs[i])
  }

  function PrintAll(fs: seq<WsFrame>): bytes
    requires AllPrintable(fs)
  {
    if fs == [] then [] else PrintFrame(fs[0]) + PrintAll(fs[1..])
  }

  /** A printed stream is cut into exactly the frames that were printed. */
  lemma {:induction false} PrintedStreamReadBack(fs: seq<WsFrame>)
    requires AllPrintable(fs)
    ensures CutFrames(PrintAll(fs)) == Cut(fs, [])
  {
    hide PrintFrame, PrintLength, Masked;
    if fs == [] {
    } else {
      RoundTrip(fs[0], PrintAll(fs[1..]));
      PrintedStreamReadBack(fs[1..]);
      CutFirst(PrintAll(fs));
      var data := PrintAll(fs);
      assert data[|PrintFrame(fs[0])|..] == PrintAll(fs[1..]);
      assert [fs[0]] + fs[1..] == fs;
    }
  }

  lemma {:induction false} PrintAllConcat(a: seq<WsFrame>, b: seq<WsFrame>)
    requires AllPrintable(a) && AllPrintable(b)
    ensures AllPrintable(a + b) && PrintAll(a + b) == PrintAll(a) + PrintAll(b)
  {
    hide PrintFrame, Printable;
    if a == [] {
      assert a + b == b;
    } else {
      PrintAllConcat(a[1..], b);
      assert (a + b)[1..] == a[1..] + b;
    }
  }

  lemma PrintAllOne(f: WsFrame)
    requires Printable(f)
    ensures AllPrintable([f]) && PrintAll([f]) == PrintFrame(f)
  {
    hide PrintFrame;
    assert [f][1..] == [];
  }

  /** What the server sends: final and unmasked. */
  function Plain(opcode: Opcode, payload: bytes): WsFrame {
    WsFrame(true, opcode, None, payload)
  }

  lemma ShortIsPrintable(opcode: Opcode, payload: bytes)
    requires |payload| < 0x1_0000
    ensures Printable(Plain(opcode, payload))
  {
  }

  /** Whatever payload the parser lets through can be sent back. */
  lemma EchoIsPrintable(data: bytes, opcode: Opcode)
    requires Parse(data).Parsed?
    ensures Printable(Plain(opcode, Parse(data).frame.payload))
  {
    PrintedIsShortest(data);
  }

  // ----- the code -----

  method ParseFrame(data: bytes) returns (r: ParseResult)
    requires |data| < 0x1_0000_0000_0000_0000
    ensures r == Parse(data)
  {
    hide Masked, FromBE;
    if |data| < 2 {
      return Incomplete;
    }
    var fin := data[0] >= 128;
    var opcode: Opcode := data[0] % 16;
    var masked := data[1] >= 128;
    var complete, payloadLen, offset := ReadLength(data);
    if !complete {
      return Incomplete;
    }
    var key: Option<MaskKey> := None;
    if masked {
      if |data| < offset + 4 {
        return Incomplete;
      }
      key := Some(data[offset..offset + 4]);
      offset := offset + 4;
    }
    assert offset == HeaderLength(data[1]) && payloadLen == PayloadLength(data);
    if |data| < (offset + payloadLen) % 0x1_0000_0000_0000_0000 {
      return Incomplete;
    }
    if offset + payloadLen >= 0x1_0000_0000_0000_0000 {
      return TooLong;
    }
    var payload := data[offset..offset + payloadLen];
    if masked {
      payload := Unmask(key.value, payload);
    }
    r := Parsed(WsFrame(fin, opcode, key, payload), offset + payloadLen);
  }

  /** The payload length in its three forms, and where it ends. */
  method ReadLength(data: bytes) returns (complete: bool, payloadLen: uint64, offset: nat)
    requires |data| >= 2
    ensures complete <==> |data| >= 2 + LengthBytes(data[1])
    ensures complete ==>
              && offset == 2 + LengthBytes(data[1])
              && payloadLen == if data[1] % 128 < 126 then data[1] % 128 else FromBE(data[2..offset])
  {
    hide FromBE;
    payloadLen, offset := data[1] % 128, 2;
    if payloadLen == 126 {
      if |data| < 4 {
        return false, 0, 2;
      }
      ReadTwo(data, 2);
      var high: nat := data[2];
      payloadLen := high * 256 + data[3];
      offset := 4;
    } else if payloadLen == 127 {
      if |data| < 10 {
        return false, 0, 2;
      }
      payloadLen := ReadLength64(data);
      offset := 10;
    }
    complete := true;
  }

  /** The eight length bytes, gathered by shifting. */
  method ReadLength64(data: bytes) returns (n: uint64)
    requires |data| >= 10
    ensures n == FromBE(data[2..10])
  {
    n := 0;
    var i := 0;
    while i < 8
      invariant 0 <= i <= 8
      invariant n == FromBE(data[2..2 + i])
    {
      assert data[2..2 + i + 1][..i] == data[2..2 + i];
      FromBEBound(data[2..2 + i + 1]);
      PowGrows(i + 1);
      n := n * 256 + data[2 + i];
      i := i + 1;
    }
  }

  lemma PowGrows(n: nat)
    requires n <= 8
    ensures Pow256(n) <= 0x1_0000_0000_0000_0000
    decreases 8 - n
  {
    if n == 8 {
      Pow256Values();
    } else {
      PowGrows(n + 1);
    }
  }

  /** The unmasking loop works in place on the payload. */
  method Unmask(key: MaskKey, s: bytes) returns (t: bytes)
    ensures t == Masked(key, s)
  {
    var payload := new byte[|s|](i requires 0 <= i < |s| => s[i]);
    var i := 0;
    while i < payload.Length
      invariant 0 <= i <= payload.Length
      invariant forall k :: 0 <= k < payload.Length ==> payload[k] == if k < i then Masked(key, s)[k] else s[k]
    {
      payload[i] := Xor(payload[i], key[i % 4]);
      i := i + 1;
    }
    t := payload[..];
  }

  method EncodeFrame(opcode: Opcode, payload: bytes) returns (frame: bytes)
    requires |payload| < 0x1_0000_0000_0000_0000
    ensures frame == PrintFrame(WsFrame(true, opcode, None, payload))
  {
    var buf := new ByteBuffer();
    var len := |payload|;
    buf.PushBack(128 + opcode);
    if len < 126 {
      buf.PushBack(len);
    } else if len <= 0xFFFF {
      buf.PushBack(126);
      buf.WriteBE16(len);
    } else {
      buf.PushBack(127);
      PushLength64(buf, len);
    }
    assert buf.contents == [128 + opcode] + PrintLength(len, false);
    buf.Append(payload);
    frame := buf.contents;
  }

  method PushLength64(buf: ByteBuffer, len: uint64)
    modifies buf
    ensures buf.contents == old(buf.contents) + BE(len, 8)
  {
    ghost var all := BE(len, 8);
    var i := 7;
    while i >= 0
      invariant -1 <= i <= 7
      invariant buf.contents == old(buf.contents) + all[..7 - i]
      decreases i
    {
      BESplit(len, 8, i);
      buf.PushBack(len / Pow256(i) % 256);
      assert all[..8 - i] == all[..7 - i] + [all[7 - i]];
      i := i - 1;
    }
    assert all[..8] == all;
  }
}
