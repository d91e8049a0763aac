/** Start codes: where a byte stream is cut into NAL units, and back. */
module AnnexB {
  import opened Bytes

  predicate Is3(buf: bytes, i: nat) {
    i + 3 <= |buf| && buf[i] == 0 && buf[i + 1] == 0 && buf[i + 2] == 1
  }

  predicate Is4(buf: bytes, i: nat) {
    i + 4 <= |buf| && buf[i] == 0 && buf[i + 1] == 0 && buf[i + 2] == 0 && buf[i + 3] == 1
  }

  /** A cut: a 4-byte start code, or a 3-byte one not preceded by a zero, with at least one byte
      behind its three. A 3-byte code at position 0 counts only if `lead` is set. */
  predicate IsCut(buf: bytes, i: nat, lead: bool) {
    i + 3 < |buf| && (Is4(buf, i) || (Is3(buf, i) && if i == 0 then lead else buf[i - 1] != 0))
  }

  /** The cuts before position n, in order. */
  function CutsUpTo(buf: bytes, n: nat, lead: bool): (cs: seq<nat>)
    ensures forall j :: 0 <= j < |cs| ==> cs[j] < n && IsCut(buf, cs[j], lead)
    ensures forall i, j :: 0 <= i < j < |cs| ==> cs[i] < cs[j]
  {
    if n == 0 then []
    else CutsUpTo(buf, n - 1, lead) + (if IsCut(buf, n - 1, lead) then [n - 1] else [])
  }

  /** All cuts are found. */
  lemma {:induction false} CutsComplete(buf: bytes, n: nat, lead: bool, i: nat)
    requires i < n && IsCut(buf, i, lead)
    ensures i in CutsUpTo(buf, n, lead)
  {
    if i < n - 1 {
      CutsComplete(buf, n - 1, lead, i);
    }
  }

  lemma {:induction false} NoCutsBetween(buf: bytes, m: nat, n: nat, lead: bool)
    requires m <= n && forall i :: m <= i < n ==> !IsCut(buf, i, lead)
    ensures CutsUpTo(buf, n, lead) == CutsUpTo(buf, m, lead)
    decreases n
  {
    if m < n {
      NoCutsBetween(buf, m, n - 1, lead);
    }
  }

  /** No cut begins inside a start code. */
  lemma SkipStartCode(buf: bytes, i: nat, lead: bool)
    requires IsCut(buf, i, lead)
    ensures var next := if Is4(buf, i) then i + 4 else i + 3;
            CutsUpTo(buf, next, lead) == CutsUpTo(buf, i, lead) + [i] && !Is4(buf, next - 1)
  {
    var next := if Is4(buf, i) then i + 4 else i + 3;
    NoCutsBetween(buf, i + 1, next, lead);
  }

  // ----- the pieces -----

  predicate Increasing(cs: seq<nat>, bound: nat) {
    (forall i, j :: 0 <= i < j < |cs| ==> cs[i] < cs[j]) && (forall i :: 0 <= i < |cs| ==> cs[i] <= bound)
  }

  function Piece(buf: bytes, cs: seq<nat>, j: nat): bytes
    requires Increasing(cs, |buf|) && j < |cs|
  {
    buf[cs[j]..if j + 1 < |cs| then cs[j + 1] else |buf|]
  }

  /** The first n pieces. */
  function Pieces(buf: bytes, cs: seq<nat>, n: nat): (ps: seq<bytes>)
    requires Increasing(cs, |buf|) && n <= |cs|
    ensures |ps| == n
  {
    if n == 0 then [] else Pieces(buf, cs, n - 1) + [Piece(buf, cs, n - 1)]
  }

  function Split(buf: bytes): seq<bytes> {
    var cs := CutsUpTo(buf, |buf|, false);
    Pieces(buf, cs, |cs|)
  }

  function Concat(ps: seq<bytes>): bytes {
    if ps == [] then [] else Concat(ps[..|ps| - 1]) + ps[|ps| - 1]
  }

  lemma {:induction false} PiecesCover(buf: bytes, cs: seq<nat>, n: nat)
    requires Increasing(cs, |buf|) && 0 < n <= |cs|
    ensures Concat(Pieces(buf, cs, n)) == buf[cs[0]..if n < |cs| then cs[n] else |buf|]
  {
    var ps := Pieces(buf, cs, n);
    assert ps[..n - 1] == Pieces(buf, cs, n - 1);
    if n == 1 {
      assert Concat(ps[..0]) == [];
    } else {
      PiecesCover(buf, cs, n - 1);
    }
  }

  /** Nothing behind the first cut is lost: the NAL units concatenate to the rest of the file. */
  lemma {:induction false} SplitCovers(buf: bytes)
    ensures var cs := CutsUpTo(buf, |buf|, false);
            Concat(Split(buf)) == if cs == [] then [] else buf[cs[0]..]
  {
    var cs := CutsUpTo(buf, |buf|, false);
    if cs != [] {
      PiecesCover(buf, cs, |cs|);
    }
  }

  // ----- printing a stream and splitting it -----

  /** A NAL unit's bytes and the length of the start code put before it. */
  datatype Unit = Unit(long: bool, body: bytes)

  /** Annex B: no start code inside, no trailing zero. */
  predicate BodyOk(b: bytes) {
    && b != [] && b[|b| - 1] != 0
    && forall i :: 0 <= i < |b| ==> !Is3(b, i)
  }

  predicate UnitsOk(us: seq<Unit>) {
    forall k :: 0 <= k < |us| ==> BodyOk(us[k].body)
  }

  function StartCode(long: bool): bytes {
    if long then [0, 0, 0, 1] else [0, 0, 1]
  }

  function PrintUnit(u: Unit): bytes {
    StartCode(u.long) + u.body
  }

  /** The first n units. */
  function PrintStream(us: seq<Unit>, n: nat): bytes
    requires n <= |us|
  {
    if n == 0 then [] else PrintStream(us, n - 1) + PrintUnit(us[n - 1])
  }

  function Offset(us: seq<Unit>, n: nat): nat
    requires n <= |us|
  {
    |PrintStream(us, n)|
  }

  lemma {:induction false} StreamPrefix(us: seq<Unit>, k: nat, n: nat)
    requires k <= n <= |us|
    ensures PrintStream(us, k) <= PrintStream(us, n)
    decreases n
  {
    if k < n {
      StreamPrefix(us, k, n - 1);
    }
  }

  /** Unit k sits between its offset and the next. */
  lemma UnitAt(us: seq<Unit>, k: nat)
    requires k < |us|
    ensures Offset(us, k) < Offset(us, k + 1) <= Offset(us, |us|)
    ensures PrintStream(us, |us|)[Offset(us, k)..Offset(us, k + 1)] == PrintUnit(us[k])
  {
    StreamPrefix(us, k + 1, |us|);
    var whole, upto := PrintStream(us, |us|), PrintStream(us, k + 1);
    assert whole[..|upto|] == upto;
  }

  /** Inside a printed unit only its start code can be cut. */
  lemma CutsOfUnit(buf: bytes, at: nat, u: Unit, end: nat, p: nat)
    requires BodyOk(u.body) && at < end <= |buf| && buf[at..end] == PrintUnit(u)
    requires at < p < end
    ensures !IsCut(buf, p, false)
  {
    var code := StartCode(u.long);
    var body := at + |code|;
    assert forall i :: 0 <= i < end - at ==> buf[at + i] == PrintUnit(u)[i];
    assert forall i :: 0 <= i < |u.body| ==> buf[body + i] == u.body[i];
    assert buf[end - 1] != 0;
    if p >= body && Is3(buf, p) && p + 3 <= end {
      assert Is3(u.body, p - body);
    }
    if p >= body && Is4(buf, p) && p + 4 <= end {
      assert Is3(u.body, p + 1 - body);
    }
  }

  /** The offsets at which units 0 .. n-1 begin, without the first if it is not counted. */
  function Offsets(us: seq<Unit>, n: nat): (os: seq<nat>)
    requires n <= |us|
  {
    if n == 0 then []
    else if n == 1 then (if us[0].long then [0] else [])
    else Offsets(us, n - 1) + [Offset(us, n - 1)]
  }

  lemma StartIsCut(buf: bytes, at: nat, u: Unit, end: nat)
    requires BodyOk(u.body) && at < end <= |buf| && buf[at..end] == PrintUnit(u)
    ensures IsCut(buf, at, false) <==> (u.long || (at > 0 && buf[at - 1] != 0))
  {
    assert forall i :: 0 <= i < end - at ==> buf[at + i] == PrintUnit(u)[i];
  }

  lemma LastByte(buf: bytes, at: nat, u: Unit, end: nat)
    requires BodyOk(u.body) && at < end <= |buf| && buf[at..end] == PrintUnit(u)
    ensures buf[end - 1] != 0
  {
    assert buf[at..end][end - at - 1] == u.body[|u.body| - 1];
  }

  lemma UnitStartIsCut(us: seq<Unit>, k: nat)
    requires UnitsOk(us) && k < |us|
    ensures IsCut(PrintStream(us, |us|), Offset(us, k), false) <==> (k > 0 || us[0].long)
  {
    hide IsCut, PrintUnit, BodyOk, PrintStream;
    var buf := PrintStream(us, |us|);
    UnitAt(us, k);
    StartIsCut(buf, Offset(us, k), us[k], Offset(us, k + 1));
    if k > 0 {
      UnitAt(us, k - 1);
      LastByte(buf, Offset(us, k - 1), us[k - 1], Offset(us, k));
    } else {
      OffsetZero(us);
    }
  }

  lemma OffsetZero(us: seq<Unit>)
    ensures Offset(us, 0) == 0
  {
  }

  lemma {:induction false} CutsAreOffsets(us: seq<Unit>, n: nat)
    requires UnitsOk(us) && n <= |us|
    ensures CutsUpTo(PrintStream(us, |us|), Offset(us, n), false) == Offsets(us, n)
  {
    hide IsCut, PrintUnit, BodyOk, PrintStream;
    OffsetZero(us);
    if n == 0 {
    } else {
      var buf := PrintStream(us, |us|);
      CutsAreOffsets(us, n - 1);
      UnitAt(us, n - 1);
      UnitStartIsCut(us, n - 1);
      var at, end := Offset(us, n - 1), Offset(us, n);
      forall p | at + 1 <= p < end ensures !IsCut(buf, p, false) {
        CutsOfUnit(buf, at, us[n - 1], end, p);
      }
      NoCutsBetween(buf, at + 1, end, false);
    }
  }

  /** The printed units, as the splitter returns them: with their start codes. */
  function Printed(us: seq<Unit>, n: nat): (ps: seq<bytes>)
    requires n <= |us|
    ensures |ps| == n
  {
    if n == 0 then [] else Printed(us, n - 1) + [PrintUnit(us[n - 1])]
  }

  /** The offset of the j-th piece: one later if the first unit was not counted. */
  lemma {:induction false} OffsetsAt(us: seq<Unit>, n: nat, j: nat)
    requires n <= |us| && j < |Offsets(us, n)|
    ensures var skip := if us[0].long then 0 else 1;
            |Offsets(us, n)| == n - skip && Offsets(us, n)[j] == Offset(us, j + skip)
  {
    hide PrintStream;
    OffsetZero(us);
    if n >= 2 {
      if j < |Offsets(us, n - 1)| {
        OffsetsAt(us, n - 1, j);
      } else if |Offsets(us, n - 1)| > 0 {
        OffsetsAt(us, n - 1, 0);
      } else {
        OffsetsEmpty(us, n - 1);
      }
    }
  }

  lemma OffsetsEmpty(us: seq<Unit>, n: nat)
    requires 0 < n <= |us| && Offsets(us, n) == []
    ensures n == 1 && !us[0].long
  {
  }

  lemma {:induction false} PiecesArePrinted(us: seq<Unit>, cs: seq<nat>, n: nat, skip: nat)
    requires skip <= |us| && |cs| == |us| - skip && n <= |cs|
    requires Increasing(cs, Offset(us, |us|))
    requires forall j :: 0 <= j < |cs| ==> cs[j] == Offset(us, j + skip)
    ensures Pieces(PrintStream(us, |us|), cs, n) == Printed(us[skip..], n)
  {
    hide Increasing, PrintUnit;
    if n == 0 {
    } else {
      PiecesArePrinted(us, cs, n - 1, skip);
      UnitAt(us, n - 1 + skip);
    }
  }

  /** Round trip: a stream printed from well-formed NAL units is split into exactly those
      units. Only a first unit with a 3-byte start code is lost, as the code demands. */
  lemma SplitOfPrinted(us: seq<Unit>)
    requires UnitsOk(us)
    ensures var kept := if us != [] && !us[0].long then us[1..] else us;
            Split(PrintStream(us, |us|)) == Printed(kept, |kept|)
  {
    hide CutsUpTo, Pieces, Printed, PrintUnit, BodyOk;
    CutsAreOffsets(us, |us|);
    var cs := Offsets(us, |us|);
    var skip := if us != [] && !us[0].long then 1 else 0;
    if cs != [] {
      OffsetsAt(us, |us|, 0);
    } else if us != [] {
      OffsetsEmpty(us, |us|);
    }
    forall j | 0 <= j < |cs| ensures cs[j] == Offset(us, j + skip) {
      OffsetsAt(us, |us|, j);
    }
    PiecesArePrinted(us, cs, |cs|, skip);
    assert us[0..] == us;
  }

  // ----- the two splitters -----

  /** find_start_codes of the checking tool. It counts a 3-byte start code at position 0. */
  method FindStartCodes(data: bytes) returns (positions: seq<nat>)
    ensures positions == CutsUpTo(data, |data|, true)
  {
    positions := [];
    var i := 0;
    var n := |data|;
    while i + 3 < n
      invariant i <= n
      invariant positions == CutsUpTo(data, i, true)
      invariant i > 0 ==> !Is4(data, i - 1)
      decreases n - i
    {
      if data[i] == 0 && data[i + 1] == 0 {
        if data[i + 2] == 1 {
          SkipStartCode(data, i, true);
          positions := positions + [i];
          i := i + 3;
          continue;
        }
        if i + 3 < n && data[i + 2] == 0 && data[i + 3] == 1 {
          SkipStartCode(data, i, true);
          positions := positions + [i];
          i := i + 4;
          continue;
        }
      }
      i := i + 1;
    }
    NoCutsBetween(data, i, n, true);
  }

  lemma LeadAt(buf: bytes, i: nat)
    ensures i > 0 ==> (IsCut(buf, i, true) <==> IsCut(buf, i, false))
    ensures |buf| > 3 && Is3(buf, 0) ==> IsCut(buf, 0, true) && !IsCut(buf, 0, false)
    ensures !(|buf| > 3 && Is3(buf, 0)) ==> (IsCut(buf, 0, true) <==> IsCut(buf, 0, false))
  {
  }

  lemma {:induction false} LeadMatters(buf: bytes, n: nat)
    ensures CutsUpTo(buf, n, true) == (if n > 0 && |buf| > 3 && Is3(buf, 0) then [0] else []) + CutsUpTo(buf, n, false)
  {
    hide IsCut, Is3;
    if n == 0 {
    } else {
      LeadMatters(buf, n - 1);
      LeadAt(buf, n - 1);
    }
  }

  /** The tool and the server find the same start codes if and only if the data does not begin
      with a 3-byte one (with a byte behind it); otherwise the tool finds that one more. */
  lemma {:induction false} SplittersAgree(buf: bytes)
    ensures var extra := |buf| > 3 && Is3(buf, 0);
            && CutsUpTo(buf, |buf|, true) == (if extra then [0] else []) + CutsUpTo(buf, |buf|, false)
            && (CutsUpTo(buf, |buf|, true) == CutsUpTo(buf, |buf|, false) <==> !extra)
  {
    LeadMatters(buf, |buf|);
    assert |[0] + CutsUpTo(buf, |buf|, false)| == 1 + |CutsUpTo(buf, |buf|, false)|;
  }

  /** Four bytes of which the tool makes a NAL unit and the server none. */
  lemma ToolFindsOneMore()
    ensures var buf: bytes := [0, 0, 1, 9]; CutsUpTo(buf, 4, true) == [0] && CutsUpTo(buf, 4, false) == []
  {
    hide CutsUpTo;
    var buf: bytes := [0, 0, 1, 9];
    CutsOfNothing(buf);
    NoCutsBetween(buf, 0, 4, false);
    SplittersAgree(buf);
  }

  lemma {:induction false} PiecesPrefix(buf: bytes, cs: seq<nat>, c: nat, n: nat)
    requires Increasing(cs, |buf|) && Increasing(cs + [c], |buf|) && n < |cs|
    ensures Pieces(buf, cs + [c], n) == Pieces(buf, cs, n)
  {
    if n == 0 {
    } else {
      PiecesPrefix(buf, cs, c, n - 1);
    }
  }

  /** A cut ends the piece begun at the one before. */
  lemma NextPiece(buf: bytes, cs: seq<nat>, c: nat)
    requires Increasing(cs, |buf|) && Increasing(cs + [c], |buf|) && cs != [] && cs[|cs| - 1] <= c <= |buf|
    ensures Pieces(buf, cs, |cs| - 1) + [buf[cs[|cs| - 1]..c]] == Pieces(buf, cs + [c], |cs|)
  {
    PiecesPrefix(buf, cs, c, |cs| - 1);
  }

  lemma LastPiece(buf: bytes, cs: seq<nat>)
    requires Increasing(cs, |buf|)
    ensures cs == [] ==> Pieces(buf, cs, |cs|) == []
    ensures cs != [] ==> Pieces(buf, cs, |cs|) == Pieces(buf, cs, |cs| - 1) + [buf[cs[|cs| - 1]..]]
  {
    hide Increasing, Piece;
    if cs != [] {
      LastPieceIs(buf, cs);
    }
  }

  lemma LastPieceIs(buf: bytes, cs: seq<nat>)
    requires Increasing(cs, |buf|) && cs != []
    ensures Piece(buf, cs, |cs| - 1) == buf[cs[|cs| - 1]..]
  {
  }

  /** The two tests of the scanning loop, which never stands right behind a 4-byte code. */
  method StartCodeAt(buffer: bytes, i: nat) returns (is4ByteStart: bool, is3ByteStart: bool)
    requires i + 3 < |buffer| && (i > 0 ==> !Is4(buffer, i - 1))
    ensures is4ByteStart <==> Is4(buffer, i)
    ensures is4ByteStart || is3ByteStart <==> IsCut(buffer, i, false)
  {
    is4ByteStart := buffer[i] == 0 && buffer[i + 1] == 0 && buffer[i + 2] == 0 && buffer[i + 3] == 1;
    is3ByteStart := !is4ByteStart && i > 0 && buffer[i] == 0 && buffer[i + 1] == 0 && buffer[i + 2] == 1;
  }

  /** ParseNalUnits. */
  method ParseNalUnits(buffer: bytes) returns (nalUnits: seq<bytes>)
    ensures nalUnits == Split(buffer)
  {
    hide Pieces, CutsUpTo, Piece, IsCut, Is3, Is4;
    nalUnits := [];
    var n := |buffer|;
    if n < 4 {
      CutsOfNothing(buffer);
      ShortHasNoCuts(buffer, n);
      LastPiece(buffer, []);
      return;
    }
    var start := 0;
    var firstNalFound := false;
    ghost var cs: seq<nat> := [];
    CutsOfNothing(buffer);
    var i := 0;
    while i < n - 3
      invariant i <= n
      invariant cs == CutsUpTo(buffer, i, false)
      invariant i > 0 ==> !Is4(buffer, i - 1)
      invariant firstNalFound <==> cs != []
      invariant firstNalFound ==> start == cs[|cs| - 1] && nalUnits == Pieces(buffer, cs, |cs| - 1)
      invariant !firstNalFound ==> nalUnits == []
      decreases n - i
    {
      var is4ByteStart, is3ByteStart := StartCodeAt(buffer, i);
      if is4ByteStart || is3ByteStart {
        SkipStartCode(buffer, i, false);
        if firstNalFound {
          NextPiece(buffer, cs, i);
          nalUnits := nalUnits + [buffer[start..i]];
        } else {
          NoPieces(buffer, [i]);
        }
        cs := cs + [i];
        start := i;
        firstNalFound := true;
        i := i + if is4ByteStart then 3 else 2;
      } else {
        NoCutsBetween(buffer, i, i + 1, false);
      }
      i := i + 1;
    }
    ShortHasNoCuts(buffer, i);
    LastPiece(buffer, cs);
    if firstNalFound && start < n {
      nalUnits := nalUnits + [buffer[start..]];
    }
  }

  /** No cut in the last three positions. */
  lemma ShortHasNoCuts(buf: bytes, i: nat)
    requires i <= |buf| <= i + 3 || i == |buf| < 4
    ensures CutsUpTo(buf, |buf|, false) == if i == |buf| < 4 then CutsUpTo(buf, 0, false) else CutsUpTo(buf, i, false)
  {
    if i == |buf| < 4 {
      NoCutsBetween(buf, 0, |buf|, false);
    } else {
      NoCutsBetween(buf, i, |buf|, false);
    }
  }

  lemma CutsOfNothing(buf: bytes)
    ensures CutsUpTo(buf, 0, false) == []
  {
  }

  lemma NoPieces(buf: bytes, cs: seq<nat>)
    requires Increasing(cs, |buf|)
    ensures Pieces(buf, cs, 0) == []
  {
  }
}
