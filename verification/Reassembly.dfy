/** Reassembly as a map from frame ids to partly received frames: what the receiver's slot
    table stands for, and what one message does to it. */
module Reassembly {
  import opened Wrappers
  import opened Bytes
  import opened FrameFormat

  const MAX_ENTRIES := 16

  /** A frame some fragments of which have arrived. */
  datatype Partial = Partial(total: nat, chunks: map<nat, bytes>, meta: Meta)

  type Table = map<uint16, Partial>

  datatype Outcome = Complete(frame: ParsedFrame) | Pending | Error | Skip

  datatype Reply = Reply(table: Table, outcome: Outcome)

  ghost predicate IsFull(p: Partial) {
    forall k: nat :: k < p.total ==> k in p.chunks
  }

  /** Chunks 0 .. n-1, joined. */
  function JoinChunks(chunks: map<nat, bytes>, n: nat): bytes
    requires forall k: nat :: k < n ==> k in chunks
  {
    if n == 0 then [] else JoinChunks(chunks, n - 1) + chunks[n - 1]
  }

  lemma {:induction false} JoinGrows(chunks: map<nat, bytes>, i: nat, n: nat)
    requires i <= n && forall k: nat :: k < n ==> k in chunks
    ensures |JoinChunks(chunks, i)| <= |JoinChunks(chunks, n)|
    decreases n - i
  {
    if i < n {
      JoinGrows(chunks, i, n - 1);
    }
  }

  /** One fragment arrives at its entry. Fragment 0 always brings the metadata; bytes are kept
      only for an index in range that was not there yet. */
  function Absorb(p: Partial, index: nat, meta: Meta, payload: bytes): Partial {
    Partial(p.total,
            if index < p.total && index !in p.chunks then p.chunks[index := payload] else p.chunks,
            if index == 0 then meta else p.meta)
  }

  /** Room for a new frame: with all sixteen entries in use the victim is lost. */
  function MakeRoom(t: Table, victim: uint16): Table {
    if |t| < MAX_ENTRIES then t else t - {victim}
  }

  /** The table in which the fragment's frame surely has an entry. */
  function Seat(t: Table, victim: uint16, part: FragmentPart): (t': Table)
    ensures part.frameId in t'
  {
    if part.frameId in t then t else MakeRoom(t, victim)[part.frameId := Partial(part.total, map[], NO_META)]
  }

  /** A fragment joins its frame, which is opened if unknown and delivered when full. */
  ghost function Accept(t: Table, victim: uint16, part: FragmentPart, meta: Meta, payload: bytes): Reply {
    var seated := Seat(t, victim, part);
    var entry := Absorb(seated[part.frameId], part.index, meta, payload);
    if IsFull(entry)
    then Reply(seated - {part.frameId}, Complete(ParsedFrame(entry.meta, JoinChunks(entry.chunks, entry.total))))
    else Reply(seated[part.frameId := entry], Pending)
  }

  ghost function Step(t: Table, victim: uint16, m: Message): Reply {
    match m
    case Rejected => Reply(t, Error)
    case Skipped => Reply(t, Skip)
    case Whole(frame) => Reply(t, Complete(frame))
    case Fragment(part, meta, payload) => Accept(t, victim, part, meta, payload)
  }

  /** Which frame has the first slot, if any: a new frame gets it when it is free, and when no slot
      is. */
  function FirstSlotSeated(t: Table, first: Option<uint16>, id: uint16): Option<uint16> {
    if id !in t && (first.None? || |t| >= MAX_ENTRIES) then Some(id) else first
  }

  function FirstSlotAfter(t: Table, first: Option<uint16>, m: Message, outcome: Outcome): Option<uint16> {
    if !m.Fragment? then first
    else
      var seated := FirstSlotSeated(t, first, m.part.frameId);
      if outcome.Complete? && seated == Some(m.part.frameId) then None else seated
  }

  // ----- runs -----

  datatype RunResult = RunResult(table: Table, outcomes: seq<Outcome>)

  /** The table and the outcomes after a sequence of messages; victims[i] is the entry that
      message i would evict. */
  ghost function Run(t: Table, ms: seq<Message>, victims: seq<uint16>): (r: RunResult)
    requires |ms| == |victims|
    ensures |r.outcomes| == |ms|
  {
    if ms == [] then RunResult(t, [])
    else
      var before := Run(t, ms[..|ms| - 1], victims[..|ms| - 1]);
      var last := Step(before.table, victims[|ms| - 1], ms[|ms| - 1]);
      RunResult(last.table, before.outcomes + [last.outcome])
  }

  lemma RunAppend(t: Table, ms: seq<Message>, victims: seq<uint16>, m: Message, victim: uint16)
    requires |ms| == |victims|
    ensures var before := Run(t, ms, victims);
            var last := Step(before.table, victim, m);
            Run(t, ms + [m], victims + [victim]) == RunResult(last.table, before.outcomes + [last.outcome])
  {
    assert (ms + [m])[..|ms|] == ms && (victims + [victim])[..|ms|] == victims;
  }

  lemma {:induction false} RunConcat(t: Table, a: seq<Message>, b: seq<Message>, va: seq<uint16>, vb: seq<uint16>)
    requires |a| == |va| && |b| == |vb|
    ensures var first := Run(t, a, va);
            var second := Run(first.table, b, vb);
            Run(t, a + b, va + vb) == RunResult(second.table, first.outcomes + second.outcomes)
  {
    hide Run, Step;
    if b == [] {
      RunNothing(Run(t, a, va).table);
      assert a + b == a && va + vb == va;
    } else {
      var n := |b| - 1;
      var b', vb' := b[..n], vb[..n];
      RunConcat(t, a, b', va, vb');
      RunAppend(t, a + b', va + vb', b[n], vb[n]);
      RunAppend(Run(t, a, va).table, b', vb', b[n], vb[n]);
      assert a + b' + [b[n]] == a + b && va + vb' + [vb[n]] == va + vb;
      assert b' + [b[n]] == b && vb' + [vb[n]] == vb;
    }
  }

  lemma RunNothing(t: Table)
    ensures Run(t, [], []) == RunResult(t, [])
  {
  }

  lemma RunOne(t: Table, m: Message, victims: seq<uint16>)
    requires |victims| == 1
    ensures var r := Step(t, victims[0], m);
            Run(t, [m], victims) == RunResult(r.table, [r.outcome])
  {
    assert [m][..0] == [] && victims[..0] == [];
  }

  /** The frames delivered, in order. */
  function Delivered(outcomes: seq<Outcome>): seq<ParsedFrame> {
    if outcomes == [] then []
    else Delivered(outcomes[..|outcomes| - 1])
         + (if outcomes[|outcomes| - 1].Complete? then [outcomes[|outcomes| - 1].frame] else [])
  }

  lemma DeliveredNothing()
    ensures Delivered([]) == []
  {
  }

  lemma {:induction false} DeliveredConcat(a: seq<Outcome>, b: seq<Outcome>)
    ensures Delivered(a + b) == Delivered(a) + Delivered(b)
  {
    if b == [] {
      assert a + b == a;
    } else {
      var init := b[..|b| - 1];
      DeliveredConcat(a, init);
      assert (a + b)[..|a + b| - 1] == a + init;
    }
  }

  /** Two runs in a row, the first of which leaves the table empty. */
  lemma RunsCompose(a: seq<Message>, b: seq<Message>, va: seq<uint16>, vb: seq<uint16>)
    requires |a| == |va| && |b| == |vb|
    requires Run(map[], a, va).table == map[]
    ensures Run(map[], a + b, va + vb).table == Run(map[], b, vb).table
    ensures Delivered(Run(map[], a + b, va + vb).outcomes)
            == Delivered(Run(map[], a, va).outcomes) + Delivered(Run(map[], b, vb).outcomes)
  {
    RunConcat(map[], a, b, va, vb);
    DeliveredConcat(Run(map[], a, va).outcomes, Run(map[], b, vb).outcomes);
  }

  // ----- what every step keeps -----

  /** An entry between calls: not full, and only indices in range. */
  ghost predicate EntryOk(p: Partial) {
    && 1 <= p.total <= MAX_FRAGMENTS
    && !IsFull(p)
    && forall k :: k in p.chunks ==> k < p.total
  }

  /** The table between calls: its entries fit the sixteen slots. */
  ghost predicate TableOk(t: Table) {
    |t| <= MAX_ENTRIES && forall id :: id in t ==> EntryOk(t[id])
  }

  /** The frame that a full table gives up is one of its own. */
  ghost predicate RealVictim(t: Table, victim: uint16) {
    |t| == MAX_ENTRIES ==> victim in t
  }

  /** Over a whole run. */
  ghost predicate RealVictims(t: Table, ms: seq<Message>, victims: seq<uint16>) {
    |ms| == |victims| && forall i :: 0 <= i < |ms| ==> RealVictim(Run(t, ms[..i], victims[..i]).table, victims[i])
  }

  lemma RealVictimsAppend(t: Table, ms: seq<Message>, victims: seq<uint16>, m: Message, victim: uint16)
    requires RealVictims(t, ms, victims) && RealVictim(Run(t, ms, victims).table, victim)
    ensures RealVictims(t, ms + [m], victims + [victim])
  {
    hide Run, RealVictim;
    var ms', vs' := ms + [m], victims + [victim];
    forall i | 0 <= i < |ms'| ensures RealVictim(Run(t, ms'[..i], vs'[..i]).table, vs'[i]) {
      assert ms'[..i] == ms[..i] && vs'[..i] == victims[..i];
      assert i == |ms| ==> ms[..i] == ms && victims[..i] == victims;
    }
  }

  lemma FirstRealVictim(t: Table, ms: seq<Message>, victims: seq<uint16>)
    requires RealVictims(t, ms, victims) && ms != []
    ensures RealVictim(t, victims[0])
  {
    hide RealVictim;
    assert ms[..0] == [] && victims[..0] == [];
    RunNothing(t);
  }

  lemma SeatKeepsTable(t: Table, victim: uint16, part: FragmentPart)
    requires TableOk(t) && 1 <= part.total <= MAX_FRAGMENTS
    requires RealVictim(t, victim)
    ensures TableOk(Seat(t, victim, part))
  {
    if part.frameId !in t {
      var room := MakeRoom(t, victim);
      MakeRoomSize(t, victim);
      assert |room[part.frameId := Partial(part.total, map[], NO_META)]| <= |room| + 1;
      assert 0 !in Partial(part.total, map[], NO_META).chunks;
    }
  }

  /** A step keeps the table well formed. */
  lemma StepKeepsTable(t: Table, victim: uint16, m: Message)
    requires TableOk(t) && RealVictim(t, victim)
    requires m.Fragment? ==> 1 <= m.part.total <= MAX_FRAGMENTS
    ensures TableOk(Step(t, victim, m).table)
  {
    if m.Fragment? {
      SeatKeepsTable(t, victim, m.part);
      var seated := Seat(t, victim, m.part);
      var id := m.part.frameId;
      if IsFull(Absorb(seated[id], m.part.index, m.meta, m.payload)) {
        SubsetSize((seated - {id}).Keys, seated.Keys);
      } else {
        assert seated[id := Absorb(seated[id], m.part.index, m.meta, m.payload)].Keys == seated.Keys;
      }
    }
  }

  /** A step touches no entry but the fragment's own and, when all sixteen are taken and the
      frame is new, the victim. */
  lemma StepTouchesLittle(t: Table, victim: uint16, m: Message, id: uint16)
    requires m.Fragment? ==> id != m.part.frameId
    ensures var t' := Step(t, victim, m).table;
            if m.Fragment? && m.part.frameId !in t && |t| >= MAX_ENTRIES && id == victim then id !in t'
            else (id in t' <==> id in t) && (id in t ==> t'[id] == t[id])
  {
    hide IsFull, Absorb, JoinChunks;
  }

  lemma MakeRoomSize(t: Table, victim: uint16)
    requires |t| <= MAX_ENTRIES
    requires |t| == MAX_ENTRIES ==> victim in t
    ensures |MakeRoom(t, victim)| < MAX_ENTRIES
  {
    if |t| == MAX_ENTRIES {
      assert (t - {victim}).Keys == t.Keys - {victim};
    }
  }

  lemma {:induction false} SubsetSize<T>(a: set<T>, b: set<T>)
    requires a <= b
    ensures |a| <= |b|
  {
    if a == {} {
    } else {
      var x :| x in a;
      SubsetSize(a - {x}, b - {x});
    }
  }
}
