/** Which frame a full table gives up: the one in the first slot. When that is the oldest one, as the
    client's code says it is, and when it is not. */
module Eviction {
  import opened Wrappers
  import opened Bytes
  import opened FrameFormat
  import opened Reassembly
  import FrameParser

  /** The table, the frame in the first slot, and for each open frame the message that opened it. */
  datatype Places = Places(table: Table, first: Option<uint16>, births: map<uint16, nat>)

  function Victim(p: Places): uint16 {
    if p.first.Some? then p.first.value else 0
  }

  ghost function OutcomeOf(p: Places, m: Message): Outcome {
    Step(p.table, Victim(p), m).outcome
  }

  /** Message n arrives. */
  ghost function Next(p: Places, n: nat, m: Message): Places {
    var r := Step(p.table, Victim(p), m);
    Places(r.table, FirstSlotAfter(p.table, p.first, m, r.outcome),
           if m.Fragment? then Births(p, n, m.part.frameId, r.outcome.Complete?) else p.births)
  }

  function Births(p: Places, n: nat, id: uint16, complete: bool): map<uint16, nat> {
    var kept := if |p.table| < MAX_ENTRIES then p.births else p.births - {Victim(p)};
    var seated := if id in p.table then p.births else kept[id := n];
    if complete then seated - {id} else seated
  }

  ghost function After(ms: seq<Message>): Places {
    if ms == [] then Places(map[], None, map[])
    else Next(After(ms[..|ms| - 1]), |ms| - 1, ms[|ms| - 1])
  }

  lemma AfterOneMore(ms: seq<Message>, n: nat)
    requires n < |ms|
    ensures After(ms[..n + 1]) == Next(After(ms[..n]), n, ms[n])
  {
    hide Next;
    assert ms[..n + 1][..n] == ms[..n];
  }

  // ----- what holds after every message -----

  ghost predicate PlacesOk(p: Places, n: nat) {
    && p.births.Keys == p.table.Keys && |p.table| <= MAX_ENTRIES
    && (p.first.Some? ==> p.first.value in p.table)
    && (|p.table| == MAX_ENTRIES ==> p.first.Some?)
    && (forall id :: id in p.births ==> p.births[id] < n)
    && forall a, b :: a in p.births && b in p.births && a != b ==> p.births[a] != p.births[b]
  }

  lemma SizeWithout<T>(s: set<T>, x: T)
    ensures |s - {x}| == if x in s then |s| - 1 else |s|
  {
    assert x !in s ==> s - {x} == s;
  }

  /** The frames open after a fragment of frame id. */
  function OpenIds(p: Places, id: uint16, complete: bool): set<uint16> {
    var kept := if |p.table| < MAX_ENTRIES then p.table.Keys else p.table.Keys - {Victim(p)};
    var seated := if id in p.table then p.table.Keys else kept + {id};
    if complete then seated - {id} else seated
  }

  lemma SeatKeys(p: Places, part: FragmentPart)
    ensures Seat(p.table, Victim(p), part).Keys == OpenIds(p, part.frameId, false)
  {
    hide Victim;
    assert (p.table - {Victim(p)}).Keys == p.table.Keys - {Victim(p)};
  }

  lemma AcceptKeys(t: Table, victim: uint16, part: FragmentPart, meta: Meta, payload: bytes)
    ensures var seated, r := Seat(t, victim, part).Keys, Accept(t, victim, part, meta, payload);
            r.table.Keys == if r.outcome.Complete? then seated - {part.frameId} else seated
  {
    hide Absorb, IsFull, JoinChunks, Seat;
    assert (Seat(t, victim, part) - {part.frameId}).Keys == Seat(t, victim, part).Keys - {part.frameId};
  }

  lemma StepKeys(p: Places, m: Message)
    ensures Step(p.table, Victim(p), m).table.Keys
            == if m.Fragment? then OpenIds(p, m.part.frameId, OutcomeOf(p, m).Complete?) else p.table.Keys
  {
    hide Accept, Seat, Victim;
    if m.Fragment? {
      SeatKeys(p, m.part);
      AcceptKeys(p.table, Victim(p), m.part, m.meta, m.payload);
    }
  }

  lemma BirthsAre(p: Places, n: nat, id: uint16, complete: bool)
    requires p.births.Keys == p.table.Keys
    ensures Births(p, n, id, complete).Keys == OpenIds(p, id, complete)
    ensures forall k :: k in Births(p, n, id, complete) ==>
              if k == id && id !in p.table then Births(p, n, id, complete)[k] == n
              else k in p.births && Births(p, n, id, complete)[k] == p.births[k]
  {
    hide Victim;
  }

  lemma SizeOfOpen(p: Places, n: nat, id: uint16, complete: bool)
    requires PlacesOk(p, n)
    ensures |OpenIds(p, id, complete)| <= (if complete then MAX_ENTRIES - 1 else MAX_ENTRIES)
    ensures p.first.None? && (id in p.table || complete) ==> |OpenIds(p, id, complete)| < MAX_ENTRIES
  {
    var kept := if |p.table| < MAX_ENTRIES then p.table.Keys else p.table.Keys - {Victim(p)};
    SizeWithout(p.table.Keys, Victim(p));
    assert |kept| < MAX_ENTRIES && |kept + {id}| <= |kept| + 1;
    var seated := if id in p.table then p.table.Keys else kept + {id};
    SizeWithout(seated, id);
  }

  lemma FirstKept(p: Places, n: nat, m: Message, outcome: Outcome)
    requires PlacesOk(p, n) && m.Fragment?
    ensures var first := FirstSlotAfter(p.table, p.first, m, outcome);
            && (first.Some? ==> first.value in OpenIds(p, m.part.frameId, outcome.Complete?))
            && (first.None? ==> outcome.Complete? || (p.first.None? && m.part.frameId in p.table))
  {
  }

  lemma PlacesOfFragment(p: Places, n: nat, m: Message)
    requires PlacesOk(p, n) && m.Fragment?
    ensures PlacesOk(Next(p, n, m), n + 1)
  {
    hide Step, Births, OpenIds, FirstSlotAfter, Victim, OutcomeOf;
    var complete := OutcomeOf(p, m).Complete?;
    OutcomeIs(p, m);
    StepKeys(p, m);
    BirthsAre(p, n, m.part.frameId, complete);
    SizeOfOpen(p, n, m.part.frameId, complete);
    FirstKept(p, n, m, OutcomeOf(p, m));
    assert |Next(p, n, m).table| == |Next(p, n, m).table.Keys|;
  }

  lemma OutcomeIs(p: Places, m: Message)
    ensures OutcomeOf(p, m) == Step(p.table, Victim(p), m).outcome
  {
    hide Step, Victim;
  }

  lemma PlacesKept(p: Places, n: nat, m: Message)
    requires PlacesOk(p, n)
    ensures PlacesOk(Next(p, n, m), n + 1)
  {
    if m.Fragment? {
      hide *;
      PlacesOfFragment(p, n, m);
    }
  }

  lemma {:induction false} AfterIsOk(ms: seq<Message>)
    ensures PlacesOk(After(ms), |ms|)
  {
    hide Next, PlacesOk;
    if ms == [] {
      NothingOpen();
    } else {
      AfterIsOk(ms[..|ms| - 1]);
      PlacesKept(After(ms[..|ms| - 1]), |ms| - 1, ms[|ms| - 1]);
    }
  }

  lemma NothingOpen()
    ensures PlacesOk(After([]), 0)
  {
  }

  // ----- one message -----

  /** Message n delivers the frame. */
  ghost predicate DeliversAt(ms: seq<Message>, n: nat, id: uint16)
    requires n < |ms|
  {
    ms[n].Fragment? && ms[n].part.frameId == id && OutcomeOf(After(ms[..n]), ms[n]).Complete?
  }

  /** An entry that message n did not open was there before and has not been delivered by it. */
  lemma BornEarlier(ms: seq<Message>, n: nat, id: uint16)
    requires n < |ms| && id in After(ms[..n + 1]).births && After(ms[..n + 1]).births[id] != n
    ensures id in After(ms[..n]).births && After(ms[..n]).births[id] == After(ms[..n + 1]).births[id]
    ensures !DeliversAt(ms, n, id)
  {
    hide Step, FirstSlotAfter;
    AfterOneMore(ms, n);
  }

  /** Only delivery removes an entry that is not in the first slot. */
  lemma LeavesByDelivery(ms: seq<Message>, n: nat, id: uint16)
    requires n < |ms| && id in After(ms[..n]).births && After(ms[..n]).first != Some(id)
    requires !DeliversAt(ms, n, id)
    ensures id in After(ms[..n + 1]).births && After(ms[..n + 1]).births[id] == After(ms[..n]).births[id]
  {
    hide Step, FirstSlotAfter, PlacesOk;
    AfterOneMore(ms, n);
    AfterIsOk(ms[..n]);
    FullHasFirst(After(ms[..n]), n);
  }

  lemma FullHasFirst(p: Places, n: nat)
    requires PlacesOk(p, n)
    ensures p.births.Keys == p.table.Keys && (|p.table| >= MAX_ENTRIES ==> p.first.Some?)
  {
  }

  /** A frame in the first slot that message n did not open was there before. */
  lemma FirstStays(ms: seq<Message>, n: nat, id: uint16)
    requires n < |ms| && After(ms[..n + 1]).first == Some(id)
    requires id in After(ms[..n + 1]).births && After(ms[..n + 1]).births[id] != n
    ensures After(ms[..n]).first == Some(id)
  {
    hide Step, PlacesOk;
    AfterOneMore(ms, n);
    AfterIsOk(ms[..n]);
    FullHasFirst(After(ms[..n]), n);
  }

  // ----- since the first slot was filled -----

  /** An entry has been there since the message that opened it. */
  lemma {:induction false} ThereSince(ms: seq<Message>, n: nat, j: nat, id: uint16)
    requires n <= |ms| && id in After(ms[..n]).births && After(ms[..n]).births[id] < j <= n
    ensures id in After(ms[..j]).births && After(ms[..j]).births[id] == After(ms[..n]).births[id]
  {
    hide After;
    if j < n {
      BornEarlier(ms, n - 1, id);
      ThereSince(ms, n - 1, j, id);
    }
  }

  /** The frame was open when message b had been taken. */
  ghost predicate OpenAfter(ms: seq<Message>, b: nat, id: uint16) {
    b < |ms| && id in After(ms[..b + 1]).births
  }

  /** A message behind message b has delivered it. */
  ghost predicate DeliveredSince(ms: seq<Message>, b: nat, id: uint16) {
    exists j: nat :: b < j < |ms| && DeliversAt(ms, j, id)
  }

  /** What the first slot's frame found there when it was opened stays until it is delivered. */
  lemma {:induction false} StaysUntilDelivered(ms: seq<Message>, n: nat, j: nat, first: uint16, id: uint16)
    requires j <= n <= |ms| && first != id && id in After(ms[..j]).births
    requires After(ms[..n]).first == Some(first)
    requires first in After(ms[..n]).births && After(ms[..n]).births[first] < j
    requires forall i: nat :: j <= i < n ==> !DeliversAt(ms, i, id)
    ensures id in After(ms[..n]).births && After(ms[..n]).births[id] == After(ms[..j]).births[id]
  {
    hide After, DeliversAt;
    if j < n {
      BornEarlier(ms, n - 1, first);
      FirstStays(ms, n - 1, first);
      StaysUntilDelivered(ms, n - 1, j, first, id);
      LeavesByDelivery(ms, n - 1, id);
    }
  }

  ghost predicate IsOldest(p: Places, id: uint16) {
    id in p.births && forall other :: other in p.births ==> p.births[id] <= p.births[other]
  }

  /** Any sequence of messages to a fresh parser: the frame in the first slot, which a full table gives
      up, is the oldest one if and only if every other frame that was open when it was opened has
      been delivered since. */
  lemma {:induction false} EvictsOldestExactly(ms: seq<Message>)
    requires After(ms).first.Some?
    ensures var p := After(ms);
            var z := p.first.value;
            && z in p.births && p.births[z] < |ms|
            && var b := p.births[z];
            (IsOldest(p, z) <==> forall id :: OpenAfter(ms, b, id) && id != z ==> DeliveredSince(ms, b, id))
  {
    hide After, OpenAfter, DeliveredSince;
    AfterIsOk(ms);
    assert ms[..|ms|] == ms;
    var p := After(ms);
    var z := p.first.value;
    var b := p.births[z];
    if IsOldest(p, z) {
      forall id | OpenAfter(ms, b, id) && id != z ensures DeliveredSince(ms, b, id) {
        OldestMeans(ms, z, id);
      }
    }
    if forall id :: OpenAfter(ms, b, id) && id != z ==> DeliveredSince(ms, b, id) {
      forall other | other in p.births ensures b <= p.births[other] {
        NothingOlder(ms, z, other);
      }
    }
  }

  lemma OldestMeans(ms: seq<Message>, z: uint16, id: uint16)
    requires After(ms).first == Some(z) && IsOldest(After(ms), z) && id != z
    requires OpenAfter(ms, After(ms).births[z], id)
    ensures DeliveredSince(ms, After(ms).births[z], id)
  {
    hide After, DeliversAt;
    var j := After(ms).births[z] + 1;
    assert ms[..|ms|] == ms;
    AfterIsOk(ms[..j]);
    ThereSince(ms, |ms|, j, z);
    if forall i: nat :: j <= i < |ms| ==> !DeliversAt(ms, i, id) {
      StaysUntilDelivered(ms, |ms|, j, z, id);
    }
  }

  lemma NothingOlder(ms: seq<Message>, z: uint16, other: uint16)
    requires After(ms).first == Some(z) && z in After(ms).births && After(ms).births[z] < |ms|
    requires other in After(ms).births
    requires OpenAfter(ms, After(ms).births[z], other) && other != z
             ==> DeliveredSince(ms, After(ms).births[z], other)
    ensures After(ms).births[z] <= After(ms).births[other]
  {
    hide After, DeliversAt;
    var b := After(ms).births[z];
    assert ms[..|ms|] == ms;
    if After(ms).births[other] < b {
      ThereSince(ms, |ms|, b + 1, other);
      var j: nat :| b < j < |ms| && DeliversAt(ms, j, other);
      ThereSince(ms, |ms|, j + 1, other);
      BornEarlier(ms, j, other);
    }
  }

  // ----- when it is not the oldest -----

  ghost predicate Opens(p: Places, m: Message) {
    m.Fragment? && m.part.frameId !in p.table && 2 <= m.part.total <= MAX_FRAGMENTS
  }

  /** One fragment of several does not complete a frame. */
  lemma OpeningIsPending(p: Places, m: Message)
    requires Opens(p, m)
    ensures !OutcomeOf(p, m).Complete?
  {
    hide JoinChunks, MakeRoom;
    var entry := Absorb(Partial(m.part.total, map[], NO_META), m.part.index, m.meta, m.payload);
    var missing: nat := if m.part.index == 0 then 1 else 0;
    assert missing < entry.total && missing !in entry.chunks;
    assert !IsFull(entry);
  }

  lemma Opened(p: Places, n: nat, m: Message)
    requires PlacesOk(p, n) && Opens(p, m)
    ensures Next(p, n, m).births.Keys
            == (if |p.table| < MAX_ENTRIES then p.births.Keys else p.births.Keys - {Victim(p)}) + {m.part.frameId}
    ensures Next(p, n, m).first == FirstSlotSeated(p.table, p.first, m.part.frameId)
    ensures forall id :: id in Next(p, n, m).births ==>
              if id == m.part.frameId then Next(p, n, m).births[id] == n
              else id in p.births && Next(p, n, m).births[id] == p.births[id]
  {
    hide Step, Births, OutcomeOf, Victim;
    OpeningIsPending(p, m);
    OutcomeIs(p, m);
    BirthsAre(p, n, m.part.frameId, false);
  }

  /** Two evictions with no delivery between: the second one loses the frame that the first one made
      room for, the newest of all, and the fifteen older ones stay. */
  lemma {:induction false} SecondEvictionLosesNewest(ms: seq<Message>, x: Message, y: Message)
    requires |After(ms).table| == MAX_ENTRIES && Opens(After(ms), x)
    requires Opens(After(ms + [x]), y)
    ensures var p, q := After(ms + [x]), After(ms + [x, y]);
            && p.first == Some(x.part.frameId) && x.part.frameId in p.births
            && (forall id :: id in p.births && id != x.part.frameId ==> p.births[id] < p.births[x.part.frameId])
            && q.births.Keys == p.births.Keys - {x.part.frameId} + {y.part.frameId}
            && |p.births| == MAX_ENTRIES
  {
    hide *;
    AfterIsOk(ms);
    AfterIsOk(ms + [x]);
    AfterAppend(ms, x);
    AfterAppend(ms + [x], y);
    assert ms + [x] + [y] == ms + [x, y];
    OpensIntoFull(After(ms), |ms|, x);
    OpensIntoFull(After(ms + [x]), |ms| + 1, y);
  }

  lemma AfterAppend(ms: seq<Message>, m: Message)
    ensures After(ms + [m]) == Next(After(ms), |ms|, m)
  {
    hide Next;
    assert (ms + [m])[..|ms|] == ms;
  }

  lemma OpensIntoFull(p: Places, n: nat, m: Message)
    requires PlacesOk(p, n) && Opens(p, m) && |p.table| == MAX_ENTRIES
    ensures var q, id := Next(p, n, m), m.part.frameId;
            && p.first.Some? && q.first == Some(id) && |q.table| == |q.births| == MAX_ENTRIES
            && q.births.Keys == p.births.Keys - {p.first.value} + {id} && q.births[id] == n
            && forall other :: other in q.births && other != id ==> q.births[other] < n
  {
    hide Next;
    Opened(p, n, m);
    PlacesKept(p, n, m);
    SizeWithout(p.births.Keys, p.first.value);
    var kept := p.births.Keys - {p.first.value};
    assert |kept + {m.part.frameId}| == |kept| + 1;
    SameSize(Next(p, n, m));
  }

  lemma SameSize(p: Places)
    requires p.births.Keys == p.table.Keys
    ensures |p.table| == |p.births| == |p.births.Keys|
  {
    assert |p.table| == |p.table.Keys|;
  }

  /** The first of two fragments of frame n. */
  function FirstFragment(n: uint16): Message {
    Fragment(FragmentPart(n, 0, 2), NO_META, [])
  }

  function FirstFragments(n: nat): (ms: seq<Message>)
    requires n <= 0x1_0000
    ensures |ms| == n
  {
    seq(n, i requires 0 <= i < n => FirstFragment(i))
  }

  lemma AfterFragments(n: nat)
    requires n < 0x1_0000
    ensures After(FirstFragments(n + 1)) == Next(After(FirstFragments(n)), n, FirstFragment(n))
    ensures PlacesOk(After(FirstFragments(n)), n)
  {
    hide Next, After, PlacesOk;
    AfterIsOk(FirstFragments(n));
    AfterAppend(FirstFragments(n), FirstFragment(n));
    assert FirstFragments(n + 1) == FirstFragments(n) + [FirstFragment(n)];
  }

  /** Frames 0 .. n-1 are open, frame 0 in the first slot. */
  ghost predicate InTurn(p: Places, n: nat) {
    |p.table| == n && p.first == (if n > 0 then Some(0) else None) && Numbered(p.births, n)
  }

  ghost predicate Numbered(births: map<uint16, nat>, n: nat) {
    && (forall id: uint16 :: id in births <==> id < n)
    && forall id :: id in births ==> births[id] == id
  }

  lemma NumberedNext(a: map<uint16, nat>, b: map<uint16, nat>, n: uint16)
    requires Numbered(a, n) && b.Keys == a.Keys + {n} && b[n] == n
    requires forall id :: id in a ==> b[id] == a[id]
    ensures Numbered(b, n + 1)
  {
    forall id: uint16 ensures id in b <==> id < n + 1 {
      assert id in b.Keys <==> id in a.Keys || id == n;
    }
  }

  lemma {:induction false} OpenedInTurn(n: nat)
    requires n <= MAX_ENTRIES
    ensures InTurn(After(FirstFragments(n)), n)
  {
    if n == 0 {
    } else {
      hide *;
      OpenedInTurn(n - 1);
      AfterFragments(n - 1);
      OpensNext(After(FirstFragments(n - 1)), n - 1);
    }
  }

  lemma OpensIntoRoom(p: Places, n: nat, m: Message)
    requires PlacesOk(p, n) && Opens(p, m) && |p.table| < MAX_ENTRIES
    ensures var q, id := Next(p, n, m), m.part.frameId;
            && q.first == (if p.first.None? then Some(id) else p.first) && |q.table| == |p.table| + 1
            && q.births.Keys == p.births.Keys + {id} && q.births[id] == n
            && forall other :: other in p.births ==> q.births[other] == p.births[other]
  {
    hide Next;
    Opened(p, n, m);
    PlacesKept(p, n, m);
    assert |p.births.Keys + {m.part.frameId}| == |p.births.Keys| + 1;
    SameSize(p);
    SameSize(Next(p, n, m));
  }

  lemma OpensNext(p: Places, n: nat)
    requires PlacesOk(p, n) && n < MAX_ENTRIES && InTurn(p, n)
    ensures InTurn(Next(p, n, FirstFragment(n)), n + 1)
  {
    hide Next, PlacesOk, Numbered;
    NewInTurn(p, n);
    OpensIntoRoom(p, n, FirstFragment(n));
    NumberedNext(p.births, Next(p, n, FirstFragment(n)).births, n);
  }

  lemma NewInTurn(p: Places, n: nat)
    requires PlacesOk(p, n) && n < 0x1_0000 && Numbered(p.births, n)
    ensures Opens(p, FirstFragment(n))
  {
    assert n !in p.births.Keys;
  }

  lemma TakesFirstSlot(p: Places, n: nat)
    requires PlacesOk(p, n) && n < 0x1_0000 && n !in p.births && |p.table| == MAX_ENTRIES
    ensures var q := Next(p, n, FirstFragment(n));
            && p.first.Some? && q.first == Some(n) && |q.table| == MAX_ENTRIES
            && q.births.Keys == p.births.Keys - {p.first.value} + {n} && q.births[n] == n
            && forall other :: other in q.births && other != n ==> q.births[other] < n
  {
    hide Next;
    OpensIntoFull(p, n, FirstFragment(n));
  }

  /** An input: eighteen frames, of each of which only the first fragment has come. The seventeenth
      takes the place of frame 0, the oldest; the eighteenth that of the seventeenth. */
  lemma EighteenFrames()
    ensures IsOldest(After(FirstFragments(16)), 0) && 0 !in After(FirstFragments(17)).births
    ensures 16 in After(FirstFragments(17)).births && !IsOldest(After(FirstFragments(17)), 16)
    ensures 16 !in After(FirstFragments(18)).births && 1 in After(FirstFragments(18)).births
  {
    hide Next, After, PlacesOk, FirstFragments;
    OpenedInTurn(16);
    AfterFragments(16);
    AfterFragments(17);
    TakesFirstSlot(After(FirstFragments(16)), 16);
    TakesFirstSlot(After(FirstFragments(17)), 17);
    assert 1 in After(FirstFragments(17)).births && After(FirstFragments(17)).births[1] < 16;
  }

  // ----- the parser -----

  lemma SameVictim(p: Places, n: nat, victim: uint16, m: Message)
    requires PlacesOk(p, n) && (p.first.Some? ==> victim == p.first.value)
    ensures Step(p.table, victim, m) == Step(p.table, Victim(p), m)
  {
    hide IsFull, Absorb, JoinChunks;
  }

  /** A fresh parser keeps these places. */
  method ParseFresh(ds: seq<Datagram>) returns (parser: FrameParser.Parser, outcomes: seq<Outcome>)
    ensures fresh(parser) && fresh(parser.slots) && parser.Valid() && |outcomes| == |ds|
    ensures parser.Contents() == After(DecodeAll(ds)).table && parser.FirstSlot() == After(DecodeAll(ds)).first
  {
    hide Step, Decode, DecodeAll, After, PlacesOk, FrameParser.TableOf;
    parser := new FrameParser.Parser();
    outcomes := [];
    FrameParser.DecodeNone();
    NothingOpen();
    var i := 0;
    while i < |ds|
      invariant 0 <= i <= |ds| && |outcomes| == i
      invariant fresh(parser) && fresh(parser.slots) && parser.Valid()
      invariant parser.Contents() == After(DecodeAll(ds[..i])).table
      invariant parser.FirstSlot() == After(DecodeAll(ds[..i])).first
    {
      ghost var ms := DecodeAll(ds[..i]);
      AfterIsOk(ms);
      SameVictim(After(ms), |ms|, parser.slots[0].frameId, Decode(ds[i]));
      AfterAppend(ms, Decode(ds[i]));
      FrameParser.DecodeNext(ds, i);
      var r := parser.Parse(ds[i]);
      outcomes := outcomes + [r];
      i := i + 1;
    }
    assert ds[..i] == ds;
  }
}
