/** An ordered channel that loses messages, with frame ids used again and again: exactly which
    frames are delivered. */
module LossyStream {
  import opened Bytes
  import opened FrameFormat
  import opened FrameEncoder
  import opened Reassembly
  import opened Delivery
  import opened FrameDelivery

  /** A frame under the id it is sent with; ids may repeat. */
  datatype Sending = Sending(frame: MediaFrame, id: uint16)

  /** Message `index` of the n-th frame. */
  datatype Tag = Tag(n: nat, index: nat)

  predicate InStream(ss: seq<Sending>, p: Tag) {
    p.n < |ss| && p.index < MessageCount(ss[p.n].frame)
  }

  predicate AllInStream(ss: seq<Sending>, ps: seq<Tag>) {
    forall i :: 0 <= i < |ps| ==> InStream(ss, ps[i])
  }

  predicate Before(a: Tag, b: Tag) {
    a.n < b.n || (a.n == b.n && a.index < b.index)
  }

  /** What gets through keeps the sending order. */
  predicate Ordered(ps: seq<Tag>) {
    forall i, j :: 0 <= i < j < |ps| ==> Before(ps[i], ps[j])
  }

  function MessageOf(ss: seq<Sending>, p: Tag): Message
    requires InStream(ss, p)
  {
    View(ss[p.n].frame, Packet(ss[p.n].id, p.index))
  }

  function Survivors(ss: seq<Sending>, ps: seq<Tag>): (ms: seq<Message>)
    requires AllInStream(ss, ps)
    ensures |ms| == |ps|
  {
    seq(|ps|, i requires 0 <= i < |ps| => MessageOf(ss, ps[i]))
  }

  // ----- what has arrived of a frame -----

  ghost predicate Touched(ps: seq<Tag>, n: nat) {
    exists k: nat :: Tag(n, k) in ps
  }

  ghost predicate AllHere(ss: seq<Sending>, ps: seq<Tag>, n: nat)
    requires n < |ss|
  {
    forall k: nat :: k < MessageCount(ss[n].frame) ==> Tag(n, k) in ps
  }

  /** The entry of a frame of which these messages have arrived. */
  ghost function EntryOf(g: MediaFrame, ps: seq<Tag>, n: nat): Partial
    requires FragmentCount(g.payload) <= ChunksNeeded(g.payload)
  {
    Partial(FragmentCount(g.payload),
            map k: nat | k < FragmentCount(g.payload) && Tag(n, k) in ps :: Chunk(g.payload, k),
            if Tag(n, 0) in ps then FirstMeta(g) else NO_META)
  }

  /** What the arrival of a message brings about, told from the messages alone: a fragmented frame
      is delivered with its last message if all the others have arrived before. */
  ghost function OutcomeFor(ss: seq<Sending>, ps: seq<Tag>, n: nat): Outcome
    requires n < |ss|
  {
    var g := ss[n].frame;
    if !Fragmented(g.payload) then Complete(Expected(g))
    else if !Accepted(g) then Error
    else if AllHere(ss, ps, n) then Complete(Carried(g))
    else Pending
  }

  ghost predicate OutcomesOf(ss: seq<Sending>, ps: seq<Tag>, os: seq<Outcome>) {
    && AllInStream(ss, ps) && |os| == |ps|
    && forall i :: 0 <= i < |ps| ==> os[i] == OutcomeFor(ss, ps[..i + 1], ps[i].n)
  }

  // ----- the table, as far as it matters -----

  /** The frame whose messages are coming has the entry it should have; about other entries
      nothing is said. */
  ghost predicate CurrentOk(ss: seq<Sending>, ps: seq<Tag>, t: Table) {
    AllInStream(ss, ps) && ps != [] && Accepted(ss[ps[|ps| - 1].n].frame) ==>
      var n := ps[|ps| - 1].n;
      && FragmentCount(ss[n].frame.payload) <= ChunksNeeded(ss[n].frame.payload)
      && if AllHere(ss, ps, n) then ss[n].id !in t
         else ss[n].id in t && t[ss[n].id] == EntryOf(ss[n].frame, ps, n)
  }

  /** The first message that arrives of its frame. */
  predicate IsFirst(ps: seq<Tag>, i: nat)
    requires i < |ps|
  {
    i == 0 || ps[i - 1].n != ps[i].n
  }

  ghost function TableAt(t: Table, ss: seq<Sending>, ps: seq<Tag>, victims: seq<uint16>, i: nat): Table
    requires AllInStream(ss, ps) && |victims| == |ps| && i <= |ps|
  {
    Run(t, Survivors(ss, ps[..i]), victims[..i]).table
  }

  /** When the first message of a fragmented frame arrives, nothing is left under its id. */
  ghost predicate NothingLeft(t: Table, ss: seq<Sending>, ps: seq<Tag>, victims: seq<uint16>)
    requires AllInStream(ss, ps) && |victims| == |ps|
  {
    forall i :: 0 <= i < |ps| && IsFirst(ps, i) && Accepted(ss[ps[i].n].frame) ==>
                  ss[ps[i].n].id !in TableAt(t, ss, ps, victims, i)
  }

  // ----- one message -----

  lemma OneMoreHere(g: MediaFrame, ps: seq<Tag>, p: Tag)
    requires FragmentCount(g.payload) <= ChunksNeeded(g.payload) && p.index < FragmentCount(g.payload) && p !in ps
    ensures Absorb(EntryOf(g, ps, p.n), p.index, if p.index == 0 then FirstMeta(g) else LaterMeta(g),
                   Chunk(g.payload, p.index))
            == EntryOf(g, ps + [p], p.n)
  {
    hide Chunk;
    var meta := if p.index == 0 then FirstMeta(g) else LaterMeta(g);
    assert forall k: nat :: Tag(p.n, k) in ps + [p] <==> Tag(p.n, k) in ps || k == p.index;
    assert Absorb(EntryOf(g, ps, p.n), p.index, meta, Chunk(g.payload, p.index)).chunks
        == EntryOf(g, ps + [p], p.n).chunks;
  }

  lemma NothingHere(g: MediaFrame, ps: seq<Tag>, n: nat)
    requires FragmentCount(g.payload) <= ChunksNeeded(g.payload) && !Touched(ps, n)
    ensures EntryOf(g, ps, n) == Partial(FragmentCount(g.payload), map[], NO_META)
  {
  }

  lemma FullMeansAll(ss: seq<Sending>, ps: seq<Tag>, n: nat)
    requires n < |ss| && Accepted(ss[n].frame)
    requires FragmentCount(ss[n].frame.payload) <= ChunksNeeded(ss[n].frame.payload)
    ensures IsFull(EntryOf(ss[n].frame, ps, n)) <==> AllHere(ss, ps, n)
  {
    hide Chunk;
    var e := EntryOf(ss[n].frame, ps, n);
    assert forall k: nat :: k < e.total ==> (k in e.chunks <==> Tag(n, k) in ps);
  }

  lemma FullIsCarried(ss: seq<Sending>, ps: seq<Tag>, n: nat)
    requires n < |ss| && Accepted(ss[n].frame)
    requires FragmentCount(ss[n].frame.payload) <= ChunksNeeded(ss[n].frame.payload)
    requires IsFull(EntryOf(ss[n].frame, ps, n))
    ensures var e := EntryOf(ss[n].frame, ps, n);
            ParsedFrame(e.meta, JoinChunks(e.chunks, e.total)) == Carried(ss[n].frame)
  {
    hide Chunk;
    var g := ss[n].frame;
    var e := EntryOf(g, ps, n);
    assert 0 in e.chunks;
    assert CleanEntry(g, e);
    JoinClean(g, e, e.total);
  }

  /** A fragment arrives for which the table has the right entry or none. */
  lemma FragmentArrives(ss: seq<Sending>, ps: seq<Tag>, t: Table, victim: uint16, p: Tag)
    requires InStream(ss, p) && Accepted(ss[p.n].frame) && p !in ps
    requires FragmentCount(ss[p.n].frame.payload) <= ChunksNeeded(ss[p.n].frame.payload)
    requires if ss[p.n].id in t then t[ss[p.n].id] == EntryOf(ss[p.n].frame, ps, p.n) else !Touched(ps, p.n)
    ensures var r := Step(t, victim, MessageOf(ss, p));
            && r.outcome == OutcomeFor(ss, ps + [p], p.n)
            && (AllHere(ss, ps + [p], p.n) ==> ss[p.n].id !in r.table)
            && (!AllHere(ss, ps + [p], p.n) ==> ss[p.n].id in r.table
                                                && r.table[ss[p.n].id] == EntryOf(ss[p.n].frame, ps + [p], p.n))
            && forall id :: id in r.table ==> id in t || id == ss[p.n].id
  {
    hide Chunk, IsFull, Absorb, AllHere;
    var g, id := ss[p.n].frame, ss[p.n].id;
    if id !in t {
      NothingHere(g, ps, p.n);
    }
    OneMoreHere(g, ps, p);
    FullMeansAll(ss, ps + [p], p.n);
    if IsFull(EntryOf(g, ps + [p], p.n)) {
      FullIsCarried(ss, ps + [p], p.n);
    }
    assert Seat(t, victim, FragmentPart(id, p.index, FragmentCount(g.payload)))[id] == EntryOf(g, ps, p.n);
  }

  /** A message that is no fragment to be filed. */
  lemma OtherArrives(ss: seq<Sending>, ps: seq<Tag>, t: Table, victim: uint16, p: Tag)
    requires InStream(ss, p) && !Accepted(ss[p.n].frame)
    ensures Step(t, victim, MessageOf(ss, p)) == Reply(t, OutcomeFor(ss, ps + [p], p.n))
  {
  }

  // ----- runs -----

  lemma NotYet(ps: seq<Tag>, i: nat)
    requires Ordered(ps) && i < |ps|
    ensures ps[i] !in ps[..i]
    ensures IsFirst(ps, i) ==> !Touched(ps[..i], ps[i].n)
  {
    if IsFirst(ps, i) {
      forall j | 0 <= j < i ensures ps[j].n < ps[i].n {
        assert Before(ps[i - 1], ps[i]);
        assert j < i - 1 ==> Before(ps[j], ps[i - 1]);
      }
      assert forall k: nat :: Tag(ps[i].n, k) !in ps[..i];
    }
  }

  /** The condition of FragmentArrives. */
  lemma RightEntryOrNone(ss: seq<Sending>, ps: seq<Tag>, t: Table, p: Tag)
    requires AllInStream(ss, ps) && InStream(ss, p) && Accepted(ss[p.n].frame)
    requires CurrentOk(ss, ps, t) && p !in ps
    requires FragmentCount(ss[p.n].frame.payload) <= ChunksNeeded(ss[p.n].frame.payload)
    requires ps == [] || ps[|ps| - 1].n != p.n ==> ss[p.n].id !in t && !Touched(ps, p.n)
    ensures if ss[p.n].id in t then t[ss[p.n].id] == EntryOf(ss[p.n].frame, ps, p.n) else !Touched(ps, p.n)
  {
    hide EntryOf;
    if ps != [] && ps[|ps| - 1].n == p.n {
      assert !AllHere(ss, ps, p.n);
    }
  }

  lemma NothingLeftPrefix(t: Table, ss: seq<Sending>, ps: seq<Tag>, victims: seq<uint16>, m: nat)
    requires AllInStream(ss, ps) && |victims| == |ps| && m <= |ps| && NothingLeft(t, ss, ps, victims)
    ensures NothingLeft(t, ss, ps[..m], victims[..m])
  {
    forall i | 0 <= i < m && IsFirst(ps[..m], i) && Accepted(ss[ps[..m][i].n].frame)
      ensures ss[ps[..m][i].n].id !in TableAt(t, ss, ps[..m], victims[..m], i)
    {
      assert ps[..m][..i] == ps[..i] && victims[..m][..i] == victims[..i];
      assert IsFirst(ps, i);
    }
  }

  lemma SurvivorsPrefix(ss: seq<Sending>, ps: seq<Tag>, m: nat)
    requires AllInStream(ss, ps) && m <= |ps|
    ensures Survivors(ss, ps)[..m] == Survivors(ss, ps[..m])
  {
  }

  lemma RunLastOf(t: Table, ss: seq<Sending>, ps: seq<Tag>, victims: seq<uint16>)
    requires AllInStream(ss, ps) && |victims| == |ps| > 0
    ensures var m := |ps| - 1;
            var before := Run(t, Survivors(ss, ps[..m]), victims[..m]);
            var last := Step(before.table, victims[m], MessageOf(ss, ps[m]));
            Run(t, Survivors(ss, ps), victims) == RunResult(last.table, before.outcomes + [last.outcome])
  {
    SurvivorsPrefix(ss, ps, |ps| - 1);
  }

  lemma OutcomesExtendBy(ss: seq<Sending>, ps: seq<Tag>, os: seq<Outcome>, o: Outcome)
    requires AllInStream(ss, ps) && ps != [] && OutcomesOf(ss, ps[..|ps| - 1], os)
    requires o == OutcomeFor(ss, ps, ps[|ps| - 1].n)
    ensures OutcomesOf(ss, ps, os + [o])
  {
    hide OutcomeFor;
    var m := |ps| - 1;
    forall i | 0 <= i < |ps| ensures (os + [o])[i] == OutcomeFor(ss, ps[..i + 1], ps[i].n) {
      if i < m {
        assert ps[..m][i] == ps[i] && ps[..m][..i + 1] == ps[..i + 1];
      } else {
        assert ps[..i + 1] == ps;
      }
    }
  }

  /** The ids in the table are old ones or those of frames cut short. */
  ghost predicate IdsOk(t0: Table, ss: seq<Sending>, ps: seq<Tag>, t: Table) {
    forall id :: id in t ==> id in t0 || exists n :: CutShort(ss, ps, n, id)
  }

  ghost predicate CutShort(ss: seq<Sending>, ps: seq<Tag>, n: nat, id: uint16) {
    n < |ss| && ss[n].id == id && Accepted(ss[n].frame) && Touched(ps, n) && !AllHere(ss, ps, n)
  }

  lemma StillCutShort(ss: seq<Sending>, ps: seq<Tag>, p: Tag, n: nat, id: uint16)
    requires CutShort(ss, ps, n, id) && n != p.n
    ensures CutShort(ss, ps + [p], n, id)
  {
    var k: nat :| Tag(n, k) in ps;
    assert Tag(n, k) in ps + [p];
    var j: nat :| j < MessageCount(ss[n].frame) && Tag(n, j) !in ps;
    assert Tag(n, j) !in ps + [p];
  }

  lemma IdsExtend(t0: Table, ss: seq<Sending>, ps: seq<Tag>, p: Tag, t: Table, t': Table)
    requires InStream(ss, p) && Accepted(ss[p.n].frame) && IdsOk(t0, ss, ps, t)
    requires AllHere(ss, ps + [p], p.n) ==> ss[p.n].id !in t'
    requires forall id :: id in t' ==> id in t || id == ss[p.n].id
    ensures IdsOk(t0, ss, ps + [p], t')
  {
    forall id | id in t' && id !in t0 ensures exists n :: CutShort(ss, ps + [p], n, id) {
      if id == ss[p.n].id {
        assert p in ps + [p] && p == Tag(p.n, p.index);
        assert CutShort(ss, ps + [p], p.n, id);
      } else {
        var n :| CutShort(ss, ps, n, id);
        StillCutShort(ss, ps, p, n, id);
      }
    }
  }

  lemma IdsKept(t0: Table, ss: seq<Sending>, ps: seq<Tag>, p: Tag, t: Table)
    requires InStream(ss, p) && !Accepted(ss[p.n].frame) && IdsOk(t0, ss, ps, t)
    ensures IdsOk(t0, ss, ps + [p], t)
  {
    forall id | id in t && id !in t0 ensures exists n :: CutShort(ss, ps + [p], n, id) {
      var n :| CutShort(ss, ps, n, id);
      StillCutShort(ss, ps, p, n, id);
    }
  }

  /** Messages get through in order, some are lost, ids are used again: as long as nothing is left
      under its id when the first message of a fragmented frame arrives, a frame is delivered if
      and only if all its messages arrive, with the last of them, and as it was sent. */
  lemma {:induction false} LossyRun(t: Table, ss: seq<Sending>, ps: seq<Tag>, victims: seq<uint16>)
    requires AllInStream(ss, ps) && Ordered(ps) && |victims| == |ps| && NothingLeft(t, ss, ps, victims)
    ensures var r := Run(t, Survivors(ss, ps), victims);
            OutcomesOf(ss, ps, r.outcomes) && CurrentOk(ss, ps, r.table) && IdsOk(t, ss, ps, r.table)
  {
    hide Run, Step, OutcomesOf, CurrentOk, IdsOk, OutcomeFor, NothingLeft, MessageOf;
    if ps == [] {
      RunNothing(t);
      NoneYet(t, ss);
    } else {
      var m := |ps| - 1;
      var before := Run(t, Survivors(ss, ps[..m]), victims[..m]);
      NothingLeftPrefix(t, ss, ps, victims, m);
      LossyRun(t, ss, ps[..m], victims[..m]);
      RunLastOf(t, ss, ps, victims);
      assert ps[..m] + [ps[m]] == ps;
      if Accepted(ss[ps[m].n].frame) {
        FiledLast(t, ss, ps, victims, before.table);
      } else {
        OtherLast(t, ss, ps, before.table, victims[m]);
      }
      OutcomesExtendBy(ss, ps, before.outcomes, Step(before.table, victims[m], MessageOf(ss, ps[m])).outcome);
    }
  }

  lemma NoneYet(t: Table, ss: seq<Sending>)
    ensures OutcomesOf(ss, [], []) && CurrentOk(ss, [], t) && IdsOk(t, ss, [], t)
  {
  }

  lemma OtherLast(t0: Table, ss: seq<Sending>, ps: seq<Tag>, t: Table, victim: uint16)
    requires AllInStream(ss, ps) && ps != [] && !Accepted(ss[ps[|ps| - 1].n].frame)
    requires IdsOk(t0, ss, ps[..|ps| - 1], t)
    ensures var r := Step(t, victim, MessageOf(ss, ps[|ps| - 1]));
            && r.outcome == OutcomeFor(ss, ps, ps[|ps| - 1].n)
            && CurrentOk(ss, ps, r.table) && IdsOk(t0, ss, ps, r.table)
  {
    hide Step, IdsOk, OutcomeFor, MessageOf;
    var m := |ps| - 1;
    assert ps[..m] + [ps[m]] == ps;
    OtherArrives(ss, ps[..m], t, victim, ps[m]);
    IdsKept(t0, ss, ps[..m], ps[m], t);
  }

  lemma FirstMeetsNothing(t0: Table, ss: seq<Sending>, ps: seq<Tag>, victims: seq<uint16>)
    requires AllInStream(ss, ps) && Ordered(ps) && |victims| == |ps| > 0 && NothingLeft(t0, ss, ps, victims)
    requires Accepted(ss[ps[|ps| - 1].n].frame)
    ensures var m := |ps| - 1;
            && ps[m] !in ps[..m]
            && (m == 0 || ps[m - 1].n != ps[m].n ==> ss[ps[m].n].id !in TableAt(t0, ss, ps, victims, m)
                                                     && !Touched(ps[..m], ps[m].n))
  {
    hide TableAt;
    NotYet(ps, |ps| - 1);
  }

  lemma CurrentAfter(ss: seq<Sending>, ps: seq<Tag>, t: Table)
    requires AllInStream(ss, ps) && ps != [] && Accepted(ss[ps[|ps| - 1].n].frame)
    requires FragmentCount(ss[ps[|ps| - 1].n].frame.payload) <= ChunksNeeded(ss[ps[|ps| - 1].n].frame.payload)
    requires var n := ps[|ps| - 1].n;
             if AllHere(ss, ps, n) then ss[n].id !in t else ss[n].id in t && t[ss[n].id] == EntryOf(ss[n].frame, ps, n)
    ensures CurrentOk(ss, ps, t)
  {
  }

  lemma FiledLast(t0: Table, ss: seq<Sending>, ps: seq<Tag>, victims: seq<uint16>, t: Table)
    requires AllInStream(ss, ps) && Ordered(ps) && |victims| == |ps| > 0 && NothingLeft(t0, ss, ps, victims)
    requires Accepted(ss[ps[|ps| - 1].n].frame)
    requires t == TableAt(t0, ss, ps, victims, |ps| - 1)
    requires CurrentOk(ss, ps[..|ps| - 1], t) && IdsOk(t0, ss, ps[..|ps| - 1], t)
    ensures var r := Step(t, victims[|ps| - 1], MessageOf(ss, ps[|ps| - 1]));
            && r.outcome == OutcomeFor(ss, ps, ps[|ps| - 1].n)
            && CurrentOk(ss, ps, r.table) && IdsOk(t0, ss, ps, r.table)
  {
    hide Run, Step, IdsOk, OutcomeFor, MessageOf, EntryOf, AllHere, Touched, TableAt, CurrentOk, NothingLeft, Ordered;
    var m := |ps| - 1;
    var p := ps[m];
    assert ps[..m] + [p] == ps;
    CountBound(ss[p.n].frame.payload);
    FirstMeetsNothing(t0, ss, ps, victims);
    RightEntryOrNone(ss, ps[..m], t, p);
    FragmentArrives(ss, ps[..m], t, victims[m], p);
    IdsExtend(t0, ss, ps[..m], p, t, Step(t, victims[m], MessageOf(ss, p)).table);
    CurrentAfter(ss, ps, Step(t, victims[m], MessageOf(ss, p)).table);
  }

  // ----- rests that agree -----

  /** When the first message of a fragmented frame arrives, what is left under its id, if anything,
      is only what this frame could have left itself. */
  ghost predicate RestsAgree(t: Table, ss: seq<Sending>, ps: seq<Tag>, victims: seq<uint16>)
    requires AllInStream(ss, ps) && |victims| == |ps|
  {
    forall i :: 0 <= i < |ps| && IsFirst(ps, i) && Accepted(ss[ps[i].n].frame) ==>
                  OwnRest(TableAt(t, ss, ps, victims, i), ss[ps[i].n])
  }

  ghost predicate OwnRest(t: Table, s: Sending) {
    s.id in t ==> CleanEntry(s.frame, t[s.id])
  }

  ghost predicate AllFaithfulTo(ss: seq<Sending>, ps: seq<Tag>, os: seq<Outcome>) {
    && AllInStream(ss, ps) && |os| == |ps|
    && forall i :: 0 <= i < |ps| ==> Faithful(ss[ps[i].n].frame, os[i])
  }

  lemma OwnFragment(ss: seq<Sending>, t: Table, victim: uint16, p: Tag)
    requires InStream(ss, p) && Accepted(ss[p.n].frame) && OwnRest(t, ss[p.n])
    ensures var r := Step(t, victim, MessageOf(ss, p));
            Faithful(ss[p.n].frame, r.outcome) && OwnRest(r.table, ss[p.n])
  {
    hide Chunk;
    var g, id := ss[p.n].frame, ss[p.n].id;
    CountBound(g.payload);
    var v := FragmentView(g, id, p.index);
    var seated := Seat(t, victim, v.part);
    assert CleanEntry(g, seated[id]);
    CleanAbsorb(g, seated[id], p.index);
    var entry := Absorb(seated[id], p.index, v.meta, v.payload);
    if IsFull(entry) {
      JoinClean(g, entry, entry.total);
    }
  }

  lemma OtherIsFaithful(ss: seq<Sending>, t: Table, victim: uint16, p: Tag)
    requires InStream(ss, p) && !Accepted(ss[p.n].frame)
    ensures Faithful(ss[p.n].frame, Step(t, victim, MessageOf(ss, p)).outcome)
  {
  }

  lemma RestsAgreePrefix(t: Table, ss: seq<Sending>, ps: seq<Tag>, victims: seq<uint16>, m: nat)
    requires AllInStream(ss, ps) && |victims| == |ps| && m <= |ps| && RestsAgree(t, ss, ps, victims)
    ensures RestsAgree(t, ss, ps[..m], victims[..m])
  {
    hide OwnRest, Run;
    forall i | 0 <= i < m && IsFirst(ps[..m], i) && Accepted(ss[ps[..m][i].n].frame)
      ensures OwnRest(TableAt(t, ss, ps[..m], victims[..m], i), ss[ps[..m][i].n])
    {
      assert ps[..m][..i] == ps[..i] && victims[..m][..i] == victims[..i];
      assert IsFirst(ps, i);
    }
  }

  lemma FaithfulToExtends(ss: seq<Sending>, ps: seq<Tag>, os: seq<Outcome>, o: Outcome)
    requires AllInStream(ss, ps) && ps != [] && AllFaithfulTo(ss, ps[..|ps| - 1], os)
    requires Faithful(ss[ps[|ps| - 1].n].frame, o)
    ensures AllFaithfulTo(ss, ps, os + [o])
  {
    hide Faithful;
    forall i | 0 <= i < |ps| ensures Faithful(ss[ps[i].n].frame, (os + [o])[i]) {
      if i < |ps| - 1 {
        assert ps[..|ps| - 1][i] == ps[i];
      }
    }
  }

  lemma LastOwnRest(t: Table, ss: seq<Sending>, ps: seq<Tag>, victims: seq<uint16>)
    requires AllInStream(ss, ps) && |victims| == |ps| > 0 && RestsAgree(t, ss, ps, victims)
    requires Accepted(ss[ps[|ps| - 1].n].frame) && IsFirst(ps, |ps| - 1)
    ensures OwnRest(Run(t, Survivors(ss, ps[..|ps| - 1]), victims[..|ps| - 1]).table, ss[ps[|ps| - 1].n])
  {
    hide OwnRest, Run;
  }

  /** Losses, repeating ids and rests at once: as long as every frame meets only rests that it could
      have left itself, whatever is delivered is the frame whose message completes it. */
  lemma {:induction false} LossySafely(t: Table, ss: seq<Sending>, ps: seq<Tag>, victims: seq<uint16>)
    requires AllInStream(ss, ps) && |victims| == |ps| && RestsAgree(t, ss, ps, victims)
    ensures var r := Run(t, Survivors(ss, ps), victims);
            && AllFaithfulTo(ss, ps, r.outcomes)
            && (ps != [] && Accepted(ss[ps[|ps| - 1].n].frame) ==> OwnRest(r.table, ss[ps[|ps| - 1].n]))
  {
    hide Run, Step, RestsAgree, OwnRest, Faithful, MessageOf, Accepted;
    if ps == [] {
      RunNothing(t);
    } else {
      var m := |ps| - 1;
      var before := Run(t, Survivors(ss, ps[..m]), victims[..m]);
      RestsAgreePrefix(t, ss, ps, victims, m);
      LossySafely(t, ss, ps[..m], victims[..m]);
      RunLastOf(t, ss, ps, victims);
      if Accepted(ss[ps[m].n].frame) {
        if IsFirst(ps, m) {
          LastOwnRest(t, ss, ps, victims);
        }
        OwnFragment(ss, before.table, victims[m], ps[m]);
      } else {
        OtherIsFaithful(ss, before.table, victims[m], ps[m]);
      }
      FaithfulToExtends(ss, ps, before.outcomes, Step(before.table, victims[m], MessageOf(ss, ps[m])).outcome);
    }
  }

  // ----- told from what arrives, without looking at the table -----

  /** Two fragmented frames under one id of both of which something arrives. */
  ghost predicate Reuses(ss: seq<Sending>, ps: seq<Tag>, n: nat, m: nat)
    requires n < |ss| && m < |ss|
  {
    && ss[n].id == ss[m].id
    && Accepted(ss[n].frame) && Accepted(ss[m].frame)
    && Touched(ps, n) && Touched(ps, m)
  }

  /** Before a fragmented frame under the same id begins to arrive, the earlier one has arrived
      completely. */
  ghost predicate NoReuseAfterLoss(ss: seq<Sending>, ps: seq<Tag>) {
    forall n, m :: 0 <= n < m < |ss| && Reuses(ss, ps, n, m) ==> AllHere(ss, ps, n)
  }

  lemma EarlierIsBehind(ps: seq<Tag>, i: nat, n: nat, k: nat)
    requires Ordered(ps) && i < |ps| && n < ps[i].n && Tag(n, k) in ps
    ensures Tag(n, k) in ps[..i]
  {
    var j :| 0 <= j < |ps| && ps[j] == Tag(n, k);
    assert j < i;
    assert ps[..i][j] == ps[j];
  }

  lemma TouchedBefore(ps: seq<Tag>, i: nat, n: nat)
    requires Ordered(ps) && i < |ps| && Touched(ps[..i], n)
    ensures n <= ps[i].n && Touched(ps, n)
  {
    var k: nat :| Tag(n, k) in ps[..i];
    var j :| 0 <= j < i && ps[j] == Tag(n, k);
    assert Before(ps[j], ps[i]);
    assert ps[j] in ps;
  }

  /** Where no id is used again after a loss, nothing is left under the id of a new frame. */
  lemma {:induction false} NothingLeftUpTo(ss: seq<Sending>, ps: seq<Tag>, victims: seq<uint16>, m: nat)
    requires AllInStream(ss, ps) && Ordered(ps) && |victims| == |ps| && m <= |ps|
    requires NoReuseAfterLoss(ss, ps)
    ensures NothingLeft(map[], ss, ps[..m], victims[..m])
  {
    if m == 0 {
    } else {
      var i := m - 1;
      NothingLeftUpTo(ss, ps, victims, i);
      LossyRun(map[], ss, ps[..i], victims[..i]);
      if IsFirst(ps, i) && Accepted(ss[ps[i].n].frame) {
        FirstIsFresh(ss, ps, i, Run(map[], Survivors(ss, ps[..i]), victims[..i]).table);
      }
      NothingLeftExtends(ss, ps, victims, i);
    }
  }

  lemma CompleteIsNotCutShort(ss: seq<Sending>, ps: seq<Tag>, i: nat, n: nat, id: uint16)
    requires Ordered(ps) && i < |ps| && n < |ss| && n < ps[i].n && AllHere(ss, ps, n)
    ensures !CutShort(ss, ps[..i], n, id)
  {
    hide MessageCount, Accepted;
    forall k: nat | k < MessageCount(ss[n].frame) ensures Tag(n, k) in ps[..i] {
      EarlierIsBehind(ps, i, n, k);
    }
  }

  lemma CutShortIsEarlier(ss: seq<Sending>, ps: seq<Tag>, i: nat, n: nat)
    requires AllInStream(ss, ps) && Ordered(ps) && NoReuseAfterLoss(ss, ps)
    requires i < |ps| && IsFirst(ps, i) && Accepted(ss[ps[i].n].frame)
    requires CutShort(ss, ps[..i], n, ss[ps[i].n].id)
    ensures n < ps[i].n && AllHere(ss, ps, n)
  {
    hide MessageCount, Accepted, AllHere;
    NotYet(ps, i);
    TouchedBefore(ps, i, n);
    assert ps[i] in ps && ps[i] == Tag(ps[i].n, ps[i].index);
    assert Reuses(ss, ps, n, ps[i].n);
  }

  lemma FirstIsFresh(ss: seq<Sending>, ps: seq<Tag>, i: nat, t: Table)
    requires AllInStream(ss, ps) && Ordered(ps) && NoReuseAfterLoss(ss, ps)
    requires i < |ps| && IsFirst(ps, i) && Accepted(ss[ps[i].n].frame)
    requires IdsOk(map[], ss, ps[..i], t)
    ensures ss[ps[i].n].id !in t
  {
    hide CutShort, NoReuseAfterLoss, Ordered, Accepted, IsFirst;
    if ss[ps[i].n].id in t {
      var n :| CutShort(ss, ps[..i], n, ss[ps[i].n].id);
      CutShortIsEarlier(ss, ps, i, n);
      CompleteIsNotCutShort(ss, ps, i, n, ss[ps[i].n].id);
    }
  }

  lemma NothingLeftExtends(ss: seq<Sending>, ps: seq<Tag>, victims: seq<uint16>, m: nat)
    requires AllInStream(ss, ps) && |victims| == |ps| && m < |ps|
    requires NothingLeft(map[], ss, ps[..m], victims[..m])
    requires IsFirst(ps, m) && Accepted(ss[ps[m].n].frame)
             ==> ss[ps[m].n].id !in Run(map[], Survivors(ss, ps[..m]), victims[..m]).table
    ensures NothingLeft(map[], ss, ps[..m + 1], victims[..m + 1])
  {
    hide Run, Survivors;
    var qs, vs := ps[..m + 1], victims[..m + 1];
    forall i | 0 <= i < |qs| && IsFirst(qs, i) && Accepted(ss[qs[i].n].frame)
      ensures ss[qs[i].n].id !in TableAt(map[], ss, qs, vs, i)
    {
      assert qs[..i] == ps[..i] && vs[..i] == victims[..i];
      if i < m {
        assert ps[..m][..i] == ps[..i] && victims[..m][..i] == victims[..i];
        assert IsFirst(ps[..m], i);
      }
    }
  }

  function SurvivorDatagrams(ss: seq<Sending>, ps: seq<Tag>): (ds: seq<Datagram>)
    requires AllInStream(ss, ps)
    ensures |ds| == |ps|
  {
    seq(|ps|, i requires 0 <= i < |ps| =>
      DatagramOf(map[ss[ps[i].n].id := ss[ps[i].n].frame], Packet(ss[ps[i].n].id, ps[i].index)))
  }

  lemma SurvivorsAreDecoded(ss: seq<Sending>, ps: seq<Tag>)
    requires AllInStream(ss, ps)
    ensures DecodeAll(SurvivorDatagrams(ss, ps)) == Survivors(ss, ps)
  {
    hide Decode, FragmentMessage, WholeMessage;
    forall i | 0 <= i < |ps| ensures Decode(SurvivorDatagrams(ss, ps)[i]) == Survivors(ss, ps)[i] {
      WireReadBack(ss[ps[i].n].frame, ss[ps[i].n].id, ps[i].index);
    }
  }

  /** On the bytes of the wire, from a fresh parser: a stream whose ids repeat, received in order
      with losses. If no id is used again after a loss, every outcome is the one that the arrivals
      call for: frames that arrive completely are delivered, all others are not. */
  lemma {:induction false} OrderedLossyStream(ss: seq<Sending>, ps: seq<Tag>, victims: seq<uint16>)
    requires AllInStream(ss, ps) && Ordered(ps) && |victims| == |ps| && NoReuseAfterLoss(ss, ps)
    ensures OutcomesOf(ss, ps, Run(map[], DecodeAll(SurvivorDatagrams(ss, ps)), victims).outcomes)
  {
    hide Run, DecodeAll, OutcomesOf, NothingLeft;
    NothingLeftUpTo(ss, ps, victims, |ps|);
    assert ps[..|ps|] == ps && victims[..|ps|] == victims;
    SurvivorsAreDecoded(ss, ps);
    LossyRun(map[], ss, ps, victims);
  }

  /** What is delivered is what was sent, but for frames whose fragment count does not fit. */
  lemma OutcomeIsFaithful(ss: seq<Sending>, ps: seq<Tag>, n: nat)
    requires n < |ss| && |ss[n].frame.payload| <= 65535 * FRAGMENT_THRESHOLD
    ensures var o := OutcomeFor(ss, ps, n); o.Complete? ==> o.frame == Expected(ss[n].frame)
  {
    CarriedIsExpected(ss[n].frame);
  }

  /** The server has one counter for all connections, so a connection sees ids with gaps: frame i
      is the at[i]-th that the server sends. No id comes twice within 65536 frames; so losses do no
      harm as long as nothing arrives 65536 frames or more after a frame that was cut short. */
  lemma CounterIsSafe(ss: seq<Sending>, ps: seq<Tag>, at: seq<nat>)
    requires |at| == |ss| && forall i, j :: 0 <= i < j < |at| ==> at[i] < at[j]
    requires forall i :: 0 <= i < |ss| ==> ss[i].id == at[i] % 0x1_0000
    requires forall n, m :: 0 <= n < m < |ss| && Touched(ps, n) && !AllHere(ss, ps, n) && Touched(ps, m)
                            ==> at[m] - at[n] < 0x1_0000
    ensures NoReuseAfterLoss(ss, ps)
  {
    hide AllHere, Touched;
    forall n, m | 0 <= n < m < |ss| && Reuses(ss, ps, n, m) ensures AllHere(ss, ps, n) {
      if !AllHere(ss, ps, n) {
        ApartIsDifferent(at[n], at[m]);
      }
    }
  }

  /** Until it wraps, losses do no harm whatever arrives. */
  lemma BeforeTheCounterWraps(ss: seq<Sending>, ps: seq<Tag>, at: seq<nat>)
    requires |at| == |ss| && forall i, j :: 0 <= i < j < |at| ==> at[i] < at[j]
    requires forall i :: 0 <= i < |ss| ==> ss[i].id == at[i] % 0x1_0000
    requires forall i :: 0 <= i < |ss| ==> at[i] - at[0] < 0x1_0000
    ensures NoReuseAfterLoss(ss, ps)
  {
    hide AllHere, Touched, NoReuseAfterLoss;
    forall n, m | 0 <= n < m < |ss| && Touched(ps, n) && !AllHere(ss, ps, n) && Touched(ps, m)
      ensures at[m] - at[n] < 0x1_0000
    {
      assert n > 0 ==> at[0] < at[n];
    }
    CounterIsSafe(ss, ps, at);
  }

  lemma ApartIsDifferent(a: nat, b: nat)
    requires a < b < a + 0x1_0000
    ensures a % 0x1_0000 != b % 0x1_0000
  {
  }
}
