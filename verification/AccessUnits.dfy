/** Grouping NAL units into access units. */
module AccessUnits {
  import opened Bytes
  import AnnexB

  /** GetNalType: the type behind a start code, 0xFF if there is none. */
  function NalType(nal: bytes, isH265: bool): byte {
    var offset := if |nal| >= 4 && nal[0] == 0 && nal[1] == 0
                  then (if nal[2] == 0 && nal[3] == 1 then 4 else if nal[2] == 1 then 3 else 0)
                  else 0;
    if offset == 0 || offset >= |nal| then 0xFF
    else if isH265 then nal[offset] / 2 % 64
    else nal[offset] % 32
  }

  /** An access unit delimiter. */
  predicate IsAud(nal: bytes, isH265: bool) {
    NalType(nal, isH265) == if isH265 then 35 else 9
  }

  /** A slice. */
  predicate IsVcl(nal: bytes, isH265: bool) {
    var t := NalType(nal, isH265);
    if isH265 then t <= 31 else t == 1 || t == 5
  }

  type Group = seq<bytes>

  predicate HasVcl(g: Group, isH265: bool) {
    exists i :: 0 <= i < |g| && IsVcl(g[i], isH265)
  }

  // ----- what a grouping must satisfy -----

  predicate GroupOk(g: Group, isH265: bool) {
    && g != []
    && (forall i :: 0 < i < |g| ==> !IsAud(g[i], isH265))
    && (forall i, j :: 0 <= i < j < |g| ==> !(IsVcl(g[i], isH265) && IsVcl(g[j], isH265)))
  }

  function Concat<T>(gs: seq<seq<T>>): seq<T> {
    if gs == [] then [] else Concat(gs[..|gs| - 1]) + gs[|gs| - 1]
  }

  /** A partition of the NAL list into groups that each hold at most one slice and a delimiter
      only in front. */
  predicate Grouping(gs: seq<Group>, nals: seq<bytes>, isH265: bool) {
    Concat(gs) == nals && forall i :: 0 <= i < |gs| ==> GroupOk(gs[i], isH265)
  }

  // ----- the accumulation -----

  datatype Progress = Progress(closed: seq<Group>, current: Group)

  predicate StartsNew(current: Group, nal: bytes, isH265: bool) {
    IsAud(nal, isH265) || (IsVcl(nal, isH265) && HasVcl(current, isH265))
  }

  /** After the first n NAL units. */
  function Accumulate(nals: seq<bytes>, n: nat, isH265: bool): Progress
    requires n <= |nals|
  {
    if n == 0 then Progress([], [])
    else
      var p := Accumulate(nals, n - 1, isH265);
      var nal := nals[n - 1];
      if StartsNew(p.current, nal, isH265) && p.current != []
      then Progress(p.closed + [p.current], [nal])
      else Progress(p.closed, p.current + [nal])
  }

  function AllGroups(p: Progress): seq<Group> {
    if p.current == [] then p.closed else p.closed + [p.current]
  }

  lemma ConcatAppend(gs: seq<Group>, g: Group)
    ensures Concat(gs + [g]) == Concat(gs) + g
  {
    assert (gs + [g])[..|gs|] == gs;
  }

  lemma GroupingAppend(gs: seq<Group>, g: Group, nals: seq<bytes>, isH265: bool)
    requires Grouping(gs, nals, isH265) && GroupOk(g, isH265)
    ensures Grouping(gs + [g], nals + g, isH265)
  {
    hide GroupOk;
    ConcatAppend(gs, g);
  }

  lemma Assoc(a: Group, b: Group, nal: bytes)
    ensures a + (b + [nal]) == a + b + [nal]
  {
  }

  lemma GroupingExtend(gs: seq<Group>, g: Group, nal: bytes, nals: seq<bytes>, isH265: bool)
    requires Grouping(gs + [g], nals, isH265) && GroupOk(g + [nal], isH265)
    ensures Grouping(gs + [g + [nal]], nals + [nal], isH265)
  {
    hide GroupOk, Concat;
    ConcatAppend(gs, g);
    ConcatAppend(gs, g + [nal]);
    Assoc(Concat(gs), g, nal);
    forall i | 0 <= i < |gs| ensures GroupOk(gs[i], isH265) {
      assert gs[i] == (gs + [g])[i];
    }
  }

  lemma {:induction false} AccumulateIsGrouping(nals: seq<bytes>, n: nat, isH265: bool)
    requires n <= |nals|
    ensures var p := Accumulate(nals, n, isH265);
            Grouping(AllGroups(p), nals[..n], isH265) && (n > 0 ==> p.current != [])
  {
    hide Grouping, GroupOk, StartsNew;
    if n == 0 {
      EmptyGrouping(isH265);
    } else {
      AccumulateIsGrouping(nals, n - 1, isH265);
      var p, nal := Accumulate(nals, n - 1, isH265), nals[n - 1];
      assert nals[..n] == nals[..n - 1] + [nal];
      SingleOk(nal, isH265);
      if p.current == [] {
        assert p.current + [nal] == [nal];
        GroupingAppend(p.closed, [nal], nals[..n - 1], isH265);
      } else if StartsNew(p.current, nal, isH265) {
        GroupingAppend(p.closed + [p.current], [nal], nals[..n - 1], isH265);
      } else {
        LastGroupOk(p.closed, p.current, nals[..n - 1], isH265);
        GroupGrows(p.current, nal, isH265);
        GroupingExtend(p.closed, p.current, nal, nals[..n - 1], isH265);
      }
    }
  }

  lemma EmptyGrouping(isH265: bool)
    ensures Grouping([], [], isH265)
  {
  }

  lemma SingleOk(nal: bytes, isH265: bool)
    ensures GroupOk([nal], isH265)
  {
  }

  lemma LastGroupOk(gs: seq<Group>, g: Group, nals: seq<bytes>, isH265: bool)
    requires Grouping(gs + [g], nals, isH265)
    ensures GroupOk(g, isH265)
  {
    assert (gs + [g])[|gs|] == g;
  }

  lemma GroupGrows(g: Group, nal: bytes, isH265: bool)
    requires GroupOk(g, isH265) && !StartsNew(g, nal, isH265)
    ensures GroupOk(g + [nal], isH265)
  {
  }

  // ----- no grouping has fewer groups -----

  /** A grouping of a nonempty list without its last NAL unit. */
  function WithoutLast(gs: seq<Group>): seq<Group>
    requires gs != [] && gs[|gs| - 1] != []
  {
    var k, g := |gs| - 1, gs[|gs| - 1];
    if |g| == 1 then gs[..k] else gs[..k] + [g[..|g| - 1]]
  }

  lemma WithoutLastIsGrouping(gs: seq<Group>, nals: seq<bytes>, isH265: bool)
    requires Grouping(gs, nals, isH265) && nals != []
    ensures gs != [] && gs[|gs| - 1] != [] && gs[|gs| - 1][|gs[|gs| - 1]| - 1] == nals[|nals| - 1]
    ensures GroupOk(gs[|gs| - 1], isH265)
    ensures Grouping(WithoutLast(gs), nals[..|nals| - 1], isH265)
  {
    hide IsAud, IsVcl;
    var k := |gs| - 1;
    var g := gs[k];
    assert GroupOk(g, isH265);
    var shorter := g[..|g| - 1];
    assert g == shorter + [g[|g| - 1]];
    assert Concat(gs) == Concat(gs[..k]) + shorter + [g[|g| - 1]];
    ConcatAppend(gs[..k], shorter);
    if |g| > 1 {
      assert GroupOk(shorter, isH265);
    }
  }

  /** Fewer groups than gs, or as many and then no slice yet where gs has none. */
  ghost predicate NotBehind(p: Progress, gs: seq<Group>, isH265: bool) {
    || |AllGroups(p)| < |gs|
    || (|AllGroups(p)| == |gs| && (HasVcl(p.current, isH265) ==> gs != [] && HasVcl(gs[|gs| - 1], isH265)))
  }

  lemma NothingBehind(gs: seq<Group>, isH265: bool)
    ensures NotBehind(Progress([], []), gs, isH265)
  {
  }

  lemma {:induction false} NeverBehind(nals: seq<bytes>, n: nat, gs: seq<Group>, isH265: bool)
    requires n <= |nals| && Grouping(gs, nals[..n], isH265)
    ensures NotBehind(Accumulate(nals, n, isH265), gs, isH265)
  {
    hide Grouping, GroupOk, NotBehind, WithoutLast, StartsNew;
    if n == 0 {
      NothingBehind(gs, isH265);
    } else {
      WithoutLastIsGrouping(gs, nals[..n], isH265);
      assert nals[..n][..n - 1] == nals[..n - 1];
      NeverBehind(nals, n - 1, WithoutLast(gs), isH265);
      AccumulateIsGrouping(nals, n - 1, isH265);
      OneMore(Accumulate(nals, n - 1, isH265), gs, nals[n - 1], isH265);
    }
  }

  lemma OneMore(p: Progress, gs: seq<Group>, nal: bytes, isH265: bool)
    requires gs != [] && GroupOk(gs[|gs| - 1], isH265) && gs[|gs| - 1][|gs[|gs| - 1]| - 1] == nal
    requires NotBehind(p, WithoutLast(gs), isH265)
    requires p.current == [] ==> p.closed == []
    ensures var p' := if StartsNew(p.current, nal, isH265) && p.current != []
                      then Progress(p.closed + [p.current], [nal])
                      else Progress(p.closed, p.current + [nal]);
            NotBehind(p', gs, isH265)
  {
    hide NalType, IsAud, IsVcl;
    var g := gs[|gs| - 1];
    assert [nal][0] == nal;
    assert (p.current + [nal])[|p.current|] == nal;
    VclAppend(p.current, nal, isH265);
    VclAppend(g[..|g| - 1], nal, isH265);
    assert g == g[..|g| - 1] + [nal];
    if |g| > 1 {
      assert WithoutLast(gs)[|gs| - 1] == g[..|g| - 1];
      AtMostOneVcl(g, isH265);
    }
  }

  lemma VclAppend(g: Group, nal: bytes, isH265: bool)
    ensures HasVcl(g + [nal], isH265) <==> HasVcl(g, isH265) || IsVcl(nal, isH265)
  {
    if HasVcl(g, isH265) {
      var i :| 0 <= i < |g| && IsVcl(g[i], isH265);
      assert (g + [nal])[i] == g[i];
    }
    assert (g + [nal])[|g|] == nal;
  }

  lemma AtMostOneVcl(g: Group, isH265: bool)
    requires GroupOk(g, isH265)
    ensures !(HasVcl(g[..|g| - 1], isH265) && IsVcl(g[|g| - 1], isH265))
    ensures |g| > 1 ==> !IsAud(g[|g| - 1], isH265)
  {
  }

  /** The access units are a grouping of the NAL units, and no grouping has fewer groups. */
  lemma FewestAccessUnits(nals: seq<bytes>, isH265: bool)
    ensures var aus := AllGroups(Accumulate(nals, |nals|, isH265));
            && Grouping(aus, nals, isH265)
            && forall gs :: Grouping(gs, nals, isH265) ==> |aus| <= |gs|
  {
    assert nals[..|nals|] == nals;
    AccumulateIsGrouping(nals, |nals|, isH265);
    forall gs | Grouping(gs, nals, isH265) ensures |AllGroups(Accumulate(nals, |nals|, isH265))| <= |gs| {
      NeverBehind(nals, |nals|, gs, isH265);
    }
  }

  /** Every group after the first is there because it must be. */
  ghost predicate CutLate(gs: seq<Group>, isH265: bool) {
    forall i :: 0 < i < |gs| ==> gs[i] != [] && StartsNew(gs[i - 1], gs[i][0], isH265)
  }

  lemma LateAppend(gs: seq<Group>, g: Group, isH265: bool)
    requires CutLate(gs, isH265) && g != [] && (gs != [] ==> StartsNew(gs[|gs| - 1], g[0], isH265))
    ensures CutLate(gs + [g], isH265)
  {
    hide StartsNew;
  }

  lemma LateGrows(gs: seq<Group>, g: Group, nal: bytes, isH265: bool)
    requires CutLate(gs + [g], isH265) && g != []
    ensures CutLate(gs + [g + [nal]], isH265)
  {
    hide StartsNew;
    var before, after := gs + [g], gs + [g + [nal]];
    forall i | 0 < i < |after| ensures after[i] != [] && StartsNew(after[i - 1], after[i][0], isH265) {
      assert before[i] != [] && StartsNew(before[i - 1], before[i][0], isH265);
      assert after[i][0] == before[i][0] && after[i - 1] == before[i - 1];
    }
  }

  lemma {:induction false} AccumulateCutsLate(nals: seq<bytes>, n: nat, isH265: bool)
    requires n <= |nals|
    ensures CutLate(AllGroups(Accumulate(nals, n, isH265)), isH265)
  {
    hide StartsNew, CutLate, Grouping;
    if n == 0 {
      NothingLate(isH265);
    } else {
      AccumulateCutsLate(nals, n - 1, isH265);
      var p, nal := Accumulate(nals, n - 1, isH265), nals[n - 1];
      AccumulateIsGrouping(nals, n - 1, isH265);
      if p.current == [] {
        assert p.closed == [] && p.current + [nal] == [nal];
        LateAppend(p.closed, [nal], isH265);
      } else if StartsNew(p.current, nal, isH265) {
        LateAppend(p.closed + [p.current], [nal], isH265);
      } else {
        LateGrows(p.closed, p.current, nal, isH265);
      }
    }
  }

  lemma NothingLate(isH265: bool)
    ensures CutLate([], isH265)
  {
  }

  // ----- told from the bytes of a printed stream -----

  /** A slice, by the first byte behind the start code: types 1 and 5, of H.265 all up to 31. */
  predicate SliceByte(h: byte, isH265: bool) {
    if isH265 then h / 2 % 64 <= 31 else h % 32 in {1, 5}
  }

  /** An access unit delimiter: type 9, of H.265 type 35. */
  predicate DelimiterByte(h: byte, isH265: bool) {
    if isH265 then h / 2 % 64 == 35 else h % 32 == 9
  }

  /** Whichever start code stands in front. */
  lemma KindOnBytes(u: AnnexB.Unit, isH265: bool)
    requires u.body != []
    ensures IsVcl(AnnexB.PrintUnit(u), isH265) <==> SliceByte(u.body[0], isH265)
    ensures IsAud(AnnexB.PrintUnit(u), isH265) <==> DelimiterByte(u.body[0], isH265)
  {
    var nal := AnnexB.PrintUnit(u);
    assert nal[if u.long then 4 else 3] == u.body[0];
  }

  /** The printed units of a group. */
  function PrintGroup(g: seq<AnnexB.Unit>): (nals: Group)
    ensures |nals| == |g|
  {
    seq(|g|, i requires 0 <= i < |g| => AnnexB.PrintUnit(g[i]))
  }

  predicate UnitGroupOk(g: seq<AnnexB.Unit>, isH265: bool) {
    && g != [] && (forall i :: 0 <= i < |g| ==> g[i].body != [])
    && (forall i :: 0 < i < |g| ==> !DelimiterByte(g[i].body[0], isH265))
    && (forall i, j :: 0 <= i < j < |g| ==> !(SliceByte(g[i].body[0], isH265) && SliceByte(g[j].body[0], isH265)))
  }

  /** The units are cut into groups that each hold at most one slice and a delimiter only in front. */
  predicate UnitGrouping(gs: seq<seq<AnnexB.Unit>>, us: seq<AnnexB.Unit>, isH265: bool) {
    Concat(gs) == us && forall i :: 0 <= i < |gs| ==> UnitGroupOk(gs[i], isH265)
  }

  function PrintGroups(gs: seq<seq<AnnexB.Unit>>): (ps: seq<Group>)
    ensures |ps| == |gs|
  {
    seq(|gs|, i requires 0 <= i < |gs| => PrintGroup(gs[i]))
  }

  lemma GroupOnBytes(g: seq<AnnexB.Unit>, isH265: bool)
    requires forall i :: 0 <= i < |g| ==> g[i].body != []
    ensures GroupOk(PrintGroup(g), isH265) <==> UnitGroupOk(g, isH265)
  {
    hide IsVcl, IsAud, SliceByte, DelimiterByte, AnnexB.PrintUnit;
    forall i | 0 <= i < |g|
      ensures IsVcl(PrintGroup(g)[i], isH265) <==> SliceByte(g[i].body[0], isH265)
      ensures IsAud(PrintGroup(g)[i], isH265) <==> DelimiterByte(g[i].body[0], isH265)
    {
      KindOnBytes(g[i], isH265);
    }
  }

  lemma {:induction false} ConcatPrinted(gs: seq<seq<AnnexB.Unit>>)
    ensures Concat(PrintGroups(gs)) == PrintGroup(Concat(gs))
  {
    hide AnnexB.PrintUnit;
    if gs == [] {
    } else {
      ConcatPrinted(gs[..|gs| - 1]);
      assert PrintGroups(gs)[..|gs| - 1] == PrintGroups(gs[..|gs| - 1]);
      PrintAppend(Concat(gs[..|gs| - 1]), gs[|gs| - 1]);
    }
  }

  lemma PrintAppend(a: seq<AnnexB.Unit>, b: seq<AnnexB.Unit>)
    ensures PrintGroup(a + b) == PrintGroup(a) + PrintGroup(b)
  {
    hide AnnexB.PrintUnit;
  }

  /** Groups of printed units are printed groups of units. */
  function UnitGroups(gs: seq<Group>, us: seq<AnnexB.Unit>): (ugs: seq<seq<AnnexB.Unit>>)
    requires |Concat(gs)| == |us|
    ensures |ugs| == |gs| && Concat(ugs) == us
  {
    if gs == [] then []
    else
      var k := |us| - |gs[|gs| - 1]|;
      var before := UnitGroups(gs[..|gs| - 1], us[..k]);
      assert (before + [us[k..]])[..|before|] == before;
      before + [us[k..]]
  }

  lemma {:induction false} GroupsArePrinted(gs: seq<Group>, us: seq<AnnexB.Unit>)
    requires Concat(gs) == PrintGroup(us)
    ensures PrintGroups(UnitGroups(gs, us)) == gs
  {
    hide AnnexB.PrintUnit;
    if gs == [] {
    } else {
      var k := |us| - |gs[|gs| - 1]|;
      PrintAppend(us[..k], us[k..]);
      assert us[..k] + us[k..] == us;
      SplitAt(Concat(gs[..|gs| - 1]), gs[|gs| - 1], PrintGroup(us[..k]), PrintGroup(us[k..]));
      GroupsArePrinted(gs[..|gs| - 1], us[..k]);
      assert gs[..|gs| - 1] + [gs[|gs| - 1]] == gs;
    }
  }

  lemma SplitAt(a: Group, b: Group, c: Group, d: Group)
    requires a + b == c + d && |b| == |d|
    ensures a == c && b == d
  {
    assert a == (a + b)[..|a|] && c == (c + d)[..|c|];
    assert b == (a + b)[|a|..] && d == (c + d)[|c|..];
  }

  lemma {:induction false} PrintedIsGroup(us: seq<AnnexB.Unit>, n: nat)
    requires n <= |us|
    ensures AnnexB.Printed(us, n) == PrintGroup(us[..n])
  {
    hide AnnexB.PrintUnit;
    if n == 0 {
    } else {
      PrintedIsGroup(us, n - 1);
    }
  }

  predicate HasSlice(g: seq<AnnexB.Unit>, isH265: bool) {
    exists i :: 0 <= i < |g| && g[i].body != [] && SliceByte(g[i].body[0], isH265)
  }

  /** A group begins only with a delimiter, or with a slice when the group before has one. */
  predicate UnitsCutLate(gs: seq<seq<AnnexB.Unit>>, isH265: bool) {
    forall i :: 0 < i < |gs| ==>
                  && gs[i] != [] && gs[i][0].body != []
                  && (|| DelimiterByte(gs[i][0].body[0], isH265)
                      || (SliceByte(gs[i][0].body[0], isH265) && HasSlice(gs[i - 1], isH265)))
  }

  lemma StartsOnBytes(g: seq<AnnexB.Unit>, u: AnnexB.Unit, isH265: bool)
    requires u.body != [] && forall i :: 0 <= i < |g| ==> g[i].body != []
    ensures StartsNew(PrintGroup(g), AnnexB.PrintUnit(u), isH265)
            <==> DelimiterByte(u.body[0], isH265) || (SliceByte(u.body[0], isH265) && HasSlice(g, isH265))
  {
    hide IsVcl, IsAud, SliceByte, DelimiterByte, AnnexB.PrintUnit;
    KindOnBytes(u, isH265);
    forall i | 0 <= i < |g| ensures IsVcl(PrintGroup(g)[i], isH265) <==> SliceByte(g[i].body[0], isH265) {
      KindOnBytes(g[i], isH265);
    }
  }

  lemma LateOnBytes(gs: seq<seq<AnnexB.Unit>>, isH265: bool)
    requires (forall i :: 0 <= i < |gs| ==> UnitGroupOk(gs[i], isH265)) && CutLate(PrintGroups(gs), isH265)
    ensures UnitsCutLate(gs, isH265)
  {
    hide SliceByte, DelimiterByte, HasSlice, StartsNew, AnnexB.PrintUnit;
    forall i | 0 < i < |gs|
      ensures gs[i] != [] && gs[i][0].body != []
      ensures || DelimiterByte(gs[i][0].body[0], isH265)
              || (SliceByte(gs[i][0].body[0], isH265) && HasSlice(gs[i - 1], isH265))
    {
      assert UnitGroupOk(gs[i], isH265) && UnitGroupOk(gs[i - 1], isH265);
      assert StartsNew(PrintGroups(gs)[i - 1], PrintGroups(gs)[i][0], isH265);
      StartsOnBytes(gs[i - 1], gs[i][0], isH265);
    }
  }

  /** The access units of a printed stream, on the first bytes of its units: they are groups of its
      units in order, each with at most one slice and a delimiter only in front; there is no way
      with fewer, and each goes on for as long as it can. */
  lemma {:induction false} StreamGrouped(us: seq<AnnexB.Unit>, isH265: bool)
    requires forall i :: 0 <= i < |us| ==> us[i].body != []
    ensures var nals := AnnexB.Printed(us, |us|);
            var aus := AllGroups(Accumulate(nals, |nals|, isH265));
            exists gs :: UnitGrouping(gs, us, isH265) && aus == PrintGroups(gs) && UnitsCutLate(gs, isH265)
                         && forall others :: UnitGrouping(others, us, isH265) ==> |gs| <= |others|
  {
    hide GroupOk, UnitGroupOk, Accumulate, CutLate, UnitsCutLate, AnnexB.PrintUnit, AnnexB.Printed;
    var nals := AnnexB.Printed(us, |us|);
    var aus := AllGroups(Accumulate(nals, |nals|, isH265));
    assert us[..|us|] == us;
    PrintedIsGroup(us, |us|);
    FewestAccessUnits(nals, isH265);
    var gs := UnitGroups(aus, us);
    GroupsArePrinted(aus, us);
    GroupingOnBytes(gs, us, isH265);
    AccumulateCutsLate(nals, |nals|, isH265);
    LateOnBytes(gs, isH265);
    forall others | UnitGrouping(others, us, isH265) ensures |gs| <= |others| {
      GroupingOnBytes(others, us, isH265);
      assert Grouping(PrintGroups(others), nals, isH265);
    }
  }

  lemma GroupingOnBytes(gs: seq<seq<AnnexB.Unit>>, us: seq<AnnexB.Unit>, isH265: bool)
    requires Concat(gs) == us && forall i :: 0 <= i < |us| ==> us[i].body != []
    ensures Grouping(PrintGroups(gs), PrintGroup(us), isH265) <==> UnitGrouping(gs, us, isH265)
  {
    hide GroupOk, UnitGroupOk, AnnexB.PrintUnit;
    ConcatPrinted(gs);
    forall i | 0 <= i < |gs| ensures GroupOk(PrintGroups(gs)[i], isH265) <==> UnitGroupOk(gs[i], isH265) {
      InGroups(gs, i);
      GroupOnBytes(gs[i], isH265);
    }
  }

  lemma {:induction false} InGroups(gs: seq<seq<AnnexB.Unit>>, i: nat)
    requires i < |gs|
    ensures forall j :: 0 <= j < |gs[i]| ==> gs[i][j] in Concat(gs)
  {
    if i < |gs| - 1 {
      InGroups(gs[..|gs| - 1], i);
    }
  }

  // ----- the code -----

  /** The scan of the current access unit for a slice. */
  method ScanForVcl(current: Group, isH265: bool) returns (found: bool)
    ensures found == HasVcl(current, isH265)
  {
    var i := 0;
    while i < |current|
      invariant 0 <= i <= |current|
      invariant forall j :: 0 <= j < i ==> !IsVcl(current[j], isH265)
    {
      if IsVcl(current[i], isH265) {
        return true;
      }
      i := i + 1;
    }
    found := false;
  }

  method GroupIntoAccessUnits(nalUnits: seq<bytes>, isH265: bool) returns (accessUnits: seq<Group>)
    ensures accessUnits == AllGroups(Accumulate(nalUnits, |nalUnits|, isH265))
  {
    hide NalType;
    accessUnits := [];
    var currentAU: Group := [];
    var i := 0;
    while i < |nalUnits|
      invariant 0 <= i <= |nalUnits|
      invariant Progress(accessUnits, currentAU) == Accumulate(nalUnits, i, isH265)
    {
      var nal := nalUnits[i];
      var isNewAU := false;
      if IsAud(nal, isH265) {
        isNewAU := true;
      } else if IsVcl(nal, isH265) && currentAU != [] {
        isNewAU := ScanForVcl(currentAU, isH265);
      }
      if isNewAU && currentAU != [] {
        accessUnits := accessUnits + [currentAU];
        currentAU := [];
      }
      currentAU := currentAU + [nal];
      i := i + 1;
    }
    if currentAU != [] {
      accessUnits := accessUnits + [currentAU];
    }
  }
}
