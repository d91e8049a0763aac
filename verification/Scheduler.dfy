/** Cyclic playback: at every 10 ms tick a connection is sent all packets that have come due. */
module Scheduler {
  import opened Bytes

  const TICK_MS := 10

  datatype MediaPacket = MediaPacket(isVideo: bool, ptsMs: int64, data: bytes)

  /** The demuxer sorts by presentation time. */
  predicate Sorted(ps: seq<MediaPacket>) {
    forall i, j :: 0 <= i <= j < |ps| ==> ps[i].ptsMs <= ps[j].ptsMs
  }

  type Playlist = ps: seq<MediaPacket> | ps != [] && Sorted(ps) witness [MediaPacket(true, 0, [])]

  /** The length of one cycle, at least a millisecond. */
  function Duration(ps: Playlist): (d: int)
    ensures d >= 1
    ensures forall i :: 0 <= i < |ps| ==> 0 <= ps[i].ptsMs - ps[0].ptsMs <= d
  {
    var first: int, last: int := ps[0].ptsMs, ps[|ps| - 1].ptsMs;
    if last - first <= 0 then 1 else last - first
  }

  /** When packet k of the endless playback is due. */
  function DueTime(ps: Playlist, k: nat): int {
    var first: int := ps[0].ptsMs;
    ps[k % |ps|].ptsMs - first + k / |ps| * Duration(ps)
  }

  lemma DivModNext(k: nat, n: nat)
    requires n > 0
    ensures (k + 1) / n == if k % n == n - 1 then k / n + 1 else k / n
    ensures (k + 1) % n == if k % n == n - 1 then 0 else k % n + 1
  {
    var q, r := k / n, k % n;
    if r == n - 1 {
      QuotientUnique(k + 1, n, q + 1, 0);
    } else {
      QuotientUnique(k + 1, n, q, r + 1);
    }
  }

  /** The first packet is due at once. */
  lemma DueTimeFirst(ps: Playlist)
    ensures DueTime(ps, 0) == 0
  {
  }

  /** From packet to packet, by the presentation times alone: inside a cycle the gap is the gap
      between the packets; a new cycle begins with the last packet of the one before, or a
      millisecond later if all packets have the same time. */
  lemma DueTimeGap(ps: Playlist, k: nat)
    ensures var n := |ps|;
            DueTime(ps, k + 1) - DueTime(ps, k)
            == if (k + 1) % n != 0 then ps[(k + 1) % n].ptsMs - ps[k % n].ptsMs
               else if ps[n - 1].ptsMs > ps[0].ptsMs then 0 else 1
  {
    DivModNext(k, |ps|);
    var q, d := k / |ps|, Duration(ps);
    assert (q + 1) * d == q * d + d;
  }

  lemma DueTimeNext(ps: Playlist, k: nat)
    ensures DueTime(ps, k) <= DueTime(ps, k + 1)
  {
    DivModNext(k, |ps|);
    var q, d := k / |ps|, Duration(ps);
    assert (q + 1) * d == q * d + d;
  }

  /** Playback never goes back in time, across cycles too. */
  lemma {:induction false} DueTimeMonotone(ps: Playlist, j: nat, k: nat)
    requires j <= k
    ensures DueTime(ps, j) <= DueTime(ps, k)
    decreases k - j
  {
    if j == k {
    } else {
      DueTimeMonotone(ps, j, k - 1);
      DueTimeNext(ps, k - 1);
    }
  }

  /** Only finitely many packets are due by any time. */
  lemma LaterThan(ps: Playlist, k: nat, t: nat)
    requires k >= |ps| * (t + 1)
    ensures DueTime(ps, k) > t
  {
    var q, d, n := k / |ps|, Duration(ps), |ps|;
    MulMonotone(q, t, n);
    assert n * (t + 1) == n * t + n;
    MulMonotone(1, d, q);
  }

  lemma MulMonotone(a: int, b: int, c: int)
    requires c >= 0
    ensures a <= b ==> a * c <= b * c && c * a <= c * b
  {
  }

  /** n is the number of packets due by time t. */
  ghost predicate IsCount(ps: Playlist, t: int, n: nat) {
    forall k: nat :: k < n <==> DueTime(ps, k) <= t
  }

  /** The counts bracket: what the first undue packet tells about all others. */
  lemma CountFromEnds(ps: Playlist, t: int, n: nat)
    requires DueTime(ps, n) > t
    requires n > 0 ==> DueTime(ps, n - 1) <= t
    ensures IsCount(ps, t, n)
  {
    forall k: nat ensures k < n <==> DueTime(ps, k) <= t {
      if k < n {
        DueTimeMonotone(ps, k, n - 1);
      } else {
        DueTimeMonotone(ps, n, k);
      }
    }
  }

  lemma CountEnds(ps: Playlist, t: int, n: nat)
    requires IsCount(ps, t, n)
    ensures DueTime(ps, n) > t && (n > 0 ==> DueTime(ps, n - 1) <= t)
  {
  }

  lemma DueBound(ps: Playlist, k: nat, t: nat)
    requires DueTime(ps, k) <= t
    ensures k < |ps| * (t + 1)
  {
    if k >= |ps| * (t + 1) {
      LaterThan(ps, k, t);
    }
  }

  lemma CountsAgree(ps: Playlist, t: int, m: nat, n: nat)
    requires IsCount(ps, t, m) && IsCount(ps, t, n)
    ensures m == n
  {
    assert DueTime(ps, m) > t && DueTime(ps, n) > t;
  }

  /** Every packet is sent at the first tick that is not before its due time, so less than one
      tick late. */
  lemma LessThanOneTickLate(ps: Playlist, t: nat, before: nat, after: nat, k: nat)
    requires IsCount(ps, t - 10, before) && IsCount(ps, t, after)
    ensures before <= k < after <==> DueTime(ps, k) <= t < DueTime(ps, k) + 10
  {
  }

  /** In every cycle every packet is sent once, at its own time: k runs through the playlist again
      and again. */
  lemma EachPacketOncePerCycle(ps: Playlist, cycle: nat, i: nat)
    requires i < |ps|
    ensures var k := cycle * |ps| + i;
            var span: int := ps[|ps| - 1].ptsMs - ps[0].ptsMs;
            && k % |ps| == i && k / |ps| == cycle
            && DueTime(ps, k) == ps[i].ptsMs - ps[0].ptsMs + cycle * (if span > 0 then span else 1)
            && forall k': nat :: k' % |ps| == i && k' / |ps| == cycle ==> k' == k
  {
    QuotientUnique(cycle * |ps| + i, |ps|, cycle, i);
  }
}
