/** Emulation prevention bytes: ITU-T H.264 sections 7.3.1 and 7.4.1 insert them, the parser
    removes them. */
module EmulationPrevention {
  import opened Bytes
  import AnnexB

  predicate TwoZeros(s: bytes) {
    |s| >= 2 && s[|s| - 1] == 0 && s[|s| - 2] == 0
  }

  /** An emulation prevention byte goes before a byte of at most 3 if two zeros were written. */
  function Insert(x: bytes): bytes {
    if x == [] then []
    else
      var out, c := Insert(x[..|x| - 1]), x[|x| - 1];
      if TwoZeros(out) && c <= 3 then out + [3, c] else out + [c]
  }

  /** ... and one more behind a trailing zero. */
  function InsertAll(x: bytes): bytes {
    if x != [] && x[|x| - 1] == 0 then Insert(x) + [3] else Insert(x)
  }

  /** What the parser keeps: all but a 3 whose two predecessors, in the data as received, are
      zero. */
  function Remove(d: bytes): bytes {
    if d == [] then []
    else
      var kept, c := Remove(d[..|d| - 1]), d[|d| - 1];
      if c == 3 && TwoZeros(d[..|d| - 1]) then kept else kept + [c]
  }

  lemma RemoveNext(d: bytes, c: byte)
    ensures Remove(d + [c]) == if c == 3 && TwoZeros(d) then Remove(d) else Remove(d) + [c]
  {
    assert (d + [c])[..|d|] == d;
  }

  lemma InsertNext(x: bytes, c: byte)
    ensures Insert(x + [c]) == if TwoZeros(Insert(x)) && c <= 3 then Insert(x) + [3, c] else Insert(x) + [c]
  {
    assert (x + [c])[..|x|] == x;
  }

  lemma InsertEmpty()
    ensures Insert([]) == [] && Remove([]) == []
  {
  }

  /** Removing undoes inserting, for every byte string. */
  lemma {:induction false} RoundTrip(x: bytes)
    ensures Remove(Insert(x)) == x
  {
    hide TwoZeros, Insert, Remove;
    if x == [] {
      InsertEmpty();
    } else {
      var init, c := x[..|x| - 1], x[|x| - 1];
      var out := Insert(init);
      RoundTrip(init);
      InsertNext(init, c);
      assert init + [c] == x;
      if TwoZeros(out) && c <= 3 {
        RemoveNext(out, 3);
        RemoveNext(out + [3], c);
        assert out + [3, c] == out + [3] + [c];
        ThreeIsNotZero(out);
      } else {
        RemoveNext(out, c);
      }
    }
  }

  lemma ThreeIsNotZero(s: bytes)
    ensures !TwoZeros(s + [3])
  {
  }

  // ----- the trailing byte -----

  function TrailingZeros(x: bytes): nat {
    if x == [] || x[|x| - 1] != 0 then 0 else 1 + TrailingZeros(x[..|x| - 1])
  }

  /** How the output ends depends on the parity of the zeros at the end of the input. */
  lemma {:induction false} EndOfInsert(x: bytes)
    ensures var out, t := Insert(x), TrailingZeros(x);
            && (TwoZeros(out) <==> t > 0 && t % 2 == 0)
            && (out == [] <==> x == [])
            && (x != [] ==> (out[|out| - 1] == 0 <==> t > 0))
  {
    if x == [] {
    } else {
      EndOfInsert(x[..|x| - 1]);
    }
  }

  /** With the trailing byte the round trip holds exactly when the input ends in an even number
      of zeros, as RBSPs do: a stop bit, then cabac_zero_words of two zero bytes each. */
  lemma RoundTripWithTrailing(x: bytes)
    ensures Remove(InsertAll(x)) == x <==> TrailingZeros(x) % 2 == 0
  {
    RoundTrip(x);
    EndOfInsert(x);
    RemoveNext(Insert(x), 3);
    assert |x + [3]| != |x|;
  }

  /** A single zero comes back with the byte inserted behind it. */
  lemma OneZeroIsNotRestored()
    ensures Remove(InsertAll([0])) == [0, 3]
  {
    hide Insert, Remove;
    InsertEmpty();
    NoTwoZeros();
    InsertNext([], 0);
    assert [] + [0] == [0];
    RemoveNext([], 0);
    RemoveNext([0], 3);
    assert [0] + [3] == [0, 3];
  }

  // ----- what never occurs inside -----

  /** No 00 00 00, 00 00 01 or 00 00 02. */
  predicate NoForbidden(s: bytes) {
    forall i :: 0 <= i < |s| - 2 ==> !(s[i] == 0 && s[i + 1] == 0 && s[i + 2] <= 2)
  }

  lemma {:induction false} InsertIsSafe(x: bytes)
    ensures NoForbidden(Insert(x))
  {
    if x == [] {
    } else {
      InsertIsSafe(x[..|x| - 1]);
    }
  }

  /** An inserted form with its trailing byte can stand between start codes. */
  lemma InsertedIsBody(x: bytes)
    requires x != []
    ensures NoForbidden(InsertAll(x)) && AnnexB.BodyOk(InsertAll(x))
  {
    InsertIsSafe(x);
    EndOfInsert(x);
  }

  lemma TwoZerosBehind(h: byte, s: bytes)
    requires h != 0
    ensures TwoZeros([h] + s) <==> TwoZeros(s)
  {
  }

  /** A nonzero header byte in front changes nothing. */
  lemma {:induction false} InsertBehindHeader(h: byte, x: bytes)
    requires h != 0
    ensures Insert([h] + x) == [h] + Insert(x)
  {
    hide TwoZeros, Insert;
    InsertEmpty();
    if x == [] {
      InsertNext([], h);
      TwoZerosBehind(h, []);
      assert [] + [h] == [h] + x == [h];
      NoTwoZeros();
    } else {
      var init, c := x[..|x| - 1], x[|x| - 1];
      InsertBehindHeader(h, init);
      InsertNext([h] + init, c);
      InsertNext(init, c);
      assert [h] + init + [c] == [h] + x && init + [c] == x;
      TwoZerosBehind(h, Insert(init));
    }
  }

  lemma NoTwoZeros()
    ensures !TwoZeros([])
  {
  }

  // ----- position by position -----

  /** The positions kept, in order. */
  function Kept(d: bytes): (ks: seq<nat>)
    ensures |ks| == |Remove(d)|
  {
    if d == [] then []
    else
      var before, i := Kept(d[..|d| - 1]), |d| - 1;
      if d[i] == 3 && TwoZeros(d[..i]) then before else before + [i]
  }

  /** Kept is everything, in order, but each 3 that stands right behind two zeros. */
  lemma {:induction false} KeepsAllBut(d: bytes)
    ensures forall j :: 0 <= j < |Kept(d)| ==> Kept(d)[j] < |d| && Remove(d)[j] == d[Kept(d)[j]]
    ensures forall i, j :: 0 <= i < j < |Kept(d)| ==> Kept(d)[i] < Kept(d)[j]
    ensures forall i: nat :: i in Kept(d) <==> i < |d| && !Prevents(d, i)
  {
    hide Kept, Remove, Prevents;
    if d == [] {
      NothingKept();
    } else {
      var n := |d| - 1;
      KeepsAllBut(d[..n]);
      KeptNext(d);
      forall i: nat ensures i in Kept(d) <==> i < |d| && !Prevents(d, i) {
        if i < n {
          PreventsPrefix(d, n, i);
        }
        assert i in Kept(d) <==> i in Kept(d[..n]) || (i == n && !Prevents(d, n));
      }
    }
  }

  /** The byte is a 3 right behind two zeros. */
  predicate Prevents(d: bytes, i: nat) {
    2 <= i < |d| && d[i] == 3 && d[i - 1] == 0 && d[i - 2] == 0
  }

  lemma PreventsPrefix(d: bytes, n: nat, i: nat)
    requires i < n <= |d|
    ensures Prevents(d[..n], i) <==> Prevents(d, i)
  {
  }

  lemma NothingKept()
    ensures Kept([]) == [] && Remove([]) == []
  {
  }

  lemma KeptNext(d: bytes)
    requires d != []
    ensures var n := |d| - 1;
            && Kept(d) == Kept(d[..n]) + (if Prevents(d, n) then [] else [n])
            && Remove(d) == Remove(d[..n]) + (if Prevents(d, n) then [] else [d[n]])
  {
    hide TwoZeros, Prevents;
    var init, n := d[..|d| - 1], |d| - 1;
    PreventsMeans(d, n);
    assert |init| == n;
  }

  lemma PreventsMeans(d: bytes, n: nat)
    requires n < |d|
    ensures Prevents(d, n) <==> d[n] == 3 && TwoZeros(d[..n])
  {
  }

  // ----- the code -----

  method RemoveEmulationPrevention(data: bytes) returns (rbsp: bytes)
    ensures rbsp == Remove(data)
  {
    rbsp := [];
    var i := 0;
    while i < |data|
      invariant 0 <= i <= |data|
      invariant rbsp == Remove(data[..i])
    {
      RemoveNext(data[..i], data[i]);
      assert data[..i] + [data[i]] == data[..i + 1];
      if i >= 2 && data[i] == 3 && data[i - 1] == 0 && data[i - 2] == 0 {
      } else {
        rbsp := rbsp + [data[i]];
      }
      i := i + 1;
    }
    assert data[..i] == data;
  }
}
