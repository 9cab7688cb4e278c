/**
 * The set of stream offsets the receive buffer has been written at
 * (the QUIC_RANGE named WrittenRanges).  Only its observable behaviour is
 * modelled: an ordered list of non-empty, disjoint [Low, Low + Count)
 * subranges that never touch each other (adding a range merges every
 * subrange it overlaps or abuts), plus the queries the receive buffer makes.
 */
module Ranges {

  datatype Subrange = Subrange(Low: nat, Count: nat) {
    /** One past the last offset of the subrange. */
    function End(): nat { Low + Count }
  }

  /** Non-empty subranges in increasing order with a gap between neighbours. */
  ghost predicate Normalized(rs: seq<Subrange>) {
    (forall i :: 0 <= i < |rs| ==> rs[i].Count > 0) &&
    (forall i, j :: 0 <= i < j < |rs| ==> rs[i].End() < rs[j].Low)
  }

  /** Offset x belongs to one of the subranges. */
  ghost predicate Covers(rs: seq<Subrange>, x: int) {
    exists i :: 0 <= i < |rs| && rs[i].Low <= x < rs[i].End()
  }

  function Min(a: nat, b: nat): nat { if a <= b then a else b }
  function Max(a: nat, b: nat): nat { if a <= b then b else a }

  lemma CoversCons(rs: seq<Subrange>, x: int)
    requires rs != []
    ensures Covers(rs, x) <==> (rs[0].Low <= x < rs[0].End()) || Covers(rs[1..], x)
  {
    if Covers(rs, x) {
      var i :| 0 <= i < |rs| && rs[i].Low <= x < rs[i].End();
      if i > 0 {
        assert rs[1..][i - 1] == rs[i];
      }
    }
    if Covers(rs[1..], x) {
      var i :| 0 <= i < |rs[1..]| && rs[1..][i].Low <= x < rs[1..][i].End();
      assert rs[i + 1] == rs[1..][i];
    }
  }

  /**
   * Merges [low, low + count) into the list (the range part of
   * QuicRangeAddRange): subranges that overlap or abut the new one are
   * absorbed into it.  MergeCovers states which offsets the result covers.
   */
  function Merge(rs: seq<Subrange>, low: nat, count: nat): (r: seq<Subrange>)
    requires Normalized(rs) && count > 0
    ensures Normalized(r) && r != []
    ensures forall i :: 0 <= i < |r| ==> r[i].Low >= (if rs == [] then low else Min(low, rs[0].Low))
    decreases |rs|
  {
    if rs == [] then [Subrange(low, count)]
    else if low + count < rs[0].Low then [Subrange(low, count)] + rs
    else if rs[0].End() < low then [rs[0]] + Merge(rs[1..], low, count)
    else
      var lo := Min(low, rs[0].Low);
      Merge(rs[1..], lo, Max(low + count, rs[0].End()) - lo)
  }

  lemma {:induction false} MergeCovers(rs: seq<Subrange>, low: nat, count: nat)
    requires Normalized(rs) && count > 0
    ensures forall x :: Covers(Merge(rs, low, count), x) <==> Covers(rs, x) || low <= x < low + count
    decreases |rs|
  {
    var r := Merge(rs, low, count);
    if rs == [] {
      forall x ensures Covers(r, x) <==> low <= x < low + count {
        CoversCons(r, x);
      }
    } else if low + count < rs[0].Low {
      assert r[1..] == rs;
      forall x ensures Covers(r, x) <==> Covers(rs, x) || low <= x < low + count {
        CoversCons(r, x);
      }
    } else if rs[0].End() < low {
      MergeCovers(rs[1..], low, count);
      assert r[1..] == Merge(rs[1..], low, count);
      forall x ensures Covers(r, x) <==> Covers(rs, x) || low <= x < low + count {
        CoversCons(r, x);
        CoversCons(rs, x);
      }
    } else {
      var lo := Min(low, rs[0].Low);
      MergeCovers(rs[1..], lo, Max(low + count, rs[0].End()) - lo);
      forall x ensures Covers(r, x) <==> Covers(rs, x) || low <= x < low + count {
        CoversCons(rs, x);
      }
    }
  }

  /** Some single subrange already holds all of [low, low + count). */
  predicate Contains(rs: seq<Subrange>, low: nat, count: nat) {
    exists i :: 0 <= i < |rs| && rs[i].Low <= low && low + count <= rs[i].End()
  }

  /** In a normalized list, values [a, b) that are all covered and start in
      subrange i lie entirely inside subrange i. */
  lemma CoveredRunStaysInSubrange(rs: seq<Subrange>, i: nat, a: nat, b: nat)
    requires Normalized(rs) && i < |rs|
    requires rs[i].Low <= a < rs[i].End() && a <= b
    requires forall x :: a <= x < b ==> Covers(rs, x)
    ensures b <= rs[i].End()
  {
    var e := rs[i].End();
    forall j | 0 <= j < |rs| ensures !(rs[j].Low <= e < rs[j].End()) {
      if j < i {
        assert rs[j].End() < rs[i].Low;
      } else if j > i {
        assert rs[i].End() < rs[j].Low;
      }
    }
    assert !Covers(rs, e);
  }

  lemma ContainsIffCovered(rs: seq<Subrange>, low: nat, count: nat)
    requires Normalized(rs) && count > 0
    ensures Contains(rs, low, count) <==> forall x :: low <= x < low + count ==> Covers(rs, x)
  {
    if forall x :: low <= x < low + count ==> Covers(rs, x) {
      assert Covers(rs, low);
      var i :| 0 <= i < |rs| && rs[i].Low <= low < rs[i].End();
      CoveredRunStaysInSubrange(rs, i, low, low + count);
    }
  }

  /** The subrange holding offset x (the range QuicRangeAddRange returns). */
  function Find(rs: seq<Subrange>, x: nat): (s: Subrange)
    requires Covers(rs, x)
    ensures s in rs && s.Low <= x < s.End()
    decreases |rs|
  {
    CoversCons(rs, x);
    if rs[0].Low <= x < rs[0].End() then rs[0] else Find(rs[1..], x)
  }

  datatype AddResult = AddResult(Ranges: seq<Subrange>, Updated: bool, UpdatedRange: Subrange)

  /**
   * QuicRangeAddRange: adds [low, low + count), reports whether any offset
   * was new, and returns the subrange that now holds the added values.
   * (The allocation failure of the real routine is decided by the caller.)
   */
  function AddRange(rs: seq<Subrange>, low: nat, count: nat): (res: AddResult)
    requires Normalized(rs) && count > 0
    ensures Normalized(res.Ranges)
    ensures forall x :: Covers(res.Ranges, x) <==> Covers(rs, x) || low <= x < low + count
    ensures res.Updated <==> exists x :: low <= x < low + count && !Covers(rs, x)
    ensures !res.Updated ==> res.Ranges == rs
    ensures res.UpdatedRange in res.Ranges
    ensures res.UpdatedRange.Low <= low && low + count <= res.UpdatedRange.End()
  {
    ContainsIffCovered(rs, low, count);
    MergeCovers(rs, low, count);
    var r := if Contains(rs, low, count) then rs else Merge(rs, low, count);
    assert Covers(r, low);
    var s := Find(r, low);
    assert low + count <= s.End() by {
      var i :| 0 <= i < |r| && r[i] == s;
      CoveredRunStaysInSubrange(r, i, low, low + count);
    }
    AddResult(r, !Contains(rs, low, count), s)
  }

  /** QuicRangeGetMaxSafe + 1: one past the largest covered offset, 0 when empty. */
  function MaxEnd(rs: seq<Subrange>): nat {
    if rs == [] then 0 else rs[|rs| - 1].End()
  }

  lemma MaxEndBounds(rs: seq<Subrange>)
    requires Normalized(rs)
    ensures forall x :: Covers(rs, x) ==> x < MaxEnd(rs)
    ensures rs != [] ==> Covers(rs, MaxEnd(rs) - 1)
  {
    forall x | Covers(rs, x) ensures x < MaxEnd(rs) {
      var i :| 0 <= i < |rs| && rs[i].Low <= x < rs[i].End();
      if i < |rs| - 1 {
        assert rs[i].End() < rs[|rs| - 1].Low;
      }
    }
    if rs != [] {
      assert rs[|rs| - 1].Low <= MaxEnd(rs) - 1 < rs[|rs| - 1].End();
    }
  }

  /** The first subrange starts at offset 0: the stream prefix is readable. */
  predicate StartsAtZero(rs: seq<Subrange>) {
    rs != [] && rs[0].Low == 0
  }

  /** End of the prefix [0, n) that is entirely covered (0 when offset 0 is missing). */
  function PrefixEnd(rs: seq<Subrange>): nat {
    if StartsAtZero(rs) then rs[0].End() else 0
  }

  lemma PrefixEndCovered(rs: seq<Subrange>)
    requires Normalized(rs)
    ensures forall x :: 0 <= x < PrefixEnd(rs) ==> Covers(rs, x)
    ensures !Covers(rs, PrefixEnd(rs))
  {
    var e := PrefixEnd(rs);
    forall j | 0 <= j < |rs| ensures !(rs[j].Low <= e < rs[j].End()) {
      if j > 0 {
        assert rs[0].End() < rs[j].Low;
      }
    }
    forall x | 0 <= x < e ensures Covers(rs, x) {
      assert rs[0].Low <= x < rs[0].End();
    }
  }

  lemma PrefixEndBelowMaxEnd(rs: seq<Subrange>)
    requires Normalized(rs)
    ensures PrefixEnd(rs) <= MaxEnd(rs)
  {
    if |rs| > 1 {
      assert rs[0].End() < rs[|rs| - 1].Low;
    }
  }

  /** Offset 0 is written exactly when the first subrange starts there. */
  lemma StartsAtZeroIffCovered(rs: seq<Subrange>)
    requires Normalized(rs)
    ensures StartsAtZero(rs) <==> Covers(rs, 0)
  {
    if Covers(rs, 0) {
      var i :| 0 <= i < |rs| && rs[i].Low <= 0 < rs[i].End();
      assert forall j :: 0 < j < |rs| ==> rs[0].End() < rs[j].Low;
    }
  }

  /** One past the largest covered offset is determined by which offsets are covered. */
  lemma MaxEndUnique(rs: seq<Subrange>, m: nat)
    requires Normalized(rs)
    requires forall x :: Covers(rs, x) ==> x < m
    requires m > 0 ==> Covers(rs, m - 1)
    ensures MaxEnd(rs) == m
  {
    MaxEndBounds(rs);
    if rs == [] {
      assert !Covers(rs, m - 1);
    }
  }

  /** The covered prefix [0, n) is determined by which offsets are covered. */
  lemma PrefixEndUnique(rs: seq<Subrange>, n: nat)
    requires Normalized(rs)
    requires forall x :: 0 <= x < n ==> Covers(rs, x)
    requires !Covers(rs, n)
    ensures PrefixEnd(rs) == n
  {
    PrefixEndCovered(rs);
    var p := PrefixEnd(rs);
    assert p < n ==> Covers(rs, p);
    assert n < p ==> Covers(rs, n);
  }

  /**
   * How adding [low, low + count) moves the covered prefix and the end of the
   * written data: the prefix never shrinks and only grows when the new range
   * starts inside it or right at its end; offset 0 becomes covered only when
   * the new range starts there.
   */
  lemma AddRangeEnds(rs: seq<Subrange>, low: nat, count: nat)
    requires Normalized(rs) && count > 0
    ensures var r := AddRange(rs, low, count).Ranges;
      PrefixEnd(rs) <= PrefixEnd(r) &&
      (PrefixEnd(r) != PrefixEnd(rs) ==> low <= PrefixEnd(rs)) &&
      (StartsAtZero(r) <==> StartsAtZero(rs) || low == 0) &&
      MaxEnd(r) == Max(MaxEnd(rs), low + count)
  {
    var r := AddRange(rs, low, count).Ranges;
    PrefixEndCovered(rs);
    PrefixEndCovered(r);
    var p, q := PrefixEnd(rs), PrefixEnd(r);
    assert q < p ==> Covers(rs, q);
    assert q != p ==> Covers(r, p);
    StartsAtZeroIffCovered(rs);
    StartsAtZeroIffCovered(r);
    MaxEndBounds(rs);
    MaxEndUnique(r, Max(MaxEnd(rs), low + count));
  }

  /**
   * The write reports new readable data (the subrange holding it starts at
   * offset 0 and some offset was new) exactly when the covered prefix grew.
   */
  lemma AddRangeReady(rs: seq<Subrange>, low: nat, count: nat)
    requires Normalized(rs) && count > 0
    ensures var res := AddRange(rs, low, count);
      (res.Updated && res.UpdatedRange.Low == 0) <==> PrefixEnd(res.Ranges) > PrefixEnd(rs)
  {
    var res := AddRange(rs, low, count);
    var r := res.Ranges;
    PrefixEndCovered(rs);
    PrefixEndCovered(r);
    var i :| 0 <= i < |r| && r[i] == res.UpdatedRange;
    if res.Updated && res.UpdatedRange.Low == 0 {
      var x :| low <= x < low + count && !Covers(rs, x);
      assert i == 0;
      assert PrefixEnd(r) == r[0].End() > x;
    }
    if PrefixEnd(r) > PrefixEnd(rs) {
      var p := PrefixEnd(rs);
      assert Covers(r, p);
      assert low <= p < low + count;
      assert StartsAtZero(r);
      assert i == 0;
    }
  }
}
