/**
 * Where the receive buffer keeps the byte at a given distance from its
 * BaseOffset.  The first chunk holds `capacity` bytes and is used as a
 * circular buffer starting at ReadStart; every later chunk holds its whole
 * allocation, starting at its index 0.  These are value-level facts about
 * that layout, used by the receive buffer's invariant.
 */
module Geometry {

  function Sum(s: seq<nat>): nat {
    if s == [] then 0 else s[0] + Sum(s[1..])
  }

  lemma {:induction false} SumAppend(s: seq<nat>, t: seq<nat>)
    ensures Sum(s + t) == Sum(s) + Sum(t)
    decreases |s|
  {
    if s == [] {
      assert s + t == t;
    } else {
      assert (s + t)[1..] == s[1..] + t;
      SumAppend(s[1..], t);
    }
  }

  /** Adding one more element to a prefix adds its length. */
  lemma SumPrefixStep(s: seq<nat>, i: nat)
    requires i < |s|
    ensures Sum(s[..i + 1]) == Sum(s[..i]) + s[i]
  {
    assert s[..i + 1] == s[..i] + [s[i]];
    SumAppend(s[..i], [s[i]]);
    assert Sum([s[i]]) == s[i] + Sum([]);
  }

  lemma SumPrefixBound(s: seq<nat>, i: nat)
    requires i < |s|
    ensures Sum(s[..i]) + s[i] <= Sum(s)
  {
    SumPrefixStep(s, i);
    assert s == s[..i + 1] + s[i + 1..];
    SumAppend(s[..i + 1], s[i + 1..]);
  }

  /**
   * The chunk (index into lens) holding byte number rel of the
   * concatenation of chunks of lengths lens, and its position in that chunk.
   */
  function LocateIn(lens: seq<nat>, rel: nat): (l: (nat, nat))
    requires rel < Sum(lens)
    ensures l.0 < |lens| && l.1 < lens[l.0]
    ensures rel == Sum(lens[..l.0]) + l.1
    decreases |lens|
  {
    if rel < lens[0] then
      assert lens[..0] == [];
      (0, rel)
    else
      var l := LocateIn(lens[1..], rel - lens[0]);
      assert lens[..l.0 + 1] == [lens[0]] + lens[1..][..l.0];
      SumAppend([lens[0]], lens[1..][..l.0]);
      assert Sum([lens[0]]) == lens[0] + Sum([]);
      (l.0 + 1, l.1)
  }

  /** A later prefix ends at or after the end of an earlier chunk. */
  lemma {:induction false} SumPrefixMono(lens: seq<nat>, i: nat, j: nat)
    requires i < j <= |lens|
    ensures Sum(lens[..i]) + lens[i] <= Sum(lens[..j])
    decreases j
  {
    SumPrefixStep(lens, j - 1);
    if i < j - 1 {
      SumPrefixMono(lens, i, j - 1);
    }
  }

  /** Position p of chunk c is byte Sum(lens[..c]) + p of the concatenation. */
  lemma LocateInUnique(lens: seq<nat>, c: nat, p: nat)
    requires c < |lens| && p < lens[c]
    ensures Sum(lens[..c]) + p < Sum(lens)
    ensures LocateIn(lens, Sum(lens[..c]) + p) == (c, p)
  {
    SumPrefixBound(lens, c);
    forall i, j | 0 <= i < j <= |lens|
      ensures Sum(lens[..i]) + lens[i] <= Sum(lens[..j])
    {
      SumPrefixMono(lens, i, j);
    }
  }

  /** x reduced once modulo n, for 0 <= x < 2n: the circular index of the first chunk. */
  function Wrap(x: nat, n: nat): nat {
    if x < n then x else x - n
  }

  lemma ModIsWrap(x: nat, n: nat)
    requires 0 < n && x < 2 * n
    ensures x % n == Wrap(x, n)
  {
    if x >= n {
      assert (x - n) + 1 * n == x;
      assert x / n == 1 && x % n == x - n by {
        assert 0 <= x - n < n;
      }
    }
  }

  /** The layout is well formed: every chunk is non-empty and the first
      chunk's readable window lies inside it. */
  ghost predicate Shape(readStart: nat, capacity: nat, lens: seq<nat>) {
    (forall i :: 0 <= i < |lens| ==> lens[i] > 0) &&
    (lens != [] ==> readStart < lens[0] && 0 < capacity <= lens[0]) &&
    (lens == [] ==> capacity == 0 && readStart == 0)
  }

  /** Bytes after BaseOffset the chunks can hold. */
  function Total(capacity: nat, lens: seq<nat>): nat {
    if lens == [] then 0 else capacity + Sum(lens[1..])
  }

  /** Distance from BaseOffset at which chunk i (i >= 1) starts. */
  function ChunkStart(capacity: nat, lens: seq<nat>, i: nat): nat
    requires 1 <= i <= |lens|
  {
    capacity + Sum(lens[1..i])
  }

  /** (chunk index, index into its buffer) of the byte rel positions after BaseOffset. */
  function Locate(readStart: nat, capacity: nat, lens: seq<nat>, rel: nat): (l: (nat, nat))
    requires Shape(readStart, capacity, lens) && rel < Total(capacity, lens)
    ensures l.0 < |lens| && l.1 < lens[l.0]
  {
    if rel < capacity then (0, Wrap(readStart + rel, lens[0]))
    else
      var l := LocateIn(lens[1..], rel - capacity);
      (l.0 + 1, l.1)
  }

  /** Chunk i >= 1 holds [ChunkStart(i), ChunkStart(i) + lens[i]) at its own indices. */
  lemma LocateLater(readStart: nat, capacity: nat, lens: seq<nat>, i: nat, p: nat)
    requires Shape(readStart, capacity, lens)
    requires 1 <= i < |lens| && p < lens[i]
    ensures ChunkStart(capacity, lens, i) + p < Total(capacity, lens)
    ensures Locate(readStart, capacity, lens, ChunkStart(capacity, lens, i) + p) == (i, p)
  {
    assert lens[1..][..i - 1] == lens[1..i];
    assert lens[1..][i - 1] == lens[i];
    LocateInUnique(lens[1..], i - 1, p);
  }

  /**
   * Locations do not move when chunks are appended or the last chunk grows
   * (the first chunk and every chunk before the last keep their lengths).
   */
  lemma LocateStable(readStart: nat, capacity: nat, lens: seq<nat>, lens2: seq<nat>, rel: nat)
    requires Shape(readStart, capacity, lens) && Shape(readStart, capacity, lens2)
    requires rel < Total(capacity, lens)
    requires 1 <= |lens| <= |lens2| && lens2[0] == lens[0]
    requires forall i :: 1 <= i < |lens| - 1 ==> lens2[i] == lens[i]
    requires lens[|lens| - 1] <= lens2[|lens| - 1]
    ensures rel < Total(capacity, lens2)
    ensures Locate(readStart, capacity, lens2, rel) == Locate(readStart, capacity, lens, rel)
  {
    if rel >= capacity {
      var l := LocateIn(lens[1..], rel - capacity);
      assert lens2[1..][..l.0] == lens[1..][..l.0];
      LocateInUnique(lens2[1..], l.0, l.1);
    }
  }

  /** Every position beyond the first chunk's window is in some later chunk. */
  lemma LocateLaterInverse(readStart: nat, capacity: nat, lens: seq<nat>, rel: nat)
    requires Shape(readStart, capacity, lens)
    requires capacity <= rel < Total(capacity, lens)
    ensures var l := Locate(readStart, capacity, lens, rel);
      1 <= l.0 && rel == ChunkStart(capacity, lens, l.0) + l.1
  {
    var l := LocateIn(lens[1..], rel - capacity);
    assert lens[1..][..l.0] == lens[1..l.0 + 1];
  }

  /** Appending chunks adds their lengths to the total and moves no chunk start. */
  lemma TotalAppend(capacity: nat, lens: seq<nat>, more: seq<nat>)
    requires lens != []
    ensures Total(capacity, lens + more) == Total(capacity, lens) + Sum(more)
    ensures forall i :: 1 <= i <= |lens| ==> ChunkStart(capacity, lens + more, i) == ChunkStart(capacity, lens, i)
  {
    assert (lens + more)[1..] == lens[1..] + more;
    SumAppend(lens[1..], more);
    forall i | 1 <= i <= |lens| ensures ChunkStart(capacity, lens + more, i) == ChunkStart(capacity, lens, i) {
      assert (lens + more)[1..i] == lens[1..i];
    }
  }

  /** Replacing the last of several chunks changes the total by the length
      difference and moves no chunk start. */
  lemma TotalReplaceLast(capacity: nat, lens: seq<nat>, x: nat)
    requires |lens| >= 2
    ensures var last := |lens| - 1;
      Total(capacity, lens[..last] + [x]) + lens[last] == Total(capacity, lens) + x
    ensures var last := |lens| - 1;
      forall i :: 1 <= i <= last ==> ChunkStart(capacity, lens[..last] + [x], i) == ChunkStart(capacity, lens, i)
  {
    var last := |lens| - 1;
    TotalAppend(capacity, lens[..last], [x]);
    TotalAppend(capacity, lens[..last], [lens[last]]);
    assert lens[..last] + [lens[last]] == lens;
    assert Sum([x]) == x + Sum([]);
    assert Sum([lens[last]]) == lens[last] + Sum([]);
  }

  /** Dropping the first chunk and reading the next one from its start. */
  lemma TotalDropFirst(capacity: nat, lens: seq<nat>)
    requires |lens| >= 2
    ensures Total(lens[1], lens[1..]) + capacity == Total(capacity, lens)
    ensures forall i :: 1 <= i < |lens| ==> ChunkStart(lens[1], lens[1..], i) + capacity == ChunkStart(capacity, lens, i + 1)
  {
    assert lens[1..] == [lens[1]] + lens[2..];
    forall i | 1 <= i < |lens| ensures ChunkStart(lens[1], lens[1..], i) + capacity == ChunkStart(capacity, lens, i + 1) {
      assert lens[1..][1..i] == lens[2..i + 1];
      assert lens[1..i + 1] == [lens[1]] + lens[2..i + 1];
    }
  }

  lemma ChunkStartStep(capacity: nat, lens: seq<nat>, i: nat)
    requires 1 <= i < |lens|
    ensures ChunkStart(capacity, lens, i + 1) == ChunkStart(capacity, lens, i) + lens[i]
    ensures ChunkStart(capacity, lens, i + 1) <= Total(capacity, lens)
  {
    assert lens[1..][..i] == lens[1..i + 1];
    assert lens[1..][..i - 1] == lens[1..i];
    SumPrefixStep(lens[1..], i - 1);
    SumPrefixBound(lens[1..], i - 1);
  }

  /** A write that goes on past the end of chunk j continues in chunk j + 1. */
  lemma NextChunkExists(capacity: nat, lens: seq<nat>, j: nat, next: nat, limit: nat)
    requires j < |lens| && next < limit <= Total(capacity, lens)
    requires next == if j == 0 then capacity else ChunkStart(capacity, lens, j) + lens[j]
    ensures j + 1 < |lens| && ChunkStart(capacity, lens, j + 1) == next
  {
    if j > 0 {
      ChunkStartStep(capacity, lens, j);
    } else {
      assert lens[1..1] == [];
    }
    ChunkStartLast(capacity, lens);
  }

  lemma ChunkStartLast(capacity: nat, lens: seq<nat>)
    requires 1 <= |lens|
    ensures ChunkStart(capacity, lens, |lens|) == Total(capacity, lens)
  {
    assert lens[1..|lens|] == lens[1..];
  }

  lemma ChunkStartMono(capacity: nat, lens: seq<nat>, i: nat, j: nat)
    requires 1 <= i <= j <= |lens|
    ensures ChunkStart(capacity, lens, i) <= ChunkStart(capacity, lens, j)
    decreases j - i
  {
    if i < j {
      ChunkStartStep(capacity, lens, i);
      ChunkStartMono(capacity, lens, i + 1, j);
    }
  }

  // ---- Powers of two (the allocation sizes of non-app-owned chunks) ----

  ghost predicate IsPowerOfTwo(n: nat) decreases n {
    n == 1 || (n > 1 && n % 2 == 0 && IsPowerOfTwo(n / 2))
  }

  /** Two distinct powers of two differ by at least a factor of two. */
  lemma {:induction false} PowerOfTwoGap(x: nat, y: nat)
    requires IsPowerOfTwo(x) && IsPowerOfTwo(y)
    ensures x < y ==> 2 * x <= y
    decreases y
  {
    if x < y && x > 1 {
      PowerOfTwoGap(x / 2, y / 2);
    }
  }

  lemma PowerOfTwoDouble(x: nat)
    requires IsPowerOfTwo(x)
    ensures IsPowerOfTwo(2 * x)
  {
    assert (2 * x) / 2 == x;
  }

  function Pow2(k: nat): nat {
    if k == 0 then 1 else 2 * Pow2(k - 1)
  }

  lemma {:induction false} Pow2IsPowerOfTwo(k: nat)
    ensures IsPowerOfTwo(Pow2(k))
  {
    if k > 0 {
      Pow2IsPowerOfTwo(k - 1);
      PowerOfTwoDouble(Pow2(k - 1));
    }
  }

  lemma Pow2Of31()
    ensures Pow2(31) == 0x8000_0000
  {
    assert Pow2(8) == 0x100;
    assert Pow2(16) == 0x1_0000;
    assert Pow2(24) == 0x100_0000;
  }
}
