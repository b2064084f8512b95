/**
  In-place transposition of a row-major matrix by cycle following
  (`matrix_transpose` in src/utils.c).

  An `h`-row, `w`-column matrix is stored row-major in the first `w * h`
  cells of an array: cell (r, c) lives at `r * w + c`.  After the call the
  same cells hold the `w`-row, `h`-column transpose, cell (c, r) at
  `c * h + r`.  The routine never computes on the cell values, so they are
  an opaque type parameter here.
*/
module Transpose {
  import opened Cycles

  // ---------------------------------------------------------------------
  // Arithmetic facts about Euclidean division used below
  // ---------------------------------------------------------------------

  /** Division by `h` recovers the two parts of `a * h + b` when `b < h`. */
  lemma DivModOf(a: nat, b: nat, h: nat)
    requires b < h
    ensures (a * h + b) / h == a
    ensures (a * h + b) % h == b
  {
    var x := a * h + b;
    assert x == (x / h) * h + x % h;
    DivisionUnique(a, b, x / h, x % h, h);
  }

  /** Quotient and remainder below the divisor are unique. */
  lemma DivisionUnique(a: int, b: int, q: int, r: int, h: int)
    requires 0 <= b < h && 0 <= r < h
    requires a * h + b == q * h + r
    ensures a == q && b == r
  {
    var d := a - q;
    assert d * h == r - b;
    if d >= 1 {
      MulAtLeast(d, h);
      assert false;
    } else if d <= -1 {
      assert false;
    }
  }

  lemma {:induction false} MulAtLeast(d: nat, h: nat)
    requires d >= 1
    ensures d * h >= h
  {
    if d > 1 {
      MulAtLeast(d - 1, h);
      assert d * h == (d - 1) * h + h;
    }
  }

  /** A position below `w * h` has its quotient by `h` below `w`. */
  lemma QuotientBound(w: nat, h: nat, k: nat)
    requires h > 0 && k < w * h
    ensures k / h < w
  {
    var q := k / h;
    assert k == q * h + k % h;
  }

  /** The position of cell (r, c) of a `rows`-by-`cols` row-major matrix is in range. */
  lemma CellInRange(rows: nat, cols: nat, r: nat, c: nat)
    requires r < rows && c < cols
    ensures r * cols + c < cols * rows
  {
    assert r * cols <= (rows - 1) * cols;
  }

  // ---------------------------------------------------------------------
  // The index map P(k) = (k % h) * w + k / h and its orbits
  // ---------------------------------------------------------------------

  /**
    The source index of position `k` in the transpose: the cell that ends up
    at `k` comes from `Next(w, h, k)`. It maps `[0, w*h)` into itself.
  */
  function Next(w: nat, h: nat, k: nat): (p: nat)
    requires h > 0
    ensures k < w * h ==> p < w * h
  {
    var p := (k % h) * w + k / h;
    assert k < w * h ==> p < w * h by {
      if k < w * h {
        QuotientBound(w, h, k);
        CellInRange(h, w, k % h, k / h);
      }
    }
    p
  }

  /** `Next` for the swapped dimensions undoes `Next`: the map is a bijection on `[0, w*h)`. */
  lemma NextInverse(w: nat, h: nat, k: nat)
    requires w > 0 && h > 0 && k < w * h
    ensures Next(h, w, Next(w, h, k)) == k
  {
    QuotientBound(w, h, k);
    DivModOf(k % h, k / h, w);
    assert k == (k / h) * h + k % h;
  }

  /** `Next` is injective on `[0, w*h)`. */
  lemma NextInjective(w: nat, h: nat, a: nat, b: nat)
    requires w > 0 && h > 0 && a < w * h && b < w * h
    requires Next(w, h, a) == Next(w, h, b)
    ensures a == b
  {
    NextInverse(w, h, a);
    NextInverse(w, h, b);
  }

  /** A position below `w * h` exists only when both dimensions are positive. */
  lemma Positive(w: nat, h: nat, k: nat)
    requires k < w * h
    ensures w > 0 && h > 0
  {
  }

  /** Entry `k` of the table `p`, if there is one, is `Next(w, h, k)`. */
  ghost predicate EntryAt(w: nat, h: nat, p: seq<nat>, k: nat) {
    k < |p| ==> h > 0 && p[k] == Next(w, h, k)
  }

  /** `p` is the index map of the transpose as a table: `w * h` entries `Next(w, h, k)`. */
  ghost predicate IsIndexMap(w: nat, h: nat, p: seq<nat>) {
    |p| == w * h && forall k :: EntryAt(w, h, p, k)
  }

  /**
    The index map as a table.  It is a permutation of `[0, w*h)`, so the
    orbit theory of module `Cycles` applies to it.
  */
  lemma IndexMap(w: nat, h: nat) returns (p: seq<nat>)
    ensures IsIndexMap(w, h, p) && IsPermutation(p)
  {
    p := seq(w * h, k requires 0 <= k < w * h => Positive(w, h, k); Next(w, h, k));
    forall a, b | 0 <= a < w * h && 0 <= b < w * h ensures Separate(p, a, b) {
      if p[a] == p[b] {
        NextInjective(w, h, a, b);
      }
    }
  }

  // ---------------------------------------------------------------------
  // The specification and the in-place algorithm
  // ---------------------------------------------------------------------

  /**
    The array contents after the transpose: position `k < w*h` receives the
    cell at `Next(w, h, k)`; the cells from `w*h` on are left alone.
  */
  function Transposed<T>(s: seq<T>, w: nat, h: nat): (t: seq<T>)
    requires w * h <= |s|
    ensures |t| == |s|
  {
    seq(|s|, k requires 0 <= k < |s| => if h > 0 && k < w * h then s[Next(w, h, k)] else s[k])
  }

  /** Cell (r, c) of the `h`-by-`w` input is cell (c, r) of the `w`-by-`h` result. */
  lemma TransposedAt<T>(s: seq<T>, w: nat, h: nat, r: nat, c: nat)
    requires w * h <= |s| && r < h && c < w
    ensures c * h + r < w * h && r * w + c < w * h
    ensures Transposed(s, w, h)[c * h + r] == s[r * w + c]
  {
    CellInRange(w, h, c, r);
    CellInRange(h, w, r, c);
    DivModOf(c, r, h);
  }

  /** Transposing with `(w, h)` and then with `(h, w)` restores the original. */
  lemma TransposeRoundTrip<T>(s: seq<T>, w: nat, h: nat)
    requires w * h <= |s|
    ensures Transposed(Transposed(s, w, h), h, w) == s
  {
    var t := Transposed(s, w, h);
    var u := Transposed(t, h, w);
    forall k | 0 <= k < |s| ensures u[k] == s[k] {
      if w > 0 && h > 0 && k < w * h {
        NextInverse(h, w, k);
      }
    }
  }

  /** A single row or a single column is its own transpose: every cycle has length one. */
  lemma TransposeVector<T>(s: seq<T>, w: nat, h: nat)
    requires w * h <= |s| && (w == 1 || h == 1)
    ensures forall k :: 0 <= k < w * h ==> Next(w, h, k) == k
    ensures Transposed(s, w, h) == s
  {
    forall k | 0 <= k < w * h ensures Next(w, h, k) == k {
      if w == 1 {
        DivModOf(0, k, h);
      } else {
        DivModOf(k, 0, 1);
      }
    }
  }

  /** One step of either loop: the next index of the cycle, `(k % h) * w + k / h`. */
  method NextIndex(w: nat, h: nat, k: nat, ghost p: seq<nat>) returns (i: nat)
    requires IsIndexMap(w, h, p) && k < |p|
    ensures i == p[k]
  {
    assert EntryAt(w, h, p, k);
    i := (k % h) * w + k / h;
  }

  /**
    The first do-while loop: walk the cycle through `start` until it comes
    back to `start` or falls below it; `i` counts the steps taken.  The walk
    ends back at `start` after more than one step exactly when `start` is the
    least index of a cycle that moves something.  `p` is the index map.
  */
  method ScanCycle(w: nat, h: nat, start: nat, ghost p: seq<nat>) returns (next: nat, i: nat)
    requires IsIndexMap(w, h, p) && IsPermutation(p) && start < w * h
    ensures 1 <= i <= w * h && next == Iter(p, start, i) && next <= start
    ensures forall j :: 1 <= j < i ==> Iter(p, start, j) > start
    ensures (next == start && i > 1) <==> (CycleMin(p, start) == start && p[start] != start)
  {
    ghost var period := Periodic(p, start);
    next, i := start, 0;
    while i == 0 || next > start
      invariant 0 <= i <= period
      invariant next == Iter(p, start, i)
      invariant forall j :: 1 <= j < i ==> Iter(p, start, j) > start
      invariant i == period ==> next == start
      decreases period - i
    {
      i := i + 1;
      next := NextIndex(w, h, next, p);
    }
    assert Iter(p, start, 1) == p[start];
    if next == start && i > 1 {
      LeaderIsCycleMin(p, start, i);
    } else if next < start {
      NotLeader(p, start, i, start);
    }
  }

  /**
    The second do-while loop: rotate the cycle led by `start`, of length
    `len`, so that each of its members receives the cell of its image under
    the index map `p`; nothing else changes.
  */
  method RotateCycle<T>(m: array<T>, w: nat, h: nat, start: nat, len: nat, ghost p: seq<nat>)
    requires IsIndexMap(w, h, p) && IsPermutation(p) && start < w * h <= m.Length
    requires Leads(p, start, len)
    modifies m
    ensures forall x :: 0 <= x < m.Length ==>
      m[x] == if x < w * h && CycleMin(p, x) == start then old(m[p[x]]) else old(m[x])
    ensures multiset(m[..]) == multiset(old(m[..]))
  {
    var tmp := m[start];
    var next := start;
    var first := true;
    ghost var c := 0;
    while first || next > start
      invariant 0 <= c <= len && (first <==> c == 0)
      invariant next == Iter(p, start, c)
      invariant c > 0 ==> (next > start <==> c < len)
      invariant tmp == old(m[start])
      invariant m[..] == Rotated(p, old(m[..]), start, c)
      decreases len - c
    {
      StepFacts(p, start, len, c);
      var i := NextIndex(w, h, next, p);
      m[next] := if i == start then tmp else m[i];
      next := i;
      first := false;
      c := c + 1;
    }
    RotationDone(p, m[..], old(m[..]), start, len);
  }

  /** The outer loop's invariant: every cycle whose least index is below `start` has been rotated. */
  ghost predicate RotatedBelow<T>(a: seq<T>, o: seq<T>, p: seq<nat>, start: nat)
    requires IsPermutation(p) && |p| <= |o| == |a|
  {
    forall k :: 0 <= k < |a| ==>
      a[k] == if k < |p| && CycleMin(p, k) < start then o[p[k]] else o[k]
  }

  /** Once every cycle is rotated the contents are the transpose. */
  lemma AllRotated<T>(a: seq<T>, o: seq<T>, w: nat, h: nat, p: seq<nat>)
    requires IsIndexMap(w, h, p) && IsPermutation(p) && w * h <= |o| == |a|
    requires RotatedBelow(a, o, p, w * h)
    ensures a == Transposed(o, w, h)
  {
    var t := Transposed(o, w, h);
    forall k | 0 <= k < |a| ensures a[k] == t[k] {
      if k < w * h {
        assert CycleMin(p, k) < w * h;
        assert EntryAt(w, h, p, k);
      }
    }
  }

  /** Equal contents with equal tails have equal prefixes, as multisets. */
  lemma PrefixMultiset<T>(a: seq<T>, o: seq<T>, n: nat)
    requires n <= |a| == |o| && multiset(a) == multiset(o) && a[n..] == o[n..]
    ensures multiset(a[..n]) == multiset(o[..n])
  {
    assert a == a[..n] + a[n..];
    assert o == o[..n] + o[n..];
    assert multiset(a[..n]) + multiset(a[n..]) == multiset(o[..n]) + multiset(a[n..]);
    forall y ensures multiset(a[..n])[y] == multiset(o[..n])[y] {
      assert (multiset(a[..n]) + multiset(a[n..]))[y] == (multiset(o[..n]) + multiset(a[n..]))[y];
    }
  }

  /**
    A start whose walk falls below it, or comes back in one step, leads no
    cycle that moves anything: the invariant extends past it unchanged.
  */
  lemma SkipStart<T>(a: seq<T>, o: seq<T>, p: seq<nat>, start: nat, i: nat)
    requires IsPermutation(p) && |p| <= |o| == |a| && start < |p|
    requires RotatedBelow(a, o, p, start)
    requires Iter(p, start, i) < start || (i == 1 && Iter(p, start, i) == start)
    ensures RotatedBelow(a, o, p, start + 1)
  {
    forall k | 0 <= k < |p| && CycleMin(p, k) == start ensures k == start && p[k] == k {
      if Iter(p, start, i) < start {
        NotLeader(p, start, i, k);
      } else {
        assert Iter(p, start, 1) == p[start];
        FixedLeader(p, start, k);
      }
    }
  }

  /** Rotating the cycle led by `start` extends the invariant past `start`. */
  lemma RotatedStart<T>(a: seq<T>, before: seq<T>, o: seq<T>, p: seq<nat>, start: nat)
    requires IsPermutation(p) && |p| <= |o| == |a| == |before|
    requires RotatedBelow(before, o, p, start)
    requires forall x :: 0 <= x < |a| ==>
      a[x] == if x < |p| && CycleMin(p, x) == start then before[p[x]] else before[x]
    ensures RotatedBelow(a, o, p, start + 1)
  {
    forall k | 0 <= k < |p| && CycleMin(p, k) == start ensures before[p[k]] == o[p[k]] {
      CycleMinNext(p, k);
    }
  }

  /** One round of the outer loop: rotate the cycle `start` leads, when it leads one that moves anything. */
  method RotateFrom<T>(m: array<T>, w: nat, h: nat, start: nat, ghost p: seq<nat>, ghost o: seq<T>)
    requires IsIndexMap(w, h, p) && IsPermutation(p) && start < w * h <= m.Length && |o| == m.Length
    requires RotatedBelow(m[..], o, p, start)
    modifies m
    ensures RotatedBelow(m[..], o, p, start + 1)
    ensures multiset(m[..]) == multiset(old(m[..]))
  {
    var next, i := ScanCycle(w, h, start, p);
    if next < start || i == 1 {
      SkipStart(m[..], o, p, start, i);
    } else {
      ghost var before := m[..];
      RotateCycle(m, w, h, start, i, p);
      RotatedStart(m[..], before, o, p, start);
    }
  }

  /** With every cycle rotated the contents are the transpose, a permutation of the matrix cells that keeps the tail. */
  lemma TransposeDone<T>(a: seq<T>, o: seq<T>, w: nat, h: nat, p: seq<nat>)
    requires IsIndexMap(w, h, p) && IsPermutation(p) && w * h <= |o| == |a|
    requires RotatedBelow(a, o, p, w * h) && multiset(a) == multiset(o)
    ensures a == Transposed(o, w, h)
    ensures multiset(a[..w * h]) == multiset(o[..w * h])
    ensures forall k :: w * h <= k < |a| ==> a[k] == o[k]
  {
    assert a[w * h..] == o[w * h..];
    PrefixMultiset(a, o, w * h);
    AllRotated(a, o, w, h, p);
  }

  /** `matrix_transpose`: turn the `h`-row, `w`-column matrix in `m` into its transpose, in place. */
  method MatrixTranspose<T>(m: array<T>, w: nat, h: nat)
    requires w * h <= m.Length
    modifies m
    ensures m[..] == Transposed(old(m[..]), w, h)
    ensures multiset(m[..w * h]) == multiset(old(m[..w * h]))
    ensures forall k :: w * h <= k < m.Length ==> m[k] == old(m[k])
  {
    ghost var p := IndexMap(w, h);
    var start := 0;
    while start <= w * h - 1
      invariant start <= w * h || w * h == 0
      invariant RotatedBelow(m[..], old(m[..]), p, start)
      invariant multiset(m[..]) == multiset(old(m[..]))
    {
      RotateFrom(m, w, h, start, p, old(m[..]));
      start := start + 1;
    }
    TransposeDone(m[..], old(m[..]), w, h, p);
  }
}
