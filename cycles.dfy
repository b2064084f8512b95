/**
  Orbits of a permutation of `[0, n)`, given as a table `p` (`p[k]` is the
  image of `k`).  This is the reasoning behind cycle-following in-place
  permutation: following `k, p[k], p[p[k]], ...` always comes back to `k`,
  every cycle has a least index, and rotating one cycle moves exactly its
  members.  The transpose instantiates `p` with its index map.
*/
module Cycles {

  /** Entries `a` and `b` of `p` are equal only when `a` and `b` are. */
  ghost predicate Separate(p: seq<nat>, a: nat, b: nat)
    requires a < |p| && b < |p|
  {
    p[a] == p[b] ==> a == b
  }

  /** `p` maps `[0, |p|)` into itself without repetition. */
  ghost predicate IsPermutation(p: seq<nat>) {
    && (forall k :: 0 <= k < |p| ==> p[k] < |p|)
    && (forall a, b :: 0 <= a < |p| && 0 <= b < |p| ==> Separate(p, a, b))
  }

  /** A permutation table has no repeated entry. */
  lemma Injective(p: seq<nat>, x: nat, y: nat)
    requires IsPermutation(p) && x < |p| && y < |p| && p[x] == p[y]
    ensures x == y
  {
    assert Separate(p, x, y);
  }

  /** `p` applied `n` times to `k`. */
  function Iter(p: seq<nat>, k: nat, n: nat): (x: nat)
    requires IsPermutation(p) && k < |p|
    ensures x < |p|
    decreases n
  {
    if n == 0 then k else p[Iter(p, k, n - 1)]
  }

  /** Applying `p` `a` times and then `b` times is applying it `a + b` times. */
  lemma {:induction false} IterAdd(p: seq<nat>, k: nat, a: nat, b: nat)
    requires IsPermutation(p) && k < |p|
    ensures Iter(p, Iter(p, k, a), b) == Iter(p, k, a + b)
  {
    if b > 0 {
      IterAdd(p, k, a, b - 1);
    }
  }

  /** A fixed point of `p` stays fixed. */
  lemma {:induction false} IterFixed(p: seq<nat>, k: nat, n: nat)
    requires IsPermutation(p) && k < |p| && p[k] == k
    ensures Iter(p, k, n) == k
  {
    if n > 0 {
      IterFixed(p, k, n - 1);
    }
  }

  /** Two equal iterates `d` steps apart mean the orbit of `k` returns after `d` steps. */
  lemma {:induction false} IterCancel(p: seq<nat>, k: nat, a: nat, d: nat)
    requires IsPermutation(p) && k < |p|
    requires Iter(p, k, a) == Iter(p, k, a + d)
    ensures Iter(p, k, d) == k
  {
    if a > 0 && d > 0 {
      var x, y := Iter(p, k, a - 1), Iter(p, k, a - 1 + d);
      Injective(p, x, y);
      IterCancel(p, k, a - 1, d);
    }
  }

  /** Pigeonhole: more than `n` values all below `n` contain a repetition. */
  lemma {:induction false} Pigeonhole(s: seq<nat>, n: nat) returns (a: nat, b: nat)
    requires |s| > n >= 1
    requires forall i :: 0 <= i < |s| ==> s[i] < n
    ensures a < b < |s| && s[a] == s[b]
    decreases n
  {
    if n == 1 {
      return 0, 1;
    }
    var last := |s| - 1;
    if j :| 0 <= j < last && s[j] == s[last] {
      return j, last;
    }
    // the value n - 1 is renamed to s[last], which then occurs nowhere else
    var t := seq(last, i requires 0 <= i < last => if s[i] == n - 1 then s[last] else s[i]);
    forall i | 0 <= i < last ensures t[i] < n - 1 {
      if s[i] == n - 1 {
        assert s[i] != s[last];
      }
    }
    a, b := Pigeonhole(t, n - 1);
    if s[a] != s[b] {
      assert false;
    }
  }

  /** Every orbit returns to its start within `|p|` steps. */
  lemma Periodic(p: seq<nat>, k: nat) returns (period: nat)
    requires IsPermutation(p) && k < |p|
    ensures 1 <= period <= |p| && Iter(p, k, period) == k
  {
    var s := seq(|p| + 1, j requires 0 <= j => Iter(p, k, j));
    var a, b := Pigeonhole(s, |p|);
    IterCancel(p, k, a, b - a);
    period := b - a;
  }

  /** Going round a cycle `t` times ends where it started. */
  lemma {:induction false} IterPeriods(p: seq<nat>, k: nat, period: nat, t: nat)
    requires IsPermutation(p) && k < |p| && Iter(p, k, period) == k
    ensures Iter(p, k, t * period) == k
  {
    if t > 0 {
      IterPeriods(p, k, period, t - 1);
      IterAdd(p, k, (t - 1) * period, period);
      assert (t - 1) * period + period == t * period;
    }
  }

  /** Iterates can be counted modulo a period. */
  lemma IterMod(p: seq<nat>, k: nat, period: nat, n: nat)
    requires IsPermutation(p) && k < |p| && period >= 1 && Iter(p, k, period) == k
    ensures Iter(p, k, n) == Iter(p, k, n % period)
  {
    IterPeriods(p, k, period, n / period);
    IterAdd(p, k, (n / period) * period, n % period);
    assert (n / period) * period + n % period == n;
  }

  /** If `x` lies on the orbit of `k`, then `k` lies on the orbit of `x`. */
  lemma ReachBack(p: seq<nat>, k: nat, j: nat, x: nat) returns (j': nat)
    requires IsPermutation(p) && k < |p| && Iter(p, k, j) == x
    ensures Iter(p, x, j') == k
  {
    var period := Periodic(p, k);
    assert j * period >= j;
    j' := j * period - j;
    IterAdd(p, k, j, j');
    IterPeriods(p, k, period, j);
  }

  /** The step at which the first `n` iterates of `k` take their least value. */
  function ArgMin(p: seq<nat>, k: nat, n: nat): (j: nat)
    requires IsPermutation(p) && k < |p| && n >= 1
    ensures j < n
    ensures forall i :: 0 <= i < n ==> Iter(p, k, j) <= Iter(p, k, i)
  {
    if n == 1 then 0
    else
      var j := ArgMin(p, k, n - 1);
      if Iter(p, k, n - 1) < Iter(p, k, j) then n - 1 else j
  }

  /** The least index on the cycle through `k`. */
  function CycleMin(p: seq<nat>, k: nat): (c: nat)
    requires IsPermutation(p) && k < |p|
    ensures c <= k
  {
    var j := ArgMin(p, k, |p|);
    assert Iter(p, k, j) <= Iter(p, k, 0);
    Iter(p, k, j)
  }

  /** The least index of a cycle is the same seen from the next member. */
  lemma CycleMinNext(p: seq<nat>, k: nat)
    requires IsPermutation(p) && k < |p|
    ensures CycleMin(p, p[k]) == CycleMin(p, k)
  {
    var period := Periodic(p, k);
    assert Iter(p, k, 1) == p[k];
    CycleMinForward(p, k, period);
    CycleMinBackward(p, k, period);
  }

  /** The least value seen from `p[k]` is also seen from `k` within `|p|` steps. */
  lemma CycleMinForward(p: seq<nat>, k: nat, period: nat)
    requires IsPermutation(p) && k < |p| && 1 <= period <= |p| && Iter(p, k, period) == k
    requires Iter(p, k, 1) == p[k]
    ensures CycleMin(p, k) <= CycleMin(p, p[k])
  {
    var n := |p|;
    var j2 := ArgMin(p, p[k], n);
    IterAdd(p, k, 1, j2);
    if j2 + 1 == n {
      IterAdd(p, k, period, n - period);
      assert Iter(p, k, n - period) == Iter(p, p[k], j2);
    } else {
      assert Iter(p, k, j2 + 1) == Iter(p, p[k], j2);
    }
  }

  /** The least value seen from `k` is also seen from `p[k]` within `|p|` steps. */
  lemma CycleMinBackward(p: seq<nat>, k: nat, period: nat)
    requires IsPermutation(p) && k < |p| && 1 <= period <= |p| && Iter(p, k, period) == k
    requires Iter(p, k, 1) == p[k]
    ensures CycleMin(p, p[k]) <= CycleMin(p, k)
  {
    var j1 := ArgMin(p, k, |p|);
    var t := if j1 >= 1 then j1 - 1 else period - 1;
    IterAdd(p, k, 1, t);
    assert Iter(p, k, 1 + t) == Iter(p, k, j1);
  }

  /** ... and seen from any member. */
  lemma {:induction false} CycleMinIter(p: seq<nat>, k: nat, j: nat)
    requires IsPermutation(p) && k < |p|
    ensures CycleMin(p, Iter(p, k, j)) == CycleMin(p, k)
  {
    if j > 0 {
      CycleMinIter(p, k, j - 1);
      CycleMinNext(p, Iter(p, k, j - 1));
    }
  }

  /** `s` starts a cycle of length `len` all of whose other members exceed `s`. */
  ghost predicate Leads(p: seq<nat>, s: nat, len: nat)
    requires IsPermutation(p) && s < |p|
  {
    len >= 1 && Iter(p, s, len) == s && forall j :: 1 <= j < len ==> Iter(p, s, j) > s
  }

  /** Such an `s` is the least index of its cycle. */
  lemma LeaderIsCycleMin(p: seq<nat>, s: nat, len: nat)
    requires IsPermutation(p) && s < |p| && Leads(p, s, len)
    ensures CycleMin(p, s) == s
  {
    IterMod(p, s, len, ArgMin(p, s, |p|));
  }

  /** The step `b` of such a cycle differs from every earlier step. */
  lemma CycleDistinct(p: seq<nat>, s: nat, len: nat, b: nat)
    requires IsPermutation(p) && s < |p| && Leads(p, s, len) && b < len
    ensures forall a :: 0 <= a < b ==> Iter(p, s, a) != Iter(p, s, b)
  {
    forall a | 0 <= a < b ensures Iter(p, s, a) != Iter(p, s, b) {
      if Iter(p, s, a) == Iter(p, s, a + (b - a)) {
        IterCancel(p, s, a, b - a);
        assert false;
      }
    }
  }

  /** `x` is one of the first `c` members of the cycle walked from `s`. */
  ghost predicate Visited(p: seq<nat>, s: nat, c: nat, x: nat)
    requires IsPermutation(p) && s < |p|
  {
    exists j :: 0 <= j < c && Iter(p, s, j) == x
  }

  /**
    The indices whose cycle has least index `s` are exactly the `len` members
    of the cycle walked from `s`; `j` is the step at which `x` is reached.
  */
  lemma CycleMembers(p: seq<nat>, s: nat, len: nat, x: nat) returns (j: nat)
    requires IsPermutation(p) && s < |p| && Leads(p, s, len)
    ensures (x < |p| && CycleMin(p, x) == s) <==> Visited(p, s, len, x)
    ensures Visited(p, s, len, x) ==> j < len && Iter(p, s, j) == x
  {
    LeaderIsCycleMin(p, s, len);
    j := 0;
    if x < |p| && CycleMin(p, x) == s {
      var j' := ReachBack(p, x, ArgMin(p, x, |p|), s);
      IterMod(p, s, len, j');
      j := j' % len;
    } else if Visited(p, s, len, x) {
      var i :| 0 <= i < len && Iter(p, s, i) == x;
      CycleMinIter(p, s, i);
      assert false;
    }
  }

  /** A start whose cycle reaches a smaller index is not the least index of any cycle. */
  lemma NotLeader(p: seq<nat>, s: nat, i: nat, k: nat)
    requires IsPermutation(p) && s < |p| && k < |p| && Iter(p, s, i) < s
    ensures CycleMin(p, k) != s
  {
    var period := Periodic(p, s);
    IterMod(p, s, period, i);
    assert CycleMin(p, s) <= Iter(p, s, i % period);
    if CycleMin(p, k) == s {
      CycleMinIter(p, k, ArgMin(p, k, |p|));
      assert false;
    }
  }

  /** A fixed point is the least index of its own cycle only. */
  lemma FixedLeader(p: seq<nat>, s: nat, k: nat)
    requires IsPermutation(p) && s < |p| && k < |p| && p[s] == s && CycleMin(p, k) == s
    ensures k == s
  {
    var j' := ReachBack(p, k, ArgMin(p, k, |p|), s);
    IterFixed(p, s, j');
  }

  // ---------------------------------------------------------------------
  // Rotating one cycle of an array's contents
  // ---------------------------------------------------------------------

  /** Overwriting one element trades its old value for the new one. */
  lemma UpdateMultiset<T>(a: seq<T>, i: nat, v: T)
    requires i < |a|
    ensures multiset(a[i := v]) + multiset{a[i]} == multiset(a) + multiset{v}
  {
  }

  lemma MultisetCancel<T>(a: multiset<T>, b: multiset<T>, x: T)
    requires a + multiset{x} == b + multiset{x}
    ensures a == b
  {
    forall y ensures a[y] == b[y] {
      assert (a + multiset{x})[y] == (b + multiset{x})[y];
    }
  }

  /**
    One write of the rotation keeps the balance "contents plus saved cell
    equal original plus the cell about to be overwritten".
  */
  lemma RotateStepMultiset<T>(orig: multiset<T>, before: multiset<T>, after: multiset<T>, tmp: T, gone: T, came: T)
    requires before + multiset{tmp} == orig + multiset{gone}
    requires after + multiset{gone} == before + multiset{came}
    ensures after + multiset{tmp} == orig + multiset{came}
  {
    forall y ensures (after + multiset{tmp})[y] == (orig + multiset{came})[y] {
      assert (after + multiset{gone})[y] == (before + multiset{came})[y];
      assert (before + multiset{tmp})[y] == (orig + multiset{gone})[y];
    }
  }

  /** The first `c` members of the cycle walked from `s` hold the cells of their images. */
  ghost predicate Moved<T>(p: seq<nat>, a: seq<T>, o: seq<T>, s: nat, c: nat)
    requires IsPermutation(p) && s < |p| <= |o| == |a|
  {
    forall j :: 0 <= j < c ==> a[Iter(p, s, j)] == o[p[Iter(p, s, j)]]
  }

  /** Every other cell still holds its original value. */
  ghost predicate Untouched<T>(p: seq<nat>, a: seq<T>, o: seq<T>, s: nat, c: nat)
    requires IsPermutation(p) && s < |p| <= |o| == |a|
  {
    forall x :: 0 <= x < |a| && !Visited(p, s, c, x) ==> a[x] == o[x]
  }

  /**
    The contents `a` after `c` writes of the rotation of the cycle led by `s`,
    against the contents `o` before it; `tmp` is the saved cell `o[s]`.
    Until the last write the saved cell stands in for the one about to be
    overwritten, so no value is lost.
  */
  ghost predicate Rotating<T>(p: seq<nat>, a: seq<T>, o: seq<T>, s: nat, len: nat, c: nat, tmp: T)
    requires IsPermutation(p) && s < |p| <= |o| == |a|
  {
    && c <= len
    && tmp == o[s]
    && Moved(p, a, o, s, c)
    && Untouched(p, a, o, s, c)
    && (c < len ==> multiset(a) + multiset{tmp} == multiset(o) + multiset{a[Iter(p, s, c)]})
    && (c == len ==> multiset(a) == multiset(o))
  }

  /** Step `c + 1` of a cycle follows step `c`, and returns to `s` only at the end. */
  lemma StepFacts(p: seq<nat>, s: nat, len: nat, c: nat)
    requires IsPermutation(p) && s < |p| && Leads(p, s, len) && c < len
    ensures Iter(p, s, c + 1) == p[Iter(p, s, c)]
    ensures Iter(p, s, c + 1) == s <==> c + 1 == len
    ensures c + 1 < len ==> Iter(p, s, c + 1) > s
    ensures c + 1 < len ==> !Visited(p, s, c + 1, Iter(p, s, c + 1))
    ensures !Visited(p, s, c, Iter(p, s, c))
  {
    CycleDistinct(p, s, len, c);
    if c + 1 < len {
      CycleDistinct(p, s, len, c + 1);
    }
  }

  /** The cell written at step `c` is the one its image holds originally. */
  lemma StepMoved<T>(p: seq<nat>, a: seq<T>, o: seq<T>, s: nat, len: nat, c: nat, tmp: T)
    requires IsPermutation(p) && s < |p| <= |o| == |a| && Leads(p, s, len)
    requires c < len && tmp == o[s] && Moved(p, a, o, s, c) && Untouched(p, a, o, s, c)
    ensures var next, i := Iter(p, s, c), Iter(p, s, c + 1);
      Moved(p, a[next := if i == s then tmp else a[i]], o, s, c + 1)
  {
    StepFacts(p, s, len, c);
    var next, i := Iter(p, s, c), Iter(p, s, c + 1);
    var a' := a[next := if i == s then tmp else a[i]];
    forall j | 0 <= j < c + 1 ensures a'[Iter(p, s, j)] == o[p[Iter(p, s, j)]] {
      if j < c {
        assert Iter(p, s, j) != next;
      }
    }
  }

  /** Cells outside the first `c + 1` members are still untouched. */
  lemma StepUntouched<T>(p: seq<nat>, a: seq<T>, o: seq<T>, s: nat, c: nat, v: T)
    requires IsPermutation(p) && s < |p| <= |o| == |a| && Untouched(p, a, o, s, c)
    ensures Untouched(p, a[Iter(p, s, c) := v], o, s, c + 1)
  {
    var a' := a[Iter(p, s, c) := v];
    forall x | 0 <= x < |a'| && !Visited(p, s, c + 1, x) ensures a'[x] == o[x] {
      assert !Visited(p, s, c, x) && x != Iter(p, s, c);
    }
  }

  /** One write keeps the multiset balance of `Rotating`. */
  lemma StepBalance<T>(p: seq<nat>, a: seq<T>, o: seq<T>, s: nat, len: nat, c: nat, tmp: T)
    requires IsPermutation(p) && s < |p| <= |o| == |a| && Leads(p, s, len) && c < len
    requires multiset(a) + multiset{tmp} == multiset(o) + multiset{a[Iter(p, s, c)]}
    ensures var next, i := Iter(p, s, c), Iter(p, s, c + 1);
      var a' := a[next := if i == s then tmp else a[i]];
      && (c + 1 < len ==> multiset(a') + multiset{tmp} == multiset(o) + multiset{a'[i]})
      && (c + 1 == len ==> multiset(a') == multiset(o))
  {
    StepFacts(p, s, len, c);
    var next, i := Iter(p, s, c), Iter(p, s, c + 1);
    var v := if i == s then tmp else a[i];
    var a' := a[next := v];
    UpdateMultiset(a, next, v);
    if i == s {
      MultisetCancel(multiset(a'), multiset(o), a[next]);
    } else {
      assert a'[i] == a[i];
      RotateStepMultiset(multiset(o), multiset(a), multiset(a'), tmp, a[next], a[i]);
    }
  }

  /**
    The contents after the first `c` writes of the rotation of the cycle led
    by `s`, starting from `o`: step `j` of the walk receives the cell of step
    `j + 1`, and the cell saved from `s` closes the cycle.
  */
  function Rotated<T>(p: seq<nat>, o: seq<T>, s: nat, c: nat): (a: seq<T>)
    requires IsPermutation(p) && s < |p| <= |o|
    ensures |a| == |o|
  {
    if c == 0 then o
    else
      var a := Rotated(p, o, s, c - 1);
      var next, i := Iter(p, s, c - 1), Iter(p, s, c);
      a[next := if i == s then o[s] else a[i]]
  }

  /** `Rotated` keeps the invariant `Rotating` for as long as the cycle lasts. */
  lemma {:induction false} RotatedInvariant<T>(p: seq<nat>, o: seq<T>, s: nat, len: nat, c: nat)
    requires IsPermutation(p) && s < |p| <= |o| && Leads(p, s, len) && c <= len
    ensures Rotating(p, Rotated(p, o, s, c), o, s, len, c, o[s])
  {
    if c == 0 {
      assert Iter(p, s, 0) == s;
    } else {
      RotatedInvariant(p, o, s, len, c - 1);
      RotatedStep(p, o, s, len, c);
    }
  }

  /** One more write of the rotation keeps the invariant `Rotating`. */
  lemma RotatedStep<T>(p: seq<nat>, o: seq<T>, s: nat, len: nat, c: nat)
    requires IsPermutation(p) && s < |p| <= |o| && Leads(p, s, len) && 1 <= c <= len
    requires Rotating(p, Rotated(p, o, s, c - 1), o, s, len, c - 1, o[s])
    ensures Rotating(p, Rotated(p, o, s, c), o, s, len, c, o[s])
  {
    var d := c - 1;
    var a := Rotated(p, o, s, d);
    var next, i := Iter(p, s, d), Iter(p, s, d + 1);
    var a' := a[next := if i == s then o[s] else a[i]];
    assert Rotated(p, o, s, d + 1) == a';
    StepFacts(p, s, len, d);
    StepMoved(p, a, o, s, len, d, o[s]);
    StepUntouched(p, a, o, s, d, if i == s then o[s] else a[i]);
    StepBalance(p, a, o, s, len, d, o[s]);
  }

  /**
    A full turn moves exactly the members of the cycle, each receiving its
    image's cell, and keeps the contents as a multiset.
  */
  lemma RotationDone<T>(p: seq<nat>, a: seq<T>, o: seq<T>, s: nat, len: nat)
    requires IsPermutation(p) && s < |p| <= |o| && Leads(p, s, len)
    requires a == Rotated(p, o, s, len)
    ensures forall x :: 0 <= x < |a| ==> a[x] == if x < |p| && CycleMin(p, x) == s then o[p[x]] else o[x]
    ensures multiset(a) == multiset(o)
  {
    RotatedInvariant(p, o, s, len, len);
    forall x | 0 <= x < |a|
      ensures a[x] == if x < |p| && CycleMin(p, x) == s then o[p[x]] else o[x]
    {
      var j := CycleMembers(p, s, len, x);
    }
  }
}
