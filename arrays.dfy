/**
 * The JavaScript array built-ins the directory app relies on: `filter`,
 * `findIndex`, `find` and `splice` removing or inserting one element.
 */
module Arrays {
  import opened Optional

  // ------------------------------------------------------------ filter

  /** `Array.prototype.filter`. */
  function Filter<T(!new)>(xs: seq<T>, p: T -> bool): (r: seq<T>)
    ensures |r| <= |xs|
    ensures forall x :: x in r <==> x in xs && p(x)
  {
    if xs == [] then [] else (if p(xs[0]) then [xs[0]] else []) + Filter(xs[1..], p)
  }

  /** `idx` lists, in increasing order, positions of `s` that spell out `r`. */
  ghost predicate Embeds<T(!new)>(idx: seq<nat>, r: seq<T>, s: seq<T>) {
    && |idx| == |r|
    && (forall k :: 0 <= k < |idx| ==> idx[k] < |s| && r[k] == s[idx[k]])
    && (forall k, l :: 0 <= k < l < |idx| ==> idx[k] < idx[l])
  }

  /** `r` is obtained from `s` by deleting elements, keeping the order of the rest. */
  ghost predicate IsSubsequence<T(!new)>(r: seq<T>, s: seq<T>) {
    exists idx :: Embeds(idx, r, s)
  }

  /** Shifting an embedding of `r` in `s[1..]` by one embeds `r` in `s`, and
   *  putting position 0 in front embeds `[s[0]] + r` in `s`. */
  lemma EmbedsShift<T(!new)>(idx: seq<nat>, r: seq<T>, s: seq<T>)
    requires |s| > 0 && Embeds(idx, r, s[1..])
    ensures Embeds(Shift(idx), r, s)
    ensures Embeds([0] + Shift(idx), [s[0]] + r, s)
  {
    var sh := Shift(idx);
    assert forall k :: 0 <= k < |sh| ==> r[k] == s[1..][idx[k]] == s[sh[k]];
  }

  function Shift(idx: seq<nat>): (sh: seq<nat>)
    ensures |sh| == |idx| && forall k :: 0 <= k < |idx| ==> sh[k] == idx[k] + 1
  {
    seq(|idx|, k requires 0 <= k < |idx| => idx[k] + 1)
  }

  /** A filter keeps its survivors in their original relative order. */
  lemma {:induction false} FilterIsSubsequence<T(!new)>(xs: seq<T>, p: T -> bool)
    ensures IsSubsequence(Filter(xs, p), xs)
  {
    if xs == [] {
      assert Embeds([], Filter(xs, p), xs);
    } else {
      FilterIsSubsequence(xs[1..], p);
      var tail := Filter(xs[1..], p);
      var idx :| Embeds(idx, tail, xs[1..]);
      EmbedsShift(idx, tail, xs);
      if p(xs[0]) {
        assert Filter(xs, p) == [xs[0]] + tail;
        assert Embeds([0] + Shift(idx), Filter(xs, p), xs);
      } else {
        assert Filter(xs, p) == tail;
        assert Embeds(Shift(idx), Filter(xs, p), xs);
      }
    }
  }

  /** A relation that holds between every earlier and later element of `s`
   *  still holds in every subsequence of `s`. */
  lemma SubsequenceKeepsOrder<T(!new)>(r: seq<T>, s: seq<T>, before: (T, T) -> bool)
    requires IsSubsequence(r, s)
    requires forall i, j :: 0 <= i < j < |s| ==> before(s[i], s[j])
    ensures forall i, j :: 0 <= i < j < |r| ==> before(r[i], r[j])
  {
    var idx :| Embeds(idx, r, s);
    forall i, j | 0 <= i < j < |r| ensures before(r[i], r[j]) {
      assert r[i] == s[idx[i]] && r[j] == s[idx[j]];
    }
  }

  /** How many copies of `x` a filter keeps: all of them or none. */
  lemma {:induction false} FilterCount<T(!new)>(xs: seq<T>, p: T -> bool, x: T)
    ensures multiset(Filter(xs, p))[x] == if p(x) then multiset(xs)[x] else 0
  {
    if xs != [] {
      FilterCount(xs[1..], p, x);
      assert xs == [xs[0]] + xs[1..];
    }
  }

  /** Filtering two permutations of one another gives permutations of one another. */
  lemma FilterPermutation<T(!new)>(xs: seq<T>, ys: seq<T>, p: T -> bool)
    requires multiset(xs) == multiset(ys)
    ensures multiset(Filter(xs, p)) == multiset(Filter(ys, p))
  {
    forall x ensures multiset(Filter(xs, p))[x] == multiset(Filter(ys, p))[x] {
      FilterCount(xs, p, x);
      FilterCount(ys, p, x);
    }
  }

  /** A filter that every element passes returns its input. */
  lemma {:induction false} FilterKeepsAll<T(!new)>(xs: seq<T>, p: T -> bool)
    requires forall x :: x in xs ==> p(x)
    ensures Filter(xs, p) == xs
  {
    if xs != [] {
      FilterKeepsAll(xs[1..], p);
      assert [xs[0]] + xs[1..] == xs;
    }
  }

  /** Filtering twice by the same test is filtering once. */
  lemma FilterIdempotent<T(!new)>(xs: seq<T>, p: T -> bool)
    ensures Filter(Filter(xs, p), p) == Filter(xs, p)
  {
    FilterKeepsAll(Filter(xs, p), p);
  }

  /** Two filters with complementary tests split the input between them. */
  lemma {:induction false} FilterComplement<T(!new)>(xs: seq<T>, p: T -> bool, q: T -> bool)
    requires forall x :: q(x) == !p(x)
    ensures |Filter(xs, p)| + |Filter(xs, q)| == |xs|
  {
    if xs != [] {
      FilterComplement(xs[1..], p, q);
    }
  }

  /** Filters of two equally long sequences agree when the same positions pass
   *  and the passing elements are equal. */
  lemma {:induction false} FilterSameSurvivors<T(!new)>(xs: seq<T>, ys: seq<T>, p: T -> bool)
    requires |xs| == |ys|
    requires forall i :: 0 <= i < |xs| ==> p(xs[i]) == p(ys[i]) && (p(xs[i]) ==> xs[i] == ys[i])
    ensures Filter(xs, p) == Filter(ys, p)
  {
    if xs != [] {
      assert p(xs[0]) == p(ys[0]);
      FilterSameSurvivors(xs[1..], ys[1..], p);
    }
  }

  // --------------------------------------------------- findIndex, find

  /** `Array.prototype.findIndex`: the first position passing `p`, or -1. */
  function FindIndex<T(!new)>(xs: seq<T>, p: T -> bool): (i: int)
    ensures -1 <= i < |xs|
    ensures i >= 0 ==> p(xs[i])
    ensures forall j :: 0 <= j < |xs| && (i == -1 || j < i) ==> !p(xs[j])
  {
    if xs == [] then -1
    else if p(xs[0]) then 0
    else
      var i := FindIndex(xs[1..], p);
      if i == -1 then -1 else i + 1
  }

  /** `Array.prototype.find`: the first element passing `p`, `undefined` (None) if none does. */
  function Find<T(!new)>(xs: seq<T>, p: T -> bool): (r: Option<T>)
    ensures r.None? <==> forall x :: x in xs ==> !p(x)
    ensures r.Some? ==> r.value in xs && p(r.value)
    ensures r.Some? ==> exists i :: 0 <= i < |xs| && xs[i] == r.value && forall j :: 0 <= j < i ==> !p(xs[j])
  {
    var i := FindIndex(xs, p);
    if i < 0 then None else Some(xs[i])
  }

  /** `findIndex` only looks at which positions pass. */
  lemma {:induction false} FindIndexSamePattern<T(!new)>(xs: seq<T>, ys: seq<T>, p: T -> bool)
    requires |xs| == |ys|
    requires forall i :: 0 <= i < |xs| ==> p(xs[i]) == p(ys[i])
    ensures FindIndex(xs, p) == FindIndex(ys, p)
  {
    if xs != [] {
      assert p(xs[0]) == p(ys[0]);
      FindIndexSamePattern(xs[1..], ys[1..], p);
    }
  }

  // ------------------------------------------------------------ splice

  /** Where `splice(start, …)` acts on an array of length `len`: a negative
   *  start counts from the end, and the result is clamped into `[0, len]`. */
  function SpliceStart(len: nat, start: int): (k: nat)
    ensures k <= len
    ensures 0 <= start <= len ==> k == start
    ensures start > len ==> k == len
    ensures -(len as int) <= start < 0 ==> k as int == len as int + start
    ensures start < -(len as int) ==> k == 0
  {
    if start < 0 then (if len + start < 0 then 0 else len + start)
    else if start > len then len
    else start
  }

  /** `splice(k, 1)` on an array that has a position `k`: the array without it. */
  function RemoveAt<T(!new)>(xs: seq<T>, k: nat): (r: seq<T>)
    requires k < |xs|
    ensures |r| == |xs| - 1
    ensures forall j :: 0 <= j < k ==> r[j] == xs[j]
    ensures forall j :: k <= j < |r| ==> r[j] == xs[j + 1]
    ensures multiset(r) == multiset(xs) - multiset{xs[k]}
  {
    assert xs == xs[..k] + [xs[k]] + xs[k + 1..];
    xs[..k] + xs[k + 1..]
  }

  /** `splice(k, 0, x)` with `k` in range: `x` inserted before position `k`. */
  function InsertAt<T(!new)>(xs: seq<T>, k: nat, x: T): (r: seq<T>)
    requires k <= |xs|
    ensures |r| == |xs| + 1 && r[k] == x
    ensures forall j :: 0 <= j < k ==> r[j] == xs[j]
    ensures forall j :: k < j < |r| ==> r[j] == xs[j - 1]
    ensures multiset(r) == multiset(xs) + multiset{x}
  {
    assert xs == xs[..k] + xs[k..];
    xs[..k] + [x] + xs[k..]
  }

  /** Removing what was just inserted restores the array, and re-inserting
   *  what was just removed restores it too. */
  lemma SpliceRoundTrip<T(!new)>(xs: seq<T>, k: nat, x: T)
    requires k <= |xs|
    ensures RemoveAt(InsertAt(xs, k, x), k) == xs
    ensures k < |xs| ==> InsertAt(RemoveAt(xs, k), k, xs[k]) == xs
  {
    assert RemoveAt(InsertAt(xs, k, x), k) == xs;
    if k < |xs| {
      assert InsertAt(RemoveAt(xs, k), k, xs[k]) == xs;
    }
  }
}
