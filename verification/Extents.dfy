/**
 Function extents: clipping each to the next one's entry for the call walk, and the windowed lookup
 of the thin wrappers that hold a call site.
 */
module Extents {
  import opened Bytes

  const MAX_WALK_FACTOR: nat := 2
  const MAX_WRAPPER_SIZE: nat := 512

  datatype Function = Function(entry: nat, size: nat)

  /** Functions in entry order. */
  predicate Ordered(fs: seq<Function>) {
    forall j, k :: 0 <= j <= k < |fs| ==> fs[j].entry <= fs[k].entry
  }

  predicate Covers(f: Function, address: nat) {
    f.entry <= address < f.entry + f.size
  }

  /** The bytes a walk over `fs` reads. */
  function Total(fs: seq<Function>): nat {
    if fs == [] then 0 else Total(fs[..|fs| - 1]) + fs[|fs| - 1].size
  }

  // ----- clipping -----

  function ClippedAt(fs: seq<Function>, k: nat): Function
    requires k < |fs|
  {
    if k + 1 < |fs| && fs[k].entry <= fs[k + 1].entry then
      fs[k].(size := Min(fs[k].size, fs[k + 1].entry - fs[k].entry))
    else fs[k]
  }

  function Clipped(fs: seq<Function>): (clipped: seq<Function>)
    ensures |clipped| == |fs|
    ensures forall k :: 0 <= k < |fs| ==> clipped[k] == ClippedAt(fs, k)
  {
    seq(|fs|, k requires 0 <= k < |fs| => ClippedAt(fs, k))
  }

  /** The entries after the first, and `None` for the last function; then each size shrunk in place. */
  method ClipInPlace(functions: array<Function>)
    modifies functions
    ensures functions[..] == Clipped(old(functions[..]))
  {
    ghost var before := functions[..];
    var k := 0;
    while k < functions.Length
      invariant 0 <= k <= functions.Length
      invariant forall j :: 0 <= j < k ==> functions[j] == ClippedAt(before, j)
      invariant forall j :: k <= j < functions.Length ==> functions[j] == before[j]
    {
      if k + 1 < functions.Length && functions[k].entry <= functions[k + 1].entry {
        functions[k] :=
          functions[k].(size := Min(functions[k].size, functions[k + 1].entry - functions[k].entry));
      }
      k := k + 1;
    }
  }

  /** No later function starts at or before `address`. */
  predicate IsLastAt(fs: seq<Function>, k: nat, address: nat) {
    k < |fs| && fs[k].entry <= address && forall j :: k < j < |fs| ==> address < fs[j].entry
  }

  /** A clipped function covers what it covered of the addresses it is the last to start before. */
  lemma ClippedCovers(fs: seq<Function>, k: nat, address: nat)
    requires Ordered(fs) && k < |fs|
    ensures Covers(Clipped(fs)[k], address) <==> IsLastAt(fs, k, address) && Covers(fs[k], address)
  {
    if k + 1 < |fs| && address < fs[k + 1].entry {
      forall j | k < j < |fs| ensures address < fs[j].entry {
        assert fs[k + 1].entry <= fs[j].entry;
      }
    }
  }

  /** Clipped extents are pairwise disjoint. */
  lemma ClippedIsDisjoint(fs: seq<Function>, j: nat, k: nat, address: nat)
    requires Ordered(fs) && j < k < |fs|
    ensures !(Covers(Clipped(fs)[j], address) && Covers(Clipped(fs)[k], address))
  {
    ClippedCovers(fs, j, address);
    ClippedCovers(fs, k, address);
  }

  /** An address stays covered exactly when the last function starting at or before it covered it. */
  lemma CoveredAfterwards(fs: seq<Function>, address: nat)
    requires Ordered(fs)
    ensures (exists k :: 0 <= k < |fs| && Covers(Clipped(fs)[k], address))
            <==> exists k :: 0 <= k < |fs| && IsLastAt(fs, k, address) && Covers(fs[k], address)
  {
    forall k | 0 <= k < |fs|
      ensures Covers(Clipped(fs)[k], address) <==> IsLastAt(fs, k, address) && Covers(fs[k], address)
    {
      ClippedCovers(fs, k, address);
    }
  }

  /** The clipped sizes sum to no more than the span from the first entry to the last function's end. */
  lemma ClippedFitsTheSpan(fs: seq<Function>)
    requires Ordered(fs) && fs != []
    ensures var last := fs[|fs| - 1]; Total(Clipped(fs)) <= last.entry + last.size - fs[0].entry
  {
    var clipped := Clipped(fs);
    var n := |fs| - 1;
    GapsFitTheSpan(fs, n);
  }

  lemma {:induction false} GapsFitTheSpan(fs: seq<Function>, n: nat)
    requires Ordered(fs) && n < |fs|
    ensures Total(Clipped(fs)[..n]) <= fs[n].entry - fs[0].entry
  {
    if n > 0 {
      GapsFitTheSpan(fs, n - 1);
      var clipped := Clipped(fs);
      assert clipped[..n][..n - 1] == clipped[..n - 1];
      assert clipped[n - 1].size <= fs[n].entry - fs[n - 1].entry;
    }
  }

  /** The extents added up as the code adds them, saturating. */
  method SaturatingTotal(fs: seq<Function>) returns (sum: nat)
    ensures sum == Min(Total(fs), U64_MAX)
  {
    sum := 0;
    var k := 0;
    while k < |fs|
      invariant 0 <= k <= |fs|
      invariant sum == Min(Total(fs[..k]), U64_MAX)
    {
      assert fs[..k + 1][..k] == fs[..k];
      sum := SatAdd(sum, fs[k].size);
      k := k + 1;
    }
    assert fs[..k] == fs;
  }

  /**
   The functions as the call walk sees them: clipped exactly when their extents add up to more than
   twice the code, as long as twice the code is itself below the largest `u64`.
   */
  method Walkable(fs: seq<Function>, code: nat) returns (walk: seq<Function>)
    ensures walk == if Total(fs) > MAX_WALK_FACTOR * code && MAX_WALK_FACTOR * code < U64_MAX then Clipped(fs) else fs
    ensures Ordered(fs) && fs != [] && MAX_WALK_FACTOR * code < U64_MAX ==>
              || Total(walk) <= MAX_WALK_FACTOR * code
              || Total(walk) <= fs[|fs| - 1].entry + fs[|fs| - 1].size - fs[0].entry
  {
    var extent := SaturatingTotal(fs);
    if extent <= Min(code * MAX_WALK_FACTOR, U64_MAX) { return fs; }
    var clipped := new Function[|fs|](k requires 0 <= k < |fs| => fs[k]);
    assert clipped[..] == fs;
    ClipInPlace(clipped);
    if Ordered(fs) && fs != [] { ClippedFitsTheSpan(fs); }
    return clipped[..];
  }

  /** Where the limit itself saturates nothing is clipped, though the extents overlap past it. */
  lemma NotClippedAtTheTop()
    ensures var fs, code := [Function(0, U64_MAX), Function(1, U64_MAX)], U64_MAX / 2 + 1;
            && Ordered(fs) && Total(fs) > MAX_WALK_FACTOR * code && MAX_WALK_FACTOR * code >= U64_MAX
            && Clipped(fs) != fs
  {
    var fs := [Function(0, U64_MAX), Function(1, U64_MAX)];
    assert fs[..1] == [Function(0, U64_MAX)] && fs[..1][..0] == [];
    assert Total(fs[..1]) == U64_MAX;
    assert Clipped(fs)[0] == Function(0, 1);
  }

  // ----- wrappers -----

  /** Small, and holding the site. */
  predicate Wraps(f: Function, site: nat) {
    f.size <= MAX_WRAPPER_SIZE && Covers(f, site)
  }

  /** `partition_point`: the binary search for the first function `before` does not hold of. */
  method PartitionPoint(fs: seq<Function>, before: Function -> bool) returns (point: nat)
    requires forall j, k :: 0 <= j <= k < |fs| && before(fs[k]) ==> before(fs[j])
    ensures point <= |fs|
    ensures forall k :: 0 <= k < |fs| ==> (k < point <==> before(fs[k]))
  {
    var low, high := 0, |fs|;
    while low < high
      invariant 0 <= low <= high <= |fs|
      invariant forall k :: 0 <= k < low ==> before(fs[k])
      invariant forall k :: high <= k < |fs| ==> !before(fs[k])
    {
      var mid := low + (high - low) / 2;
      if before(fs[mid]) {
        forall k | 0 <= k <= mid ensures before(fs[k]) {
          assert k <= mid && before(fs[mid]);
        }
        low := mid + 1;
      } else {
        forall k | mid <= k < |fs| ensures !before(fs[k]) {
          assert mid <= k && !before(fs[mid]);
        }
        high := mid;
      }
    }
    return low;
  }

  /** By a scan of every function: `e` is the entry of one that wraps a site. */
  ghost predicate Scanned(fs: seq<Function>, sites: seq<nat>, e: nat) {
    exists k, i :: && 0 <= k < |fs| && 0 <= i < |sites|
                   && fs[k].size <= 512 && fs[k].entry <= sites[i] < fs[k].entry + fs[k].size && fs[k].entry == e
  }

  lemma WrapsIs(f: Function, site: nat)
    ensures Wraps(f, site) <==> f.size <= 512 && f.entry <= site < f.entry + f.size
  {
  }

  /** Between the two partition points of a site. */
  predicate InWindow(f: Function, site: nat) {
    f.entry <= site < SatAdd(f.entry, MAX_WRAPPER_SIZE)
  }

  /** By the windows: `e` is the entry of a function in a site's window that wraps it. */
  ghost predicate LookedUp(fs: seq<Function>, sites: seq<nat>, e: nat) {
    exists k, i :: 0 <= k < |fs| && 0 <= i < |sites|
                   && InWindow(fs[k], sites[i]) && Wraps(fs[k], sites[i]) && fs[k].entry == e
  }

  /** A wrapper of a site lies in its window exactly when the site is below the largest `u64`. */
  lemma WindowHoldsWrappers(f: Function, site: nat)
    requires site <= U64_MAX && Wraps(f, site)
    ensures InWindow(f, site) <==> site < U64_MAX
  {
  }

  /** The windows find exactly the wrappers of the sites below the largest `u64`, whatever other sites there are. */
  lemma LookupIsExact(fs: seq<Function>, sites: seq<nat>, e: nat)
    requires forall i :: 0 <= i < |sites| ==> sites[i] <= U64_MAX
    ensures LookedUp(fs, sites, e)
            <==> exists k, i :: && 0 <= k < |fs| && 0 <= i < |sites| && sites[i] < U64_MAX
                                && fs[k].size <= 512 && fs[k].entry <= sites[i] < fs[k].entry + fs[k].size
                                && fs[k].entry == e
  {
    hide Wraps, InWindow;
    forall f: Function, site: nat
      ensures Wraps(f, site) <==> f.size <= 512 && f.entry <= site < f.entry + f.size
    {
      WrapsIs(f, site);
    }
    forall k, i | 0 <= k < |fs| && 0 <= i < |sites| && Wraps(fs[k], sites[i])
      ensures InWindow(fs[k], sites[i]) <==> sites[i] < U64_MAX
    {
      WindowHoldsWrappers(fs[k], sites[i]);
    }
  }

  /** With every site below the largest `u64` they miss nothing. */
  lemma LookupIsScan(fs: seq<Function>, sites: seq<nat>, e: nat)
    requires forall i :: 0 <= i < |sites| ==> sites[i] < U64_MAX
    ensures LookedUp(fs, sites, e) <==> Scanned(fs, sites, e)
  {
    hide Wraps, LookedUp;
    LookupIsExact(fs, sites, e);
  }

  /** At the largest `u64` they miss everything: no wrapper of that site is ever looked up. */
  lemma TopmostSiteIsMissed(fs: seq<Function>, e: nat)
    ensures !LookedUp(fs, [U64_MAX], e)
    ensures Scanned([Function(U64_MAX - 1, 2)], [U64_MAX], U64_MAX - 1)
  {
    var f := Function(U64_MAX - 1, 2);
    assert [f][0] == f && [U64_MAX][0] == U64_MAX;
  }

  /** The entries the windows give, which are those of a full scan as far as `LookupIsExact` says. */
  method ConnectWrappers(fs: seq<Function>, sites: seq<nat>) returns (wrappers: set<nat>)
    requires Ordered(fs) && forall i :: 0 <= i < |sites| ==> sites[i] <= U64_MAX
    ensures forall e :: e in wrappers <==> LookedUp(fs, sites, e)
  {
    wrappers := {};
    var i := 0;
    while i < |sites|
      invariant 0 <= i <= |sites|
      invariant forall e :: e in wrappers <==> LookedUp(fs, sites[..i], e)
    {
      var site := sites[i];
      var found := WrappersOf(fs, site);
      OneMoreSite(fs, sites, i);
      wrappers := wrappers + found;
      i := i + 1;
    }
    assert sites[..i] == sites;
  }

  lemma OneMoreSite(fs: seq<Function>, sites: seq<nat>, i: nat)
    requires i < |sites|
    ensures forall e :: LookedUp(fs, sites[..i + 1], e)
                        <==> LookedUp(fs, sites[..i], e) || LookedUp(fs, [sites[i]], e)
  {
    hide Wraps, InWindow;
    var before, after, one := sites[..i], sites[..i + 1], [sites[i]];
    forall e ensures LookedUp(fs, after, e) <==> LookedUp(fs, before, e) || LookedUp(fs, one, e) {
      if LookedUp(fs, after, e) {
        var k, j :| 0 <= k < |fs| && 0 <= j < |after| && InWindow(fs[k], after[j]) && Wraps(fs[k], after[j])
                    && fs[k].entry == e;
        if j < i { assert before[j] == after[j]; } else { assert one[0] == after[j]; }
      }
      if LookedUp(fs, before, e) {
        var k, j :| 0 <= k < |fs| && 0 <= j < |before| && InWindow(fs[k], before[j]) && Wraps(fs[k], before[j])
                    && fs[k].entry == e;
        assert after[j] == before[j];
      }
      if LookedUp(fs, one, e) {
        assert after[i] == one[0];
      }
    }
  }

  /** The two binary searches around one site, and the functions between them. */
  method WrappersOf(fs: seq<Function>, site: nat) returns (wrappers: set<nat>)
    requires Ordered(fs) && site <= U64_MAX
    ensures forall e :: e in wrappers <==> LookedUp(fs, [site], e)
  {
    var first := PartitionPoint(fs, (f: Function) => SatAdd(f.entry, MAX_WRAPPER_SIZE) <= site);
    var last := PartitionPoint(fs, (f: Function) => f.entry <= site);
    wrappers := {};
    var k := first;
    while k < last
      invariant first <= k
      invariant k <= last || first > last
      invariant forall e :: e in wrappers
                            <==> exists j :: first <= j < k && j < last && Wraps(fs[j], site) && fs[j].entry == e
    {
      if fs[k].size <= MAX_WRAPPER_SIZE && site - fs[k].entry < fs[k].size {
        wrappers := wrappers + {fs[k].entry};
      }
      k := k + 1;
    }
    WindowIsLookup(fs, site, first, last);
  }

  lemma WindowIsLookup(fs: seq<Function>, site: nat, first: nat, last: nat)
    requires site <= U64_MAX && first <= |fs| && last <= |fs|
    requires forall k :: 0 <= k < |fs| ==> (k < first <==> SatAdd(fs[k].entry, MAX_WRAPPER_SIZE) <= site)
    requires forall k :: 0 <= k < |fs| ==> (k < last <==> fs[k].entry <= site)
    ensures forall e :: (exists j :: first <= j < last && Wraps(fs[j], site) && fs[j].entry == e)
                        <==> LookedUp(fs, [site], e)
  {
    assert forall k :: 0 <= k < |fs| ==> (first <= k < last <==> InWindow(fs[k], site));
    var one := [site];
    forall j, e | first <= j < last && Wraps(fs[j], site) && fs[j].entry == e ensures LookedUp(fs, one, e) {
      assert one[0] == site;
    }
  }
}
