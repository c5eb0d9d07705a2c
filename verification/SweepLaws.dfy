/**
 What one sweep guarantees, whatever deletes are refused and whatever others delete meanwhile: its
 counters, its age limit, its two targets, and that the second pass takes the least recently used
 and no more of them than it must.
 */
module SweepLaws {
  import opened Sweep

  function Refused(refuses: set<Path>): Entry -> bool {
    (e: Entry) => e.path in refuses
  }

  /** The entries left: those the second pass could not delete, then those it never tried. */
  function Survivors(sorted: seq<Entry>, refuses: set<Path>, b: Budget): seq<Entry> {
    var n := SecondPass(sorted, refuses, b);
    Keep(sorted[..n], Refused(refuses)) + sorted[n..]
  }

  function Evicted(sorted: seq<Entry>, refuses: set<Path>, b: Budget): seq<Entry> {
    Keep(sorted[..SecondPass(sorted, refuses, b)], Deletes(refuses))
  }

  lemma {:induction false} KeepAndRestDistinct(s: seq<Entry>, n: nat, p: Entry -> bool)
    requires n <= |s| && Distinct(s)
    ensures Distinct(Keep(s[..n], p) + s[n..])
    decreases n
  {
    var t := Keep(s[..n], p) + s[n..];
    KeepDistinct(s[..n], p);
    forall i, j | 0 <= i < j < |t| ensures t[i].path != t[j].path {
      var left := Keep(s[..n], p);
      if i < |left| && |left| <= j {
        assert left[i] in s[..n];
        var k :| 0 <= k < n && s[..n][k] == left[i];
        assert s[k].path != s[n + (j - |left|)].path;
      }
    }
  }

  /** Tried and kept, tried and gone, untried: together the sorted entries. */
  lemma SurvivorsAndEvicted(sorted: seq<Entry>, refuses: set<Path>, b: Budget)
    ensures var s, v := Survivors(sorted, refuses, b), Evicted(sorted, refuses, b);
            && |s| + |v| == |sorted| && Total(s) + Total(v) == Total(sorted)
            && (forall e :: e in sorted <==> e in s || e in v)
            && (Distinct(sorted) ==> Distinct(s))
            && (Distinct(sorted) ==> forall e :: e in s ==> e.path !in Paths(v))
  {
    var n := SecondPass(sorted, refuses, b);
    var tried, rest := sorted[..n], sorted[n..];
    assert sorted == tried + rest;
    KeepSplits(tried, Deletes(refuses), Refused(refuses));
    TotalAppends(tried, rest);
    TotalAppends(Keep(tried, Refused(refuses)), rest);
    if Distinct(sorted) {
      KeepAndRestDistinct(sorted, n, Refused(refuses));
      forall e, v | e in Survivors(sorted, refuses, b) && v in Evicted(sorted, refuses, b)
        ensures e.path != v.path
      {
        SurvivorIsNotEvicted(sorted, n, refuses, e, v);
      }
    }
  }

  lemma SurvivorIsNotEvicted(sorted: seq<Entry>, n: nat, refuses: set<Path>, e: Entry, v: Entry)
    requires Distinct(sorted) && n <= |sorted|
    requires e in Keep(sorted[..n], Refused(refuses)) || e in sorted[n..]
    requires v in Keep(sorted[..n], Deletes(refuses))
    ensures e.path != v.path
  {
    assert v in sorted[..n];
  }

  /** Which entries a sweep leaves, as the directory would show them if no one else deleted. */
  lemma SurvivorsAreListed(w: Sweeping)
    requires w.Happened()
    ensures Lists(Survivors(w.sorted, w.met.evict, w.b), w.kept, w.met.unread)
  {
    hide Survivors, Evicted, Keep, Total, SecondPass;
    var expires, stays := Expires(w.now, w.b.maxAge, w.met.age), Stays(w.now, w.b.maxAge, w.met.age);
    var expired, kept := Keep(w.entries, expires), Keep(w.entries, stays);
    var s, v := Survivors(w.sorted, w.met.evict, w.b), Evicted(w.sorted, w.met.evict, w.b);
    KeepDistinct(w.entries, stays);
    SurvivorsAndEvicted(w.sorted, w.met.evict, w.b);
    EvictedIs(w.sorted, w.met.evict, w.b);
    assert w.kept == w.before - Orphans(w.before, w.met, w.now) - Paths(expired) - Paths(v);
    forall e | e in s
      ensures e.path in w.kept && e.path !in w.met.unread && w.kept[e.path] == File(Bin, e.modified, e.bytes)
    {
      assert e in kept && e in w.entries;
      forall x | x in expired ensures x.path != e.path {
        if x.path == e.path { SamePathSameEntry(w.entries, x, e); }
      }
    }
    forall p | p in w.kept && p !in w.met.unread && w.kept[p].kind == Bin ensures p in Paths(s) {
      assert p in Paths(w.entries);
      var e :| e in w.entries && e.path == p;
      assert !expires(e);
      assert e in kept && e in w.sorted;
      assert e !in v;
    }
  }

  lemma EvictedIs(sorted: seq<Entry>, refuses: set<Path>, b: Budget)
    ensures Evicted(sorted, refuses, b) == Keep(sorted[..SecondPass(sorted, refuses, b)], Deletes(refuses))
  {
  }

  // ----- what a sweep guarantees -----

  /** Of the survivors those others left, and those others took. */
  function Left(taken: set<Path>): Entry -> bool {
    (e: Entry) => e.path !in taken
  }

  function Lost(taken: set<Path>): Entry -> bool {
    (e: Entry) => e.path in taken
  }

  lemma LeftIsListed(s: seq<Entry>, kept: map<Path, File>, unread: set<Path>, taken: set<Path>)
    requires Lists(s, kept, unread)
    ensures Lists(Keep(s, Left(taken)), kept - taken, unread)
  {
    var t := Keep(s, Left(taken));
    KeepDistinct(s, Left(taken));
    forall p | p in kept - taken && p !in unread && kept[p].kind == Bin ensures p in Paths(t) {
      assert p in Paths(s);
      var e :| e in s && e.path == p;
      assert e in t;
    }
  }

  /**
   What is counted as evicted and freed is what the sweep deleted, and no subtraction saturated; what
   is counted and sized as kept is what is there, and beyond it exactly the survivors others took.
   */
  lemma CountersAreTrue(w: Sweeping)
    requires w.Happened()
    ensures var s := Survivors(w.sorted, w.met.evict, w.b);
            var left, lost := Keep(s, Left(w.taken)), Keep(s, Lost(w.taken));
            && Lists(w.entries, w.before, w.met.unread) && Lists(left, w.After(), w.met.unread)
            && w.r.count == |left| + |lost| && w.r.total == Total(left) + Total(lost)
            && w.r.evicted == |w.entries| - |s| && w.r.freed == Total(w.entries) - Total(s)
  {
    hide Keep, Total, Lists;
    var s := Survivors(w.sorted, w.met.evict, w.b);
    SurvivorsAreListed(w);
    LeftIsListed(s, w.kept, w.met.unread, w.taken);
    KeepSplits(s, Left(w.taken), Lost(w.taken));
    CountersOfItsOwn(w);
  }

  lemma CountersOfItsOwn(w: Sweeping)
    requires w.Happened()
    ensures var s := Survivors(w.sorted, w.met.evict, w.b);
            && w.r.count == |s| && w.r.total == Total(s)
            && w.r.evicted == |w.entries| - |s| && w.r.freed == Total(w.entries) - Total(s)
    ensures Lists(w.entries, w.before, w.met.unread)
  {
    hide Keep, Total, Lists;
    SurvivorsAndEvicted(w.sorted, w.met.evict, w.b);
    KeepSplits(w.entries, Expires(w.now, w.b.maxAge, w.met.age), Stays(w.now, w.b.maxAge, w.met.age));
  }

  /**
   What stays is unchanged, and nothing goes but what others took, orphaned temp files, entries past
   the age limit and, over budget, entries of the second pass.
   */
  lemma NothingElseIsTouched(w: Sweeping)
    requires w.Happened()
    ensures forall p :: p in w.After() ==> p in w.before && w.After()[p] == w.before[p]
    ensures forall p :: p in w.before && p !in w.After() && p !in w.taken ==>
              && p !in w.faults.unread
              && (if w.before[p].kind == Bin then
                    || (w.now - w.before[p].modified > w.b.maxAge && p !in w.faults.age)
                    || ((Total(w.sorted) > w.b.maxBytes || |w.sorted| > w.b.maxEntries) && p !in w.faults.evict)
                  else
                    w.before[p].kind == Temp && w.now - w.before[p].modified > 15 * 60 && p !in w.faults.walk)
  {
    forall p | p in w.before && p !in w.After() && p !in w.taken
      ensures p !in w.faults.unread
      ensures if w.before[p].kind == Bin then
                || (w.now - w.before[p].modified > w.b.maxAge && p !in w.faults.age)
                || (OverBudget(w.sorted, w.b) && p !in w.faults.evict)
              else w.before[p].kind == Temp && w.now - w.before[p].modified > 15 * 60 && p !in w.faults.walk
    {
      var expired := Keep(w.entries, Expires(w.now, w.b.maxAge, w.met.age));
      if p in Paths(expired) {
        var e :| e in expired && e.path == p;
        assert e in w.entries;
      } else if p !in Orphans(w.before, w.met, w.now) {
        var v := Evicted(w.sorted, w.met.evict, w.b);
        assert p in Paths(v);
        var e :| e in v && e.path == p;
        assert e in w.sorted[..SecondPass(w.sorted, w.met.evict, w.b)];
        assert e in w.sorted && e in w.entries;
      }
    }
  }

  /** Past the age limit only what could not be read, or not be deleted when the age pass tried it, remains. */
  lemma NothingTooOld(w: Sweeping)
    requires w.Happened()
    ensures forall p :: p in w.After() && w.After()[p].kind == Bin && w.now - w.After()[p].modified > w.b.maxAge ==>
              p in w.faults.unread || p in w.faults.age
  {
    SurvivorsAreListed(w);
    hide Survivors, Swept, SecondPass, Keep, Total;
    var s := Survivors(w.sorted, w.met.evict, w.b);
    forall p | p in w.After() && w.kept[p].kind == Bin && w.now - w.kept[p].modified > w.b.maxAge
               && p !in w.faults.unread
      ensures p in w.faults.age
    {
      assert p !in w.met.unread;
      var e :| e in s && e.path == p;
      SurvivorStayed(w, e);
    }
  }

  /** A survivor past the age limit is one the age pass could not delete. */
  lemma SurvivorStayed(w: Sweeping, e: Entry)
    requires w.Happened() && e in Survivors(w.sorted, w.met.evict, w.b) && w.now - e.modified > w.b.maxAge
    ensures e.path in w.met.age
  {
    SurvivorsAndEvicted(w.sorted, w.met.evict, w.b);
    hide Survivors, SecondPass, Total, Lists;
    assert e in w.sorted;
    assert e in Keep(w.entries, Stays(w.now, w.b.maxAge, w.met.age));
  }

  /** No temp file that was more than 15 minutes old and could be read and deleted remains. */
  lemma OrphansGo(w: Sweeping)
    requires w.Happened()
    ensures forall p :: p in w.After() && w.After()[p].kind == Temp && w.now - w.After()[p].modified > 15 * 60 ==>
              p in w.faults.unread || p in w.faults.walk
  {
    hide Lists, Keep, Total, SecondPass, Survivors, Evicted;
    forall p | p in w.After() && w.kept[p].kind == Temp && w.now - w.kept[p].modified > 15 * 60
      ensures p in w.met.unread || p in w.met.walk
    {
      KeptIsNoOrphan(w, p);
    }
  }

  lemma KeptIsNoOrphan(w: Sweeping, p: Path)
    requires w.Happened() && p in w.After()
    ensures p in w.before && w.kept[p] == w.before[p] && p !in Orphans(w.before, w.met, w.now)
  {
    hide Lists, Keep, Total, SecondPass, SameEntries;
  }

  /** When the second pass's deletes are not refused, an over-budget cache ends within 90% of both ceilings. */
  lemma WithinBothTargets(w: Sweeping)
    requires w.Happened()
    requires forall e :: e in w.entries ==> e.path !in w.faults.evict
    ensures var left := Keep(Survivors(w.sorted, w.met.evict, w.b), Left(w.taken));
            && (OverBudget(w.sorted, w.b) ==> 10 * Total(left) <= 9 * w.b.maxBytes && 10 * |left| <= 9 * w.b.maxEntries)
            && (!OverBudget(w.sorted, w.b) ==> Total(left) <= w.b.maxBytes && |left| <= w.b.maxEntries)
  {
    hide Keep, Total, Lists;
    var s, n := Survivors(w.sorted, w.met.evict, w.b), SecondPass(w.sorted, w.met.evict, w.b);
    var left := Keep(s, Left(w.taken));
    CountersAreTrue(w);
    CountersOfItsOwn(w);
    if OverBudget(w.sorted, w.b) && n == |w.sorted| {
      forall e | e in s ensures e.path in w.taken {
        assert w.sorted[n..] == [];
        assert e in w.sorted[..n] && e.path in w.met.evict;
        assert e in w.sorted && e in w.entries;
      }
      NoneLeft(s, w.taken);
    } else {
      ShortestSufficientPrefix(w.sorted, w.met.evict, w.b, n);
      EvictedIs(w.sorted, w.met.evict, w.b);
      SurvivorsAndEvicted(w.sorted, w.met.evict, w.b);
    }
  }

  lemma NoneLeft(s: seq<Entry>, taken: set<Path>)
    requires forall e :: e in s ==> e.path in taken
    ensures Keep(s, Left(taken)) == [] && Total([]) == 0
  {
    KeepsAll(s, Lost(taken));
    KeepSplits(s, Left(taken), Lost(taken));
  }

  /** No entry left that the pass could read and delete was used less recently than one the second pass evicted. */
  lemma LeastRecentlyUsedGo(w: Sweeping, v: Entry, p: Path)
    requires w.Happened() && v in Evicted(w.sorted, w.met.evict, w.b)
    requires p in w.After() && w.After()[p].kind == Bin && p !in w.faults.unread && p !in w.faults.evict
    ensures v.modified <= w.After()[p].modified
  {
    SurvivorsAreListed(w);
    InOrder(w, v);
    assert p !in w.met.unread && p !in w.met.evict;
    hide Swept, SecondPass, Keep, Total;
    var e :| e in Survivors(w.sorted, w.met.evict, w.b) && e.path == p;
    OlderGoFirst(w.sorted, SecondPass(w.sorted, w.met.evict, w.b), w.met.evict, v, e);
  }

  /** A sweep that evicted in its second pass had sorted by age. */
  lemma InOrder(w: Sweeping, v: Entry)
    requires w.Happened() && v in Evicted(w.sorted, w.met.evict, w.b)
    ensures SortedByAge(w.sorted)
  {
    hide Keep, Total, Lists;
    InBudgetNoneGo(w.sorted, w.met.evict, w.b);
  }

  lemma InBudgetNoneGo(sorted: seq<Entry>, refuses: set<Path>, b: Budget)
    ensures OverBudget(sorted, b) || Evicted(sorted, refuses, b) == []
  {
  }

  lemma OlderGoFirst(sorted: seq<Entry>, n: nat, refuses: set<Path>, v: Entry, e: Entry)
    requires SortedByAge(sorted) && n <= |sorted|
    requires v in Keep(sorted[..n], Deletes(refuses))
    requires e in Keep(sorted[..n], Refused(refuses)) + sorted[n..] && e.path !in refuses
    ensures v.modified <= e.modified
  {
    assert e in sorted[n..];
    var j :| n <= j < |sorted| && sorted[j] == e;
    assert v in sorted[..n];
    var i :| 0 <= i < n && sorted[i] == v;
  }

  /**
   The second pass stops as soon as it may: before each entry it tried a target was exceeded, and
   it left entries untried only once both were met. Within budget it tries none.
   */
  lemma ShortestSufficientPrefix(sorted: seq<Entry>, refuses: set<Path>, b: Budget, m: nat)
    requires m <= SecondPass(sorted, refuses, b)
    ensures var n := SecondPass(sorted, refuses, b);
            var gone := Keep(sorted[..m], Deletes(refuses));
            var met := && Total(sorted) - Total(gone) <= b.maxBytes / 10 * 9
                       && |sorted| - |gone| <= b.maxEntries / 10 * 9;
            && (m < n ==> !met)
            && (m == n < |sorted| && (Total(sorted) > b.maxBytes || |sorted| > b.maxEntries) ==> met)
            && (Total(sorted) <= b.maxBytes && |sorted| <= b.maxEntries ==> n == 0)
  {
    if OverBudget(sorted, b) {
      TriesShortestPrefix(sorted, Deletes(refuses), Total(sorted), |sorted|, ByteTarget(b), CountTarget(b), m);
    }
  }
}
