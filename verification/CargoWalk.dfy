/**
 `cargo_source_context`: from each entry point of each manifest, the module files its declarations
 lead to, every visit charged to one budget the whole call shares.
 */
module CargoWalk {
  import opened Bytes
  import opened MemberPath

  /** One `mod` declaration: its name, the inline modules around it, a `#[path]` of its own. */
  datatype Declaration = Declaration(name: Option<string>, inline: string, path: Option<string>)

  /** What a walk runs over: the supplied files, the manifest, its directory and the entry point. */
  datatype Package = Package(files: map<string, seq<Declaration>>, manifest: string, boundary: string, entry: string)

  // ----- where a declaration leads -----

  function TrimRs(name: string): string {
    if |name| >= 3 && name[|name| - 3..] == ".rs" then TrimRs(name[..|name| - 3]) else name
  }

  function Stem(path: string): string {
    TrimRs(path[LastSlash(path)..])
  }

  /** The prefix of a declaration's candidates, as seen from the directory of the file that declares. */
  function ModuleDir(path: string, entry: string): string {
    if path == entry || Stem(path) in {"lib", "main", "mod"} then "" else Stem(path) + "/"
  }

  function Candidates(p: Package, path: string, d: Declaration): seq<string>
    requires d.name.Some?
  {
    match d.path
    case Some(spec) => [d.inline + spec]
    case None =>
      var stem := ModuleDir(path, p.entry) + d.inline + d.name.value;
      [stem + ".rs", stem + "/mod.rs"]
  }

  function Present(p: Package, path: string, specs: seq<string>): (found: seq<string>)
    ensures forall q :: q in found ==> q in p.files
  {
    if specs == [] then []
    else
      var others := Present(p, path, specs[1..]);
      match Resolve(path, specs[0], p.boundary)
      case Some(q) => if q in p.files then [q] + others else others
      case None => others
  }

  /** The one file a declaration names; `None` for no file, more than one, or no name. */
  function LeadsTo(p: Package, path: string, d: Declaration): (q: Option<string>)
    ensures q.Some? ==> q.value in p.files && d.name.Some?
  {
    if d.name.None? then None
    else
      var found := Present(p, path, Candidates(p, path, d));
      if |found| == 1 then Some(found[0]) else None
  }

  /** Every file the declarations lead to, in order. */
  function Leads(p: Package, path: string, ds: seq<Declaration>): (qs: seq<string>)
    ensures forall q :: q in qs ==> q in p.files
  {
    if ds == [] then []
    else
      var q := LeadsTo(p, path, ds[|ds| - 1]);
      Leads(p, path, ds[..|ds| - 1]) + (if q.Some? then [q.value] else [])
  }

  /** `<member>:mod <name>` for every named declaration that leads nowhere. */
  function Unresolved(p: Package, path: string, ds: seq<Declaration>): set<string> {
    if ds == [] then {}
    else
      var d := ds[|ds| - 1];
      Unresolved(p, path, ds[..|ds| - 1])
      + (if d.name.Some? && LeadsTo(p, path, d).None? then {path + ":mod " + d.name.value} else {})
  }

  /** The files led to and the lines reported, declaration by declaration. */
  lemma {:induction false} LeadsAre(p: Package, path: string, ds: seq<Declaration>, q: string)
    ensures q in Leads(p, path, ds) <==> exists d :: d in ds && LeadsTo(p, path, d) == Some(q)
    ensures q in Unresolved(p, path, ds)
            <==> exists d :: d in ds && d.name.Some? && LeadsTo(p, path, d) == None
                             && q == path + ":mod " + d.name.value
  {
    hide LeadsTo;
    if ds != [] {
      LeadsAre(p, path, ds[..|ds| - 1], q);
      assert forall d :: d in ds <==> d in ds[..|ds| - 1] || d == ds[|ds| - 1];
    }
  }

  /** How many declarations have a name. */
  function Named(ds: seq<Declaration>): nat {
    if ds == [] then 0 else Named(ds[..|ds| - 1]) + (if ds[|ds| - 1].name.Some? then 1 else 0)
  }

  // ----- what a walk should find -----

  function Modules(p: Package, m: string): seq<Declaration> {
    if m in p.files then p.files[m] else []
  }

  /** Holds the entry and everything a declaration of a member leads to. */
  ghost predicate Closed(p: Package, s: set<string>) {
    p.entry in s && forall m, q :: m in s && q in Leads(p, m, Modules(p, m)) ==> q in s
  }

  /** The files in every closed set. */
  ghost function Reach(p: Package): set<string> {
    set m | m in p.files && forall s: set<string> | Closed(p, s) :: m in s
  }

  lemma ReachIsLeastClosed(p: Package)
    requires p.entry in p.files
    ensures Closed(p, Reach(p)) && Reach(p) <= p.files.Keys
    ensures forall s: set<string> :: Closed(p, s) ==> Reach(p) <= s
  {
    var r := Reach(p);
    forall m, q | m in r && q in Leads(p, m, Modules(p, m)) ensures q in r {
      forall s: set<string> | Closed(p, s) ensures q in s {
        assert m in s;
      }
    }
  }

  // ----- what it costs -----

  ghost function Sum(p: Package, s: set<string>): nat
    decreases |s|
  {
    if s == {} then 0
    else
      var m :| m in s;
      Named(Modules(p, m)) + Sum(p, s - {m})
  }

  lemma {:induction false} SumWith(p: Package, s: set<string>, m: string)
    requires m in s
    ensures Sum(p, s) == Named(Modules(p, m)) + Sum(p, s - {m})
    decreases |s|
  {
    hide Named, Modules;
    var first :| first in s && Sum(p, s) == Named(Modules(p, first)) + Sum(p, s - {first});
    if first != m {
      SumWith(p, s - {first}, m);
      SumWith(p, s - {m}, first);
      assert s - {first} - {m} == s - {m} - {first};
    }
  }

  lemma {:induction false} SumGrows(p: Package, s: set<string>, t: set<string>)
    requires s <= t
    ensures Sum(p, s) <= Sum(p, t)
    decreases |t|
  {
    hide Named, Modules;
    if s != t {
      var m :| m in t && m !in s;
      SumWith(p, t, m);
      SumGrows(p, s, t - {m});
    }
  }

  /** The entry, and one visit for every named declaration of every file reached. */
  ghost function Cost(p: Package): nat {
    1 + Sum(p, Reach(p))
  }

  // ----- one file's declarations -----

  lemma {:induction false} LeadsAreNamed(p: Package, path: string, ds: seq<Declaration>)
    ensures |Leads(p, path, ds)| <= Named(ds)
  {
    if ds != [] { LeadsAreNamed(p, path, ds[..|ds| - 1]); }
  }

  lemma {:induction false} PrefixesAreBounded(p: Package, path: string, ds: seq<Declaration>, k: nat)
    requires k <= |ds|
    ensures Named(ds[..k]) <= Named(ds) && Unresolved(p, path, ds[..k]) <= Unresolved(p, path, ds)
    decreases |ds|
  {
    hide LeadsTo;
    if k == |ds| {
      assert ds[..k] == ds;
    } else {
      PrefixesAreBounded(p, path, ds[..|ds| - 1], k);
      assert ds[..|ds| - 1][..k] == ds[..k];
    }
  }

  lemma NoneYet(p: Package, path: string, ds: seq<Declaration>)
    ensures Leads(p, path, ds[..0]) == [] && Unresolved(p, path, ds[..0]) == {} && Named(ds[..0]) == 0
    ensures ds[..|ds|] == ds
  {
    assert ds[..|ds|] == ds;
  }

  /** What the next declaration adds, inside what all of them come to. */
  lemma OneMore(p: Package, path: string, ds: seq<Declaration>, j: nat)
    requires j < |ds|
    ensures var d, q := ds[j], LeadsTo(p, path, ds[j]);
            && (d.name.None? ==> q.None?)
            && Leads(p, path, ds[..j + 1]) == Leads(p, path, ds[..j]) + (if q.Some? then [q.value] else [])
            && Named(ds[..j + 1]) == Named(ds[..j]) + (if d.name.Some? then 1 else 0)
            && Unresolved(p, path, ds[..j + 1])
               == Unresolved(p, path, ds[..j])
                  + (if d.name.Some? && q.None? then {path + ":mod " + d.name.value} else {})
    ensures Named(ds[..j + 1]) <= Named(ds)
    ensures Unresolved(p, path, ds[..j]) <= Unresolved(p, path, ds)
  {
    assert ds[..j + 1][..j] == ds[..j];
    PrefixesAreBounded(p, path, ds, j);
    PrefixesAreBounded(p, path, ds, j + 1);
  }

  /**
   The declarations of one file, pushed as they resolve or charged as they do not; `spent` when the
   budget cannot pay for one.
   */
  method ReadModules(p: Package, path: string, pending: seq<string>, left: nat, missing: set<string>)
    returns (pushed: seq<string>, remaining: nat, reported: set<string>, spent: bool)
    ensures var ds := Modules(p, path);
            if spent then
              && remaining == 0 && left + |pushed| < |pending| + Named(ds)
              && reported <= missing + Unresolved(p, path, ds)
            else
              && pushed == pending + Leads(p, path, ds)
              && left + |pushed| == remaining + |pending| + Named(ds)
              && reported == missing + Unresolved(p, path, ds)
    ensures remaining <= left && |reported| <= |missing| + (left - remaining) && missing <= reported
    ensures |pushed| >= |pending|
  {
    hide LeadsTo, Leads, Unresolved, Named, Modules;
    var ds := Modules(p, path);
    NoneYet(p, path, ds);
    pushed, remaining, reported, spent := pending, left, missing, false;
    var j := 0;
    while j < |ds|
      invariant 0 <= j <= |ds|
      invariant pushed == pending + Leads(p, path, ds[..j])
      invariant left + |pushed| == remaining + |pending| + Named(ds[..j])
      invariant reported == missing + Unresolved(p, path, ds[..j])
      invariant remaining <= left && |reported| <= |missing| + (left - remaining)
    {
      var d := ds[j];
      OneMore(p, path, ds, j);
      if d.name.Some? {
        var found := LeadsTo(p, path, d);
        if found.Some? {
          pushed := pushed + [found.value];
        } else if remaining == 0 {
          spent := true;
          return;
        } else {
          remaining := remaining - 1;
          reported := reported + {path + ":mod " + d.name.value};
        }
      }
      j := j + 1;
    }
    assert ds[..j] == ds;
  }

  // ----- the walk -----

  /** What the declarations of `s` leave unresolved. */
  ghost function Reported(p: Package, s: set<string>): set<string> {
    set m, line | m in s && line in Unresolved(p, m, Modules(p, m)) :: line
  }

  /** What the visited files lead to is visited or pending. */
  ghost predicate Covered(p: Package, visited: set<string>, pending: seq<string>) {
    forall m, q :: m in visited && q in Leads(p, m, Modules(p, m)) ==> q in visited || q in pending
  }

  /** The walk so far: what was charged pays for every visit but those still pending. */
  ghost predicate Walking(p: Package, budget: nat, left: nat, pending: seq<string>, visited: set<string>,
                          missing: set<string>)
  {
    && left <= budget
    && visited <= Reach(p)
    && (forall q :: q in pending ==> q in Reach(p))
    && (p.entry in visited || p.entry in pending)
    && Covered(p, visited, pending)
    && budget - left + |pending| == 1 + Sum(p, visited)
    && missing == Reported(p, visited)
    && |visited| + |missing| <= budget - left
  }

  lemma Begin(p: Package, budget: nat)
    requires p.entry in p.files
    ensures Walking(p, budget, budget, [p.entry], {}, {})
  {
    hide Leads, Modules, Unresolved, Reach;
    ReachIsLeastClosed(p);
  }

  lemma PopSeen(p: Package, budget: nat, left: nat, pending: seq<string>, visited: set<string>, missing: set<string>)
    requires Walking(p, budget, left, pending, visited, missing)
    requires left > 0 && pending != [] && pending[|pending| - 1] in visited
    ensures Walking(p, budget, left - 1, pending[..|pending| - 1], visited, missing)
  {
    hide Leads, Modules, Unresolved, Reach, Sum, Reported;
    LastOut(pending);
  }

  lemma LastOut(pending: seq<string>)
    requires pending != []
    ensures forall q :: q in pending <==> q in pending[..|pending| - 1] || q == pending[|pending| - 1]
  {
    assert pending == pending[..|pending| - 1] + [pending[|pending| - 1]];
  }

  lemma PopNew(p: Package, budget: nat, left: nat, pending: seq<string>, visited: set<string>, missing: set<string>,
               pushed: seq<string>, remaining: nat, reported: set<string>)
    requires Walking(p, budget, left, pending, visited, missing) && p.entry in p.files
    requires left > 0 && pending != [] && pending[|pending| - 1] !in visited
    requires var path := pending[|pending| - 1];
             && pushed == pending[..|pending| - 1] + Leads(p, path, Modules(p, path))
             && left - 1 + |pushed| == remaining + |pending| - 1 + Named(Modules(p, path))
             && reported == missing + Unresolved(p, path, Modules(p, path))
    requires remaining <= left - 1 && |reported| <= |missing| + (left - 1 - remaining)
    ensures Walking(p, budget, remaining, pushed, visited + {pending[|pending| - 1]}, reported)
  {
    var path := pending[|pending| - 1];
    hide Leads, Modules, Unresolved, Reach, Sum, Named, Reported, Covered;
    CoveredGrows(p, visited, pending, path, pushed);
    ReportedGrows(p, visited, path);
    LeadsStayInReach(p, path);
    PushedStay(pending, Leads(p, path, Modules(p, path)), Reach(p), visited, p.entry);
    assert visited + {path} - {path} == visited;
    SumWith(p, visited + {path}, path);
  }

  lemma PushedStay(pending: seq<string>, more: seq<string>, reach: set<string>, visited: set<string>, entry: string)
    requires pending != [] && (forall q :: q in pending ==> q in reach) && (forall q :: q in more ==> q in reach)
    requires entry in visited || entry in pending
    ensures var path, pushed := pending[|pending| - 1], pending[..|pending| - 1] + more;
            && path in reach && (forall q :: q in pushed ==> q in reach)
            && (entry in visited + {path} || entry in pushed)
  {
    LastOut(pending);
  }

  lemma CoveredGrows(p: Package, visited: set<string>, pending: seq<string>, path: string, pushed: seq<string>)
    requires Covered(p, visited, pending) && pending != [] && path == pending[|pending| - 1]
    requires pushed == pending[..|pending| - 1] + Leads(p, path, Modules(p, path))
    ensures Covered(p, visited + {path}, pushed)
  {
    hide Leads, Modules;
    LastOut(pending);
  }

  lemma ReportedGrows(p: Package, visited: set<string>, path: string)
    ensures Reported(p, visited + {path}) == Reported(p, visited) + Unresolved(p, path, Modules(p, path))
  {
    hide Unresolved, Modules;
  }

  lemma LeadsStayInReach(p: Package, path: string)
    requires p.entry in p.files && path in Reach(p)
    ensures forall q :: q in Leads(p, path, Modules(p, path)) ==> q in Reach(p)
  {
    hide Leads, Modules, Reach;
    ReachIsLeastClosed(p);
  }

  lemma Done(p: Package, budget: nat, left: nat, visited: set<string>, missing: set<string>)
    requires Walking(p, budget, left, [], visited, missing) && p.entry in p.files
    ensures visited == Reach(p) && budget - left == Cost(p) && missing == Reported(p, Reach(p))
  {
    hide Leads, Modules, Unresolved, Reach, Sum, Reported;
    assert Closed(p, visited);
    ReachIsLeastClosed(p);
  }

  lemma SpentBetween(p: Package, budget: nat, pending: seq<string>, visited: set<string>, missing: set<string>)
    requires Walking(p, budget, 0, pending, visited, missing) && pending != []
    ensures budget < Cost(p) && missing <= Reported(p, Reach(p))
  {
    hide Leads, Modules, Unresolved, Reach, Sum;
    SumGrows(p, visited, Reach(p));
  }

  lemma SpentInside(p: Package, budget: nat, left: nat, pending: seq<string>, visited: set<string>,
                    missing: set<string>, reported: set<string>)
    requires Walking(p, budget, left, pending, visited, missing)
    requires pending != [] && pending[|pending| - 1] !in visited
    requires var path := pending[|pending| - 1];
             left <= Named(Modules(p, path)) && reported <= missing + Unresolved(p, path, Modules(p, path))
    ensures budget < Cost(p) && reported <= Reported(p, Reach(p))
    ensures visited + {pending[|pending| - 1]} <= Reach(p)
  {
    var path := pending[|pending| - 1];
    hide Leads, Modules, Unresolved, Reach, Sum, Named;
    assert path in pending;
    SumWith(p, visited + {path}, path);
    assert visited + {path} - {path} == visited;
    SumGrows(p, visited + {path}, Reach(p));
  }

  /** What a walk that holds `visited` has not yet visited: all it has met are reachable, and all they lead to. */
  ghost predicate StillToVisit(p: Package, visited: set<string>, rest: seq<string>) {
    && visited <= Reach(p)
    && (forall q :: q in rest ==> q in Reach(p))
    && (p.entry in visited || p.entry in rest)
    && Covered(p, visited, rest)
  }

  /** Such a walk has every member exactly when whatever it has not yet visited it has visited before. */
  lemma CompleteUnlessNew(p: Package, visited: set<string>, rest: seq<string>)
    requires p.entry in p.files && StillToVisit(p, visited, rest)
    ensures visited == Reach(p) <==> forall q :: q in rest ==> q in visited
  {
    hide Leads, Modules, Reach;
    ReachIsLeastClosed(p);
    if forall q :: q in rest ==> q in visited { assert Closed(p, visited); }
  }

  lemma CutInside(p: Package, budget: nat, left: nat, pending: seq<string>, visited: set<string>, missing: set<string>)
    requires Walking(p, budget, left, pending, visited, missing) && p.entry in p.files && pending != []
    ensures var path := pending[|pending| - 1];
            StillToVisit(p, visited + {path}, pending[..|pending| - 1] + Leads(p, path, Modules(p, path)))
  {
    var path := pending[|pending| - 1];
    hide Leads, Modules, Unresolved, Reach, Sum, Reported, Covered;
    var more := Leads(p, path, Modules(p, path));
    CoveredGrows(p, visited, pending, path, pending[..|pending| - 1] + more);
    LeadsStayInReach(p, path);
    PushedStay(pending, more, Reach(p), visited, p.entry);
  }

  /**
   One entry point's walk. It completes exactly when the budget covers its cost, and then finds the
   least closed set and every declaration that leads nowhere; cut short, it finds nothing else, and
   lacks no member but those of `rest`, which it had yet to visit.
   */
  method Visit(p: Package, budget: nat)
    returns (members: set<string>, missing: set<string>, left: nat, spent: bool, ghost rest: seq<string>)
    requires p.entry in p.files
    ensures spent <==> budget < Cost(p)
    ensures !spent ==> members == Reach(p) && missing == Reported(p, Reach(p)) && left == budget - Cost(p)
    ensures spent ==> members <= Reach(p) && missing <= Reported(p, Reach(p)) && left == 0
    ensures StillToVisit(p, members, rest) && (!spent ==> rest == [])
    ensures left <= budget && |members| + |missing| <= budget - left
    ensures budget > 0 ==> p.entry in members
  {
    hide Leads, Modules, Unresolved, Reach, Sum, Named, Cost, Reported;
    var pending := [p.entry];
    members, missing, left, spent, rest := {}, {}, budget, false, [];
    Begin(p, budget);
    while pending != []
      invariant Walking(p, budget, left, pending, members, missing) && !spent
      invariant p.entry in members || (pending == [p.entry] && left == budget)
      decreases left
    {
      if left == 0 {
        spent, rest := true, pending;
        SpentBetween(p, budget, pending, members, missing);
        return;
      }
      var path := pending[|pending| - 1];
      var others := pending[..|pending| - 1];
      if path in members {
        PopSeen(p, budget, left, pending, members, missing);
        pending, left := others, left - 1;
      } else {
        var pushed, remaining, reported, cut := ReadModules(p, path, others, left - 1, missing);
        if cut {
          SpentInside(p, budget, left, pending, members, missing, reported);
          CutInside(p, budget, left, pending, members, missing);
          rest := others + Leads(p, path, Modules(p, path));
          members, missing, left, spent := members + {path}, reported, 0, true;
          return;
        }
        PopNew(p, budget, left, pending, members, missing, pushed, remaining, reported);
        pending, left, members, missing := pushed, remaining, members + {path}, reported;
      }
    }
    Done(p, budget, left, members, missing);
  }

  /** An entry that declares one missing module, visited with a budget of one. */
  function LoneEntry(): Package {
    Package(map["lib.rs" := [Declaration(Some("a"), "", None)]], "Cargo.toml", "", "lib.rs")
  }

  /** A walk can be cut short with every member already found: here before its one unresolved declaration. */
  method CutShortYetComplete() returns (members: set<string>, spent: bool)
    ensures spent && members == Reach(LoneEntry())
  {
    hide Reported, Present, Resolve, Candidates;
    var p := LoneEntry();
    ReachIsLeastClosed(p);
    assert Reach(p) == {"lib.rs"};
    LoneEntryCosts(p);
    var missing, left;
    ghost var rest;
    members, missing, left, spent, rest := Visit(p, 1);
  }

  lemma LoneEntryCosts(p: Package)
    requires p == LoneEntry() && Reach(p) == {"lib.rs"}
    ensures Cost(p) == 2
  {
    hide Reach;
    SumWith(p, {"lib.rs"}, "lib.rs");
    assert {"lib.rs"} - {"lib.rs"} == {};
    assert Named(Modules(p, "lib.rs")) == 1 by { assert Modules(p, "lib.rs")[..0] == []; }
  }

  // ----- the whole call -----

  datatype Manifest = Manifest(path: string, entries: seq<string>)

  datatype Target = Target(manifest: string, entry: string, members: set<string>, unresolved: set<string>)

  /** The entry points of a manifest that are there, each once, in order. */
  function Entries(files: map<string, seq<Declaration>>, m: Manifest, specs: seq<string>): (entries: seq<string>)
    ensures forall e :: e in entries ==> e in files
  {
    if specs == [] then []
    else
      var before := Entries(files, m, specs[..|specs| - 1]);
      match Resolve(m.path, specs[|specs| - 1], MemberDirectory(m.path))
      case Some(e) => if e in files && e !in before then before + [e] else before
      case None => before
  }

  function Packages(files: map<string, seq<Declaration>>, m: Manifest, entries: seq<string>): (ps: seq<Package>)
    ensures |ps| == |entries|
    ensures forall k :: 0 <= k < |ps| ==> ps[k] == Package(files, m.path, MemberDirectory(m.path), entries[k])
  {
    seq(|entries|, k requires 0 <= k < |entries| => Package(files, m.path, MemberDirectory(m.path), entries[k]))
  }

  /** The walks of every manifest, in order. */
  function Walks(files: map<string, seq<Declaration>>, ms: seq<Manifest>): (ps: seq<Package>) {
    if ms == [] then []
    else
      var m := ms[|ms| - 1];
      Walks(files, ms[..|ms| - 1]) + Packages(files, m, Entries(files, m, m.entries))
  }

  /** The entry points served: those of the manifest's that resolve to a file that is there. */
  lemma {:induction false} EntriesAre(files: map<string, seq<Declaration>>, m: Manifest, specs: seq<string>, e: string)
    ensures e in Entries(files, m, specs)
            <==> e in files
                 && exists k :: 0 <= k < |specs| && Resolve(m.path, specs[k], MemberDirectory(m.path)) == Some(e)
    ensures forall i, j :: 0 <= i < j < |Entries(files, m, specs)| ==>
              Entries(files, m, specs)[i] != Entries(files, m, specs)[j]
  {
    hide Resolve, MemberDirectory;
    if specs != [] {
      var last := |specs| - 1;
      EntriesAre(files, m, specs[..last], e);
      assert forall k :: 0 <= k < last ==> specs[..last][k] == specs[k];
    }
  }

  /** There is one walk for each of them, under the directory of its manifest. */
  lemma {:induction false} WalksAre(files: map<string, seq<Declaration>>, ms: seq<Manifest>, p: Package)
    ensures p in Walks(files, ms)
            <==> exists m :: m in ms && p.entry in Entries(files, m, m.entries)
                             && p == Package(files, m.path, MemberDirectory(m.path), p.entry)
  {
    hide Entries, MemberDirectory;
    if ms != [] {
      var last := ms[|ms| - 1];
      WalksAre(files, ms[..|ms| - 1], p);
      PackagesAre(files, last, Entries(files, last, last.entries), p);
      assert forall m :: m in ms <==> m in ms[..|ms| - 1] || m == last;
    }
  }

  lemma PackagesAre(files: map<string, seq<Declaration>>, m: Manifest, entries: seq<string>, p: Package)
    ensures p in Packages(files, m, entries)
            <==> p.entry in entries && p == Package(files, m.path, MemberDirectory(m.path), p.entry)
  {
    if p.entry in entries {
      var k :| 0 <= k < |entries| && entries[k] == p.entry;
      assert Packages(files, m, entries)[k] == Package(files, m.path, MemberDirectory(m.path), entries[k]);
    }
  }

  ghost function TotalCost(ps: seq<Package>): nat {
    if ps == [] then 0 else TotalCost(ps[..|ps| - 1]) + Cost(ps[|ps| - 1])
  }

  function Listed(ts: seq<Target>): nat {
    if ts == [] then 0
    else Listed(ts[..|ts| - 1]) + |ts[|ts| - 1].members| + |ts[|ts| - 1].unresolved|
  }

  ghost predicate Within(t: Target, p: Package) {
    t.manifest == p.manifest && t.entry == p.entry && t.members <= Reach(p) && t.unresolved <= Reported(p, Reach(p))
  }

  ghost predicate Complete(t: Target, p: Package) {
    t.manifest == p.manifest && t.entry == p.entry && t.members == Reach(p) && t.unresolved == Reported(p, Reach(p))
  }

  /** The targets of `ps` in order, with `left` of the budget unspent. */
  ghost predicate Served(ps: seq<Package>, ts: seq<Target>, budget: nat, left: nat, truncated: bool) {
    && |ts| == |ps|
    && (forall k :: 0 <= k < |ps| ==> Within(ts[k], ps[k]))
    && (truncated <==> budget < TotalCost(ps))
    && (truncated ==> left == 0)
    && (!truncated ==> left == budget - TotalCost(ps) && forall k :: 0 <= k < |ps| ==> Complete(ts[k], ps[k]))
    && Listed(ts) + left <= budget
  }

  lemma ServedGrows(ps: seq<Package>, ts: seq<Target>, budget: nat, left: nat, truncated: bool, p: Package, t: Target,
                    remaining: nat, spent: bool)
    requires Served(ps, ts, budget, left, truncated)
    requires spent <==> left < Cost(p)
    requires if spent then Within(t, p) && remaining == 0 else Complete(t, p) && remaining == left - Cost(p)
    requires remaining <= left && |t.members| + |t.unresolved| <= left - remaining
    ensures Served(ps + [p], ts + [t], budget, remaining, truncated || spent)
  {
    hide Reach, Reported, Within, Complete, Cost;
    assert (ps + [p])[..|ps|] == ps && (ts + [t])[..|ts|] == ts;
    CompleteIsWithin(t, p);
    CostIsPositive(p);
  }

  lemma CompleteIsWithin(t: Target, p: Package)
    ensures Complete(t, p) ==> Within(t, p)
  {
  }

  lemma CostIsPositive(p: Package)
    ensures Cost(p) >= 1
  {
  }

  /**
   Every target of every manifest under one budget. Nothing outside the reachable files is ever
   listed, what is listed never outnumbers the budget, and the call reports truncation exactly when
   the budget falls short of what all the walks cost; otherwise every target is complete.
   */
  method SourceContext(files: map<string, seq<Declaration>>, manifests: seq<Manifest>, maxVisits: nat)
    returns (targets: seq<Target>, truncated: bool)
    ensures var walks := Walks(files, manifests);
            && |targets| == |walks|
            && (forall k :: 0 <= k < |walks| ==> Within(targets[k], walks[k]))
            && (truncated <==> maxVisits < TotalCost(walks))
            && (!truncated ==> forall k :: 0 <= k < |walks| ==> Complete(targets[k], walks[k]))
            && Listed(targets) <= maxVisits
  {
    hide Within, Complete, TotalCost, Listed, Cost, Resolve, Packages;
    targets, truncated := [], false;
    var remaining := maxVisits;
    NothingServed(maxVisits);
    var i := 0;
    while i < |manifests|
      invariant 0 <= i <= |manifests|
      invariant Served(Walks(files, manifests[..i]), targets, maxVisits, remaining, truncated)
    {
      var m := manifests[i];
      assert manifests[..i + 1][..i] == manifests[..i];
      targets, remaining, truncated :=
        Serve(files, m, Walks(files, manifests[..i]), targets, maxVisits, remaining, truncated);
      i := i + 1;
    }
    assert manifests[..i] == manifests;
  }

  lemma NothingServed(budget: nat)
    ensures Served([], [], budget, budget, false)
  {
  }

  /** One manifest's entries, each served once. */
  method Serve(files: map<string, seq<Declaration>>, m: Manifest, ghost before: seq<Package>, listed: seq<Target>,
               ghost budget: nat, left: nat, wasTruncated: bool)
    returns (targets: seq<Target>, remaining: nat, truncated: bool)
    requires Served(before, listed, budget, left, wasTruncated)
    ensures Served(before + Packages(files, m, Entries(files, m, m.entries)), targets, budget, remaining, truncated)
  {
    hide Within, Complete, TotalCost, Listed, Cost, Resolve, Served, StillToVisit, Reach, Reported;
    targets, remaining, truncated := listed, left, wasTruncated;
    var boundary := MemberDirectory(m.path);
    var seen: seq<string> := [];
    assert before + Packages(files, m, []) == before;
    var j := 0;
    while j < |m.entries|
      invariant 0 <= j <= |m.entries|
      invariant seen == Entries(files, m, m.entries[..j])
      invariant Served(before + Packages(files, m, seen), targets, budget, remaining, truncated)
    {
      assert m.entries[..j + 1][..j] == m.entries[..j];
      var entry := Resolve(m.path, m.entries[j], boundary);
      if entry.Some? && entry.value in files && entry.value !in seen {
        var p := Package(files, m.path, boundary, entry.value);
        var members, missing, rest, spent;
        ghost var unvisited;
        members, missing, rest, spent, unvisited := Visit(p, remaining);
        var t := Target(m.path, entry.value, members, missing);
        Outcome(t, p, spent);
        ServedGrows(before + Packages(files, m, seen), targets, budget, remaining, truncated, p, t, rest, spent);
        assert before + Packages(files, m, seen + [entry.value]) == before + Packages(files, m, seen) + [p];
        seen := seen + [entry.value];
        targets, remaining, truncated := targets + [t], rest, truncated || spent;
      }
      j := j + 1;
    }
    assert m.entries[..j] == m.entries;
  }

  lemma Outcome(t: Target, p: Package, spent: bool)
    requires t.manifest == p.manifest && t.entry == p.entry
    requires if spent then t.members <= Reach(p) && t.unresolved <= Reported(p, Reach(p))
             else t.members == Reach(p) && t.unresolved == Reported(p, Reach(p))
    ensures if spent then Within(t, p) else Complete(t, p)
  {
  }

  /** All of a walk's files have the package's boundary as a prefix when its entry has. */
  lemma MembersStayInside(p: Package)
    requires p.entry in p.files && HasPrefix(p.entry, p.boundary)
    ensures forall m :: m in Reach(p) ==> HasPrefix(m, p.boundary)
  {
    hide Leads, Modules, Reach;
    ReachIsLeastClosed(p);
    var inside := set m | m in Reach(p) && HasPrefix(m, p.boundary);
    forall m, q | m in inside && q in Leads(p, m, Modules(p, m)) ensures q in inside {
      LeadsStayInside(p, m, Modules(p, m), q);
    }
    assert Closed(p, inside);
  }

  lemma {:induction false} LeadsStayInside(p: Package, path: string, ds: seq<Declaration>, q: string)
    requires q in Leads(p, path, ds)
    ensures HasPrefix(q, p.boundary)
  {
    var d := ds[|ds| - 1];
    var last := LeadsTo(p, path, d);
    if last.Some? && last.value == q {
      var found := Present(p, path, Candidates(p, path, d));
      assert q in found;
      PresentIsInside(p, path, Candidates(p, path, d), q);
    } else {
      LeadsStayInside(p, path, ds[..|ds| - 1], q);
    }
  }

  lemma {:induction false} PresentIsInside(p: Package, path: string, specs: seq<string>, q: string)
    requires q in Present(p, path, specs)
    ensures HasPrefix(q, p.boundary)
  {
    if Resolve(path, specs[0], p.boundary) == Some(q) {
      var kept := ResolvedStaysInside(path, specs[0], p.boundary);
    } else {
      PresentIsInside(p, path, specs[1..], q);
    }
  }

  // ----- which file a declaration names -----

  /** The supplied file a reference names, if there is one. */
  function There(p: Package, path: string, spec: string): Option<string> {
    match Resolve(path, spec, p.boundary)
    case Some(q) => if q in p.files then Some(q) else None
    case None => None
  }

  lemma OneCandidate(p: Package, path: string, spec: string)
    ensures Present(p, path, [spec]) == if There(p, path, spec).Some? then [There(p, path, spec).value] else []
  {
    hide Resolve;
    assert [spec][1..] == [];
  }

  lemma TwoCandidates(p: Package, path: string, x: string, y: string)
    ensures Present(p, path, [x, y])
            == (if There(p, path, x).Some? then [There(p, path, x).value] else []) + Present(p, path, [y])
  {
    hide Resolve;
    assert [x, y][1..] == [y];
  }

  /**
   A declaration leads to the file its `#[path]` names, or else to whichever of `<name>.rs` and
   `<name>/mod.rs` is there; nowhere when the named file is not there, or both or neither of the two are.
   */
  lemma LeadsToTheOneThere(p: Package, path: string, d: Declaration)
    requires d.name.Some?
    ensures var stem := ModuleDir(path, p.entry) + d.inline + d.name.value;
            var plain, nested := There(p, path, stem + ".rs"), There(p, path, stem + "/mod.rs");
            LeadsTo(p, path, d)
            == if d.path.Some? then There(p, path, d.inline + d.path.value)
               else if plain.Some? && nested.Some? then None
               else if plain.Some? then plain
               else nested
  {
    hide There, Present, ModuleDir;
    if d.path.Some? {
      OneCandidate(p, path, d.inline + d.path.value);
    } else {
      var stem := ModuleDir(path, p.entry) + d.inline + d.name.value;
      TwoCandidates(p, path, stem + ".rs", stem + "/mod.rs");
      OneCandidate(p, path, stem + "/mod.rs");
    }
  }

  /** Which files those are, for a module whose name and enclosing inline modules only go down. */
  lemma ModuleFiles(p: Package, levels: seq<string>, file: string, d: Declaration)
    requires AreLevels(levels) && Without(file, '/') && d.name.Some?
    requires var stem := ModuleDir(p.boundary + Dir(levels) + file, p.entry) + d.inline + d.name.value;
             GoesDown(stem + ".rs") && GoesDown(stem + "/mod.rs")
    ensures var path := p.boundary + Dir(levels) + file;
            var stem := ModuleDir(path, p.entry) + d.inline + d.name.value;
            var plain := p.boundary + Dir(levels) + (stem + ".rs");
            var nested := p.boundary + Dir(levels) + (stem + "/mod.rs");
            && There(p, path, stem + ".rs") == (if plain in p.files then Some(plain) else None)
            && There(p, path, stem + "/mod.rs") == (if nested in p.files then Some(nested) else None)
  {
    hide Resolve, GoesDown, ModuleDir, Dir;
    var stem := ModuleDir(p.boundary + Dir(levels) + file, p.entry) + d.inline + d.name.value;
    GoingDownAppends(p.boundary, levels, file, stem + ".rs");
    GoingDownAppends(p.boundary, levels, file, stem + "/mod.rs");
  }

  /** The module directory of `stem.rs` is `stem/`; of an entry point or a `lib`, `main` or `mod` it is its own. */
  lemma ModuleDirectories(boundary: string, levels: seq<string>, stem: string, entry: string)
    requires AreLevels(levels) && Without(stem, '/')
    requires (boundary == "" || boundary[|boundary| - 1] == '/')
    requires !(|stem| >= 3 && stem[|stem| - 3..] == ".rs")
    ensures var path := boundary + Dir(levels) + (stem + ".rs");
            ModuleDir(path, entry) == if path == entry || stem in {"lib", "main", "mod"} then "" else stem + "/"
  {
    hide Dir, Stem;
    var path := boundary + Dir(levels) + (stem + ".rs");
    DirEnds(levels);
    StemIs(boundary + Dir(levels), stem);
  }

  lemma StemIs(dir: string, stem: string)
    requires (dir == "" || dir[|dir| - 1] == '/') && Without(stem, '/')
    requires !(|stem| >= 3 && stem[|stem| - 3..] == ".rs")
    ensures Stem(dir + (stem + ".rs")) == stem
  {
    hide LastSlash, TrimRs;
    var path := dir + (stem + ".rs");
    DirectoryOf(dir, stem + ".rs");
    assert |MemberDirectory(path)| == LastSlash(path);
    assert path[|dir|..] == stem + ".rs";
    TrimmedIs(stem);
  }

  lemma TrimmedIs(stem: string)
    requires !(|stem| >= 3 && stem[|stem| - 3..] == ".rs")
    ensures TrimRs(stem + ".rs") == stem
  {
    assert (stem + ".rs")[|stem|..] == ".rs" && (stem + ".rs")[..|stem|] == stem;
    assert TrimRs(stem) == stem;
  }

  lemma DirEnds(levels: seq<string>)
    ensures Dir(levels) == "" || Dir(levels)[|Dir(levels)| - 1] == '/'
  {
  }
}
