/**
 `reconcile`: what one required Go module settles to, given the directives of its context, the
 checksums and the members. The answer is proved to be a function of those as sets.
 */
module GoReconcile {
  import opened Bytes
  import opened MemberPath

  const MOD := "go.mod"
  const SUM := "go.sum"
  const MOD_REPLACE := "go.mod.replace"
  const WORK_REPLACE := "go.work.replace"
  const MOD_EXCLUDE := "go.mod.exclude"
  const INCOMPLETE := "go.manifest.incomplete"

  datatype Locator = Purl(text: string) | Url(text: string) | Path(text: string)

  datatype Kind = Dependency | Local | Other(name: string)

  datatype Reason =
    | Manifest | ExcludedMinimum | Replacement | ReplacementConflict | LocalBoundary | LocalMissing
    | ChecksumConflict | ContextBudget | VendorMetadata | VendorMissing | VendorUnlisted

  datatype Resolution = DeclaredMinimum | Replaced | Vendored | Unresolved(reason: Reason)

  /** What a `replace` directive replaces: a module, at one version or at every one. */
  datatype ReplacedModule = ReplacedModule(name: string, version: Option<string>)

  datatype Reference = Reference(locator: Locator, kind: Kind, source: string, evidence: string, offset: Option<nat>,
                                 pinnedHash: Option<string>, contentSha256: Option<string>,
                                 resolution: Option<Resolution>, replaced: Option<ReplacedModule>)

  datatype Member = Member(path: string, references: seq<Reference>)

  /** A reference of the context, with the member that holds it and whether that is the workspace. */
  datatype Fact = Fact(workspace: bool, owner: string, r: Reference)

  // ----- paths and coordinates -----

  function LastOf(s: string, c: char): (at: Option<nat>)
    ensures at.Some? ==> at.value < |s| && s[at.value] == c
  {
    if s == "" then None
    else if s[|s| - 1] == c then Some(|s| - 1)
    else LastOf(s[..|s| - 1], c)
  }

  const GOLANG := "pkg:golang/"

  /** The module and version of a Go package URL. */
  function Coordinate(r: Reference): Option<(string, string)> {
    if !r.locator.Purl? || !HasPrefix(r.locator.text, GOLANG) then None
    else
      var rest := r.locator.text[|GOLANG|..];
      match LastOf(rest, '@')
      case None => None
      case Some(at) => Some((rest[..at], rest[at + 1..]))
  }

  predicate HasSuffix(s: string, suffix: string) {
    |suffix| <= |s| && s[|s| - |suffix|..] == suffix
  }

  /** A local directive's path, applied to the directory of the member `owner`. */
  function LocalModule(owner: string, spec: string): Option<string> {
    JoinRelative(MemberDirectory(owner), spec)
  }

  predicate IsModuleManifest(path: string, dir: string) {
    if HasSuffix(path, "/go.mod") then path[..|path| - 7] == dir else path == "go.mod" && dir == ""
  }

  /** A package URL is read as the module and version it was written from, and from nothing else. */
  lemma CoordinateIsExact(r: Reference, name: string, version: string)
    ensures Coordinate(r) == Some((name, version))
            <==> r.locator == Purl(GOLANG + name + "@" + version) && Without(version, '@')
  {
    hide HasPrefix, LastOf, Without;
    if r.locator.Purl? {
      BehindPrefix(r.locator.text, GOLANG, name, version);
      if HasPrefix(r.locator.text, GOLANG) {
        PrefixFits(r.locator.text, GOLANG);
        LastOfIs(r.locator.text[|GOLANG|..], '@', name, version);
      }
    }
  }

  lemma PrefixFits(text: string, prefix: string)
    requires HasPrefix(text, prefix)
    ensures |prefix| <= |text|
  {
  }

  lemma BehindPrefix(text: string, prefix: string, name: string, version: string)
    ensures text == prefix + name + "@" + version
            <==> HasPrefix(text, prefix) && text[|prefix|..] == name + ['@'] + version
  {
    if HasPrefix(text, prefix) { assert text == prefix + text[|prefix|..]; }
    assert prefix + name + "@" + version == prefix + (name + ['@'] + version);
  }

  lemma {:induction false} LastOfIs(s: string, c: char, before: string, behind: string)
    ensures LastOf(s, c) == Some(|before|) && s[..|before|] == before && s[|before| + 1..] == behind
            <==> s == before + [c] + behind && Without(behind, c)
  {
    LastOfFinds(s, c);
    if s == before + [c] + behind && Without(behind, c) {
      assert s[|before|] == c;
      assert forall k :: |before| < k < |s| ==> s[k] == behind[k - |before| - 1];
    }
  }

  lemma {:induction false} LastOfFinds(s: string, c: char)
    ensures match LastOf(s, c)
            case None => Without(s, c)
            case Some(at) => forall k :: at < k < |s| ==> s[k] != c
    decreases |s|
  {
    if s != "" && s[|s| - 1] != c { LastOfFinds(s[..|s| - 1], c); }
  }

  /** A directory's manifest is the `go.mod` in it. */
  lemma ManifestOfDirectory(path: string, dir: string)
    ensures IsModuleManifest(path, dir) <==> path == dir + "/go.mod" || (dir == "" && path == "go.mod")
  {
    if HasSuffix(path, "/go.mod") { assert path == path[..|path| - 7] + "/go.mod"; }
    if path == dir + "/go.mod" { assert path[|path| - 7..] == "/go.mod"; }
  }

  function Unsettled(r: Reference, reason: Reason): Reference {
    r.(resolution := Some(Unresolved(reason)))
  }

  // ----- the directives that match -----

  predicate IsReplace(r: Reference) {
    r.source == MOD_REPLACE || r.source == WORK_REPLACE
  }

  predicate Matches(f: Fact, name: string, version: string) {
    IsReplace(f.r) && f.r.replaced.Some? && f.r.replaced.value.name == name
    && (f.r.replaced.value.version.Some? ==> f.r.replaced.value.version.value == version)
  }

  /** The sort key: the workspace before its modules, one version before every version. */
  function Rank(f: Fact): nat {
    (if f.workspace then 2 else 0) + (if f.r.replaced.Some? && f.r.replaced.value.version.Some? then 1 else 0)
  }

  function Matching(fs: seq<Fact>, name: string, version: string): (ms: seq<Fact>)
    ensures forall f :: f in ms <==> f in fs && Matches(f, name, version)
  {
    if fs == [] then []
    else
      var last := fs[|fs| - 1];
      assert fs == fs[..|fs| - 1] + [last];
      Matching(fs[..|fs| - 1], name, version) + (if Matches(last, name, version) then [last] else [])
  }

  function OfRank(fs: seq<Fact>, rank: nat): (ms: seq<Fact>)
    ensures forall f :: f in ms <==> f in fs && Rank(f) == rank
  {
    if fs == [] then []
    else
      assert fs == [fs[0]] + fs[1..];
      (if Rank(fs[0]) == rank then [fs[0]] else []) + OfRank(fs[1..], rank)
  }

  /** The stable sort by rank. */
  function Sorted(fs: seq<Fact>): seq<Fact> {
    OfRank(fs, 0) + OfRank(fs, 1) + OfRank(fs, 2) + OfRank(fs, 3)
  }

  lemma {:induction false} SortedHoldsAll(fs: seq<Fact>)
    ensures multiset(Sorted(fs)) == multiset(fs)
  {
    hide Rank, OfRank;
    if fs == [] {
      SortedNothing();
    } else {
      SortedHoldsAll(fs[1..]);
      var first := fs[0];
      assert fs == [first] + fs[1..];
      OneOfRank(fs, 0);
      OneOfRank(fs, 1);
      OneOfRank(fs, 2);
      OneOfRank(fs, 3);
      RankIsSmall(first);
    }
  }

  lemma SortedNothing()
    ensures Sorted([]) == []
  {
  }

  lemma OneOfRank(fs: seq<Fact>, rank: nat)
    requires fs != []
    ensures multiset(OfRank(fs, rank))
            == multiset(if Rank(fs[0]) == rank then [fs[0]] else []) + multiset(OfRank(fs[1..], rank))
  {
  }

  lemma RankIsSmall(f: Fact)
    ensures 0 <= Rank(f) <= 3
  {
  }

  lemma SortedIsOrdered(fs: seq<Fact>, i: nat, j: nat)
    requires i <= j < |Sorted(fs)|
    ensures Rank(Sorted(fs)[i]) <= Rank(Sorted(fs)[j])
  {
    var a, b, c, d := OfRank(fs, 0), OfRank(fs, 1), OfRank(fs, 2), OfRank(fs, 3);
    RankOfPart(a, b, c, d, i);
    RankOfPart(a, b, c, d, j);
  }

  lemma RankOfPart(a: seq<Fact>, b: seq<Fact>, c: seq<Fact>, d: seq<Fact>, i: nat)
    requires forall f :: f in a ==> Rank(f) == 0
    requires forall f :: f in b ==> Rank(f) == 1
    requires forall f :: f in c ==> Rank(f) == 2
    requires forall f :: f in d ==> Rank(f) == 3
    requires i < |a + b + c + d|
    ensures Rank((a + b + c + d)[i])
            == if i < |a| then 0 else if i < |a| + |b| then 1 else if i < |a| + |b| + |c| then 2 else 3
  {
    hide Rank;
    var f := (a + b + c + d)[i];
    if i < |a| { assert f == a[i]; }
    else if i < |a| + |b| { assert f == b[i - |a|]; }
    else if i < |a| + |b| + |c| { assert f == c[i - |a| - |b|]; }
    else { assert f == d[i - |a| - |b| - |c|]; }
  }

  // ----- what a reference settles to -----

  predicate IsPin(p: Reference, locator: Locator) {
    p.source == SUM && p.locator == locator
  }

  function Pins(sums: seq<Reference>, locator: Locator): (pins: seq<Reference>)
    ensures forall p :: p in pins <==> p in sums && IsPin(p, locator)
  {
    if sums == [] then []
    else
      assert sums == [sums[0]] + sums[1..];
      (if IsPin(sums[0], locator) then [sums[0]] else []) + Pins(sums[1..], locator)
  }

  /** `value` with the checksum its locator is pinned to, unless the pins disagree. */
  function Pinned(r: Reference, value: Reference, sums: seq<Reference>): Reference {
    var pins := Pins(sums, value.locator);
    if pins == [] then value
    else if exists p :: p in pins && p.pinnedHash != pins[0].pinnedHash then Unsettled(r, ChecksumConflict)
    else value.(pinnedHash := pins[0].pinnedHash)
  }

  /** Equal priority, but another target: another locator, or a path in another member. */
  predicate Disagree(f: Fact, g: Fact) {
    f.r.locator != g.r.locator || (f.r.locator.Path? && f.owner != g.owner)
  }

  predicate HasModule(paths: seq<string>, dir: string) {
    exists path :: path in paths && IsModuleManifest(path, dir)
  }

  function Redirected(r: Reference, f: Fact): Reference {
    r.(resolution := Some(Replaced), locator := f.r.locator, pinnedHash := None, contentSha256 := None,
       source := f.r.source, evidence := r.evidence + "; " + f.owner + ": " + f.r.evidence)
  }

  /** `r` follows `f`: to a module of the artifact, or to another package and its checksum. */
  function Followed(r: Reference, f: Fact, sums: seq<Reference>, paths: seq<string>): Reference {
    if f.r.locator.Path? then
      match LocalModule(f.owner, f.r.locator.text)
      case None => Unsettled(r, LocalBoundary)
      case Some(dir) =>
        if !HasModule(paths, dir) then Unsettled(r, LocalMissing) else Redirected(r, f).(kind := Local)
    else Pinned(r, Redirected(r, f), sums)
  }

  predicate IsRequirement(r: Reference) {
    r.source == MOD && r.kind == Dependency && Coordinate(r).Some?
  }

  /** A directive among `fs` that rules `r` out before any replacement is looked at. */
  function Obstacle(r: Reference, fs: seq<Fact>): Option<Reason> {
    if exists f :: f in fs && f.r.source == INCOMPLETE then Some(Manifest)
    else if exists f :: f in fs && f.r.source == MOD_EXCLUDE && f.r.locator == r.locator then Some(ExcludedMinimum)
    else if exists f :: f in fs && IsReplace(f.r) && f.r.replaced.None? then Some(Replacement)
    else None
  }

  function Reconciled(r: Reference, fs: seq<Fact>, sums: seq<Reference>, paths: seq<string>): Reference {
    if !IsRequirement(r) then r
    else
      var obstacle := Obstacle(r, fs);
      if obstacle.Some? then Unsettled(r, obstacle.value)
      else
        var (name, version) := Coordinate(r).value;
        Resettled(r, Sorted(Matching(fs, name, version)), sums, paths)
  }

  /** `sorted` holds the matching directives, weakest first. */
  function Resettled(r: Reference, sorted: seq<Fact>, sums: seq<Reference>, paths: seq<string>): Reference {
    if sorted == [] then Pinned(r, r.(resolution := Some(DeclaredMinimum)), sums)
    else
      var top := sorted[|sorted| - 1];
      var peers := OfRank(sorted, Rank(top));
      if exists p :: p in peers && Disagree(p, top) then Unsettled(r, ReplacementConflict)
      else Followed(r, top, sums, paths)
  }

  // ----- the answer as a function of sets -----

  /** What a consumer acts on. */
  datatype Outcome = Outcome(resolution: Option<Resolution>, kind: Kind, locator: Locator, pinnedHash: Option<string>)

  function OutcomeOf(r: Reference): Outcome {
    Outcome(r.resolution, r.kind, r.locator, r.pinnedHash)
  }

  ghost function PinnedOutcome(r: Reference, out: Outcome, sums: set<Reference>): Outcome {
    var hashes := set p | p in sums && p.source == SUM && p.locator == out.locator :: p.pinnedHash;
    if hashes == {} then out
    else if exists h, k :: h in hashes && k in hashes && h != k then OutcomeOf(Unsettled(r, ChecksumConflict))
    else
      var h :| h in hashes;
      out.(pinnedHash := h)
  }

  ghost function FollowedOutcome(r: Reference, f: Fact, sums: set<Reference>, paths: set<string>): Outcome {
    if f.r.locator.Path? then
      match LocalModule(f.owner, f.r.locator.text)
      case None => OutcomeOf(Unsettled(r, LocalBoundary))
      case Some(dir) =>
        if exists path :: path in paths && IsModuleManifest(path, dir) then
          Outcome(Some(Replaced), Local, f.r.locator, None)
        else OutcomeOf(Unsettled(r, LocalMissing))
    else PinnedOutcome(r, Outcome(Some(Replaced), r.kind, f.r.locator, None), sums)
  }

  /** A directive for the module at every version, or at this one. */
  predicate Directs(f: Fact, name: string, version: string) {
    && (f.r.source == MOD_REPLACE || f.r.source == WORK_REPLACE)
    && (f.r.replaced == Some(ReplacedModule(name, None)) || f.r.replaced == Some(ReplacedModule(name, Some(version))))
  }

  predicate NamesAVersion(f: Fact) {
    f.r.replaced.Some? && f.r.replaced.value.version.Some?
  }

  /** The workspace's before any module's; of two of the workspace or of modules, the one that names a version. */
  predicate Outranks(f: Fact, g: Fact) {
    if f.workspace == g.workspace then NamesAVersion(f) && !NamesAVersion(g) else f.workspace
  }

  /** The directives for it that no other directive for it outranks. */
  ghost function Strongest(facts: set<Fact>, name: string, version: string): set<Fact> {
    set f | f in facts && Directs(f, name, version)
            && forall g :: g in facts && Directs(g, name, version) ==> !Outranks(g, f)
  }

  lemma MatchesIsDirects(f: Fact, name: string, version: string)
    ensures Matches(f, name, version) <==> Directs(f, name, version)
  {
  }

  /** The sort key says who outranks whom, and two of one key are peers. */
  lemma RankIsTheOrder(f: Fact, g: Fact)
    ensures Rank(g) < Rank(f) <==> Outranks(f, g)
    ensures Rank(g) == Rank(f) <==> !Outranks(f, g) && !Outranks(g, f)
  {
  }

  /** What `r` must settle to. */
  ghost function Verdict(r: Reference, facts: set<Fact>, sums: set<Reference>, paths: set<string>): Outcome {
    if r.source != MOD || r.kind != Dependency || Coordinate(r).None? then OutcomeOf(r)
    else if exists f :: f in facts && f.r.source == INCOMPLETE then OutcomeOf(Unsettled(r, Manifest))
    else if exists f :: f in facts && f.r.source == MOD_EXCLUDE && f.r.locator == r.locator then
      OutcomeOf(Unsettled(r, ExcludedMinimum))
    else if exists f ::
              f in facts && (f.r.source == MOD_REPLACE || f.r.source == WORK_REPLACE) && f.r.replaced.None? then
      OutcomeOf(Unsettled(r, Replacement))
    else
      var (name, version) := Coordinate(r).value;
      StrongestVerdict(r, Strongest(facts, name, version), sums, paths)
  }

  /** One package, or one path seen from one member. */
  predicate SameTarget(f: Fact, g: Fact) {
    f.r.locator == g.r.locator && (f.r.locator.Path? ==> f.owner == g.owner)
  }

  /** With the strongest directives in hand: none, some that disagree, or one target. */
  ghost function StrongestVerdict(r: Reference, top: set<Fact>, sums: set<Reference>, paths: set<string>): Outcome {
    if top == {} then PinnedOutcome(r, Outcome(Some(DeclaredMinimum), r.kind, r.locator, r.pinnedHash), sums)
    else if exists f, g :: f in top && g in top && !SameTarget(f, g) then
      OutcomeOf(Unsettled(r, ReplacementConflict))
    else
      var f :| f in top;
      FollowedOutcome(r, f, sums, paths)
  }

  ghost function SetOf<T(!new)>(s: seq<T>): (r: set<T>)
    ensures forall x :: x in r <==> x in s
  {
    set x | x in s
  }

  lemma PinsAgree(r: Reference, value: Reference, sums: seq<Reference>)
    ensures OutcomeOf(Pinned(r, value, sums)) == PinnedOutcome(r, OutcomeOf(value), SetOf(sums))
  {
    var pins := Pins(sums, value.locator);
    var hashes := set p | p in SetOf(sums) && p.source == SUM && p.locator == value.locator :: p.pinnedHash;
    assert forall p :: p in pins ==> p.pinnedHash in hashes;
    if pins != [] { assert pins[0] in pins; }
  }

  lemma FollowAgrees(r: Reference, f: Fact, sums: seq<Reference>, paths: seq<string>)
    ensures OutcomeOf(Followed(r, f, sums, paths)) == FollowedOutcome(r, f, SetOf(sums), SetOf(paths))
  {
    hide Pinned, PinnedOutcome, LocalModule, IsModuleManifest;
    PinsAgree(r, Redirected(r, f), sums);
  }

  /** The last of the sorted directives is one of the strongest, and its peers are the strongest. */
  lemma LastIsStrongest(fs: seq<Fact>, name: string, version: string)
    ensures var sorted, top := Sorted(Matching(fs, name, version)), Strongest(SetOf(fs), name, version);
            if sorted == [] then top == {}
            else
              var last := sorted[|sorted| - 1];
              last in top && forall f :: f in OfRank(sorted, Rank(last)) <==> f in top
  {
    hide Matching, OfRank, Sorted, Rank, Matches, Directs, Outranks;
    var ms := Matching(fs, name, version);
    var sorted := Sorted(ms);
    SortedHoldsAll(ms);
    SameElements(sorted, ms);
    forall f ensures Matches(f, name, version) <==> Directs(f, name, version) { MatchesIsDirects(f, name, version); }
    if sorted != [] {
      var last := sorted[|sorted| - 1];
      assert last in sorted;
      forall f | f in sorted ensures Rank(f) <= Rank(last) {
        var i :| 0 <= i < |sorted| && sorted[i] == f;
        SortedIsOrdered(ms, i, |sorted| - 1);
      }
      PeersAreStrongest(fs, sorted, name, version);
    } else {
      NothingStrongest(fs, name, version);
    }
  }

  /** Whoever is of the last's rank is outranked by none, and whoever is not, by the last. */
  lemma PeersAreStrongest(fs: seq<Fact>, sorted: seq<Fact>, name: string, version: string)
    requires sorted != [] && forall f :: f in sorted <==> f in fs && Directs(f, name, version)
    requires forall f :: f in sorted ==> Rank(f) <= Rank(sorted[|sorted| - 1])
    ensures forall f :: f in OfRank(sorted, Rank(sorted[|sorted| - 1])) <==> f in Strongest(SetOf(fs), name, version)
  {
    hide Rank, Directs, Outranks, OfRank;
    var last := sorted[|sorted| - 1];
    assert last in sorted;
    forall f, g ensures Rank(g) < Rank(f) <==> Outranks(f, g) { RankIsTheOrder(f, g); }
  }

  lemma SameElements(a: seq<Fact>, b: seq<Fact>)
    requires multiset(a) == multiset(b)
    ensures forall f :: f in a <==> f in b
  {
    forall f ensures f in a <==> f in b {
      assert f in a <==> f in multiset(a);
    }
  }

  lemma NothingStrongest(fs: seq<Fact>, name: string, version: string)
    requires Sorted(Matching(fs, name, version)) == []
    ensures Strongest(SetOf(fs), name, version) == {}
  {
    hide Matching, OfRank, Sorted, Rank, Matches, Directs, Outranks;
    var ms := Matching(fs, name, version);
    SortedHoldsAll(ms);
    SameElements(Sorted(ms), ms);
    forall f ensures Matches(f, name, version) <==> Directs(f, name, version) { MatchesIsDirects(f, name, version); }
  }

  /** What a reference settles to depends on the sets of directives, checksums and members alone. */
  lemma SettlesByVerdict(r: Reference, fs: seq<Fact>, sums: seq<Reference>, paths: seq<string>)
    ensures OutcomeOf(Reconciled(r, fs, sums, paths)) == Verdict(r, SetOf(fs), SetOf(sums), SetOf(paths))
  {
    hide Matching, OfRank, Sorted, Rank, Strongest, Pinned, PinnedOutcome, Followed, FollowedOutcome, Coordinate,
      Disagree;
    if IsRequirement(r) && Obstacle(r, fs).None? {
      var (name, version) := Coordinate(r).value;
      LastIsStrongest(fs, name, version);
      ResettlesByVerdict(r, Sorted(Matching(fs, name, version)), Strongest(SetOf(fs), name, version), sums, paths);
    }
  }

  lemma ResettlesByVerdict(r: Reference, sorted: seq<Fact>, top: set<Fact>, sums: seq<Reference>, paths: seq<string>)
    requires IsRequirement(r)
    requires if sorted == [] then top == {}
             else
               var last := sorted[|sorted| - 1];
               last in top && forall f :: f in OfRank(sorted, Rank(last)) <==> f in top
    ensures OutcomeOf(Resettled(r, sorted, sums, paths)) == StrongestVerdict(r, top, SetOf(sums), SetOf(paths))
  {
    hide OfRank, Rank, Pinned, PinnedOutcome, Followed, FollowedOutcome, Coordinate, Disagree;
    if sorted == [] {
      PinsAgree(r, r.(resolution := Some(DeclaredMinimum)), sums);
    } else {
      var last := sorted[|sorted| - 1];
      FollowAgrees(r, last, sums, paths);
      DisagreeingPair(top, last);
      if forall p :: p in top ==> !Disagree(p, last) {
        var f :| f in top && StrongestVerdict(r, top, SetOf(sums), SetOf(paths))
                             == FollowedOutcome(r, f, SetOf(sums), SetOf(paths));
        TargetDecides(r, f, last, SetOf(sums), SetOf(paths));
      }
    }
  }

  lemma DisagreeingPair(top: set<Fact>, last: Fact)
    requires last in top
    ensures (exists f, g :: f in top && g in top && !SameTarget(f, g)) <==> exists p :: p in top && Disagree(p, last)
    ensures forall p :: Disagree(p, last) <==> !SameTarget(p, last)
  {
    if exists f, g :: f in top && g in top && !SameTarget(f, g) {
      var f, g :| f in top && g in top && !SameTarget(f, g);
      assert Disagree(f, last) || Disagree(g, last);
    }
  }

  lemma TargetDecides(r: Reference, f: Fact, g: Fact, sums: set<Reference>, paths: set<string>)
    requires SameTarget(f, g)
    ensures FollowedOutcome(r, f, sums, paths) == FollowedOutcome(r, g, sums, paths)
  {
  }

  /** Reordering or repeating directives, checksums or members changes nothing a consumer acts on. */
  lemma OrderDoesNotMatter(r: Reference, fs: seq<Fact>, gs: seq<Fact>, sums: seq<Reference>, sums': seq<Reference>,
                           paths: seq<string>, paths': seq<string>)
    requires forall f :: f in fs <==> f in gs
    requires forall p :: p in sums <==> p in sums'
    requires forall path :: path in paths <==> path in paths'
    ensures OutcomeOf(Reconciled(r, fs, sums, paths)) == OutcomeOf(Reconciled(r, gs, sums', paths'))
  {
    hide Verdict, Reconciled;
    SettlesByVerdict(r, fs, sums, paths);
    SettlesByVerdict(r, gs, sums', paths');
    assert SetOf(fs) == SetOf(gs) && SetOf(sums) == SetOf(sums') && SetOf(paths) == SetOf(paths');
  }

  /** A permutation of everything, as the special case it is. */
  lemma PermutationsAgree(r: Reference, fs: seq<Fact>, gs: seq<Fact>, sums: seq<Reference>, sums': seq<Reference>,
                          paths: seq<string>, paths': seq<string>)
    requires multiset(fs) == multiset(gs) && multiset(sums) == multiset(sums') && multiset(paths) == multiset(paths')
    ensures OutcomeOf(Reconciled(r, fs, sums, paths)) == OutcomeOf(Reconciled(r, gs, sums', paths'))
  {
    hide Reconciled;
    assert forall f :: f in fs <==> f in multiset(fs);
    assert forall f :: f in gs <==> f in multiset(gs);
    assert forall p :: p in sums <==> p in multiset(sums);
    assert forall p :: p in sums' <==> p in multiset(sums');
    assert forall path :: path in paths <==> path in multiset(paths);
    assert forall path :: path in paths' <==> path in multiset(paths');
    OrderDoesNotMatter(r, fs, gs, sums, sums', paths, paths');
  }

  /**
   A requirement that nothing rules out is replaced only as one of the directives says that no other
   outranks, and only when they all have the same target; when they have not, that is reported.
   */
  lemma FollowsTheStrongest(r: Reference, fs: seq<Fact>, sums: seq<Reference>, paths: seq<string>, name: string,
                            version: string)
    requires r.source == MOD && r.kind == Dependency && Coordinate(r) == Some((name, version))
    requires Obstacle(r, fs).None?
    ensures var top, out := Strongest(SetOf(fs), name, version), Reconciled(r, fs, sums, paths);
            && (out.resolution == Some(Unresolved(ReplacementConflict))
                <==> exists f, g :: f in top && g in top && !SameTarget(f, g))
            && (out.resolution == Some(Replaced) ==>
                  top != {} && forall f :: f in top ==> f.r.locator == out.locator)
            && (out.resolution == Some(DeclaredMinimum) ==> top == {} && out.locator == r.locator)
  {
    var top := Strongest(SetOf(fs), name, version);
    hide Strongest, Reconciled, Coordinate, LocalModule, IsModuleManifest;
    SettlesByVerdict(r, fs, sums, paths);
    assert OutcomeOf(Reconciled(r, fs, sums, paths)) == StrongestVerdict(r, top, SetOf(sums), SetOf(paths));
  }

  /** A replaced requirement names the directive it follows, and keeps no hash of what it replaced. */
  lemma NamesItsDirective(r: Reference, fs: seq<Fact>, sums: seq<Reference>, paths: seq<string>, name: string,
                          version: string)
    requires r.source == MOD && r.kind == Dependency && Coordinate(r) == Some((name, version))
    requires r.resolution != Some(Replaced) && Reconciled(r, fs, sums, paths).resolution == Some(Replaced)
    ensures var out := Reconciled(r, fs, sums, paths);
            && out.contentSha256 == None
            && exists f :: f in Strongest(SetOf(fs), name, version) && out.source == f.r.source
                           && out.evidence == r.evidence + "; " + f.owner + ": " + f.r.evidence
  {
    hide Matching, Sorted, OfRank, Rank, Strongest, Pins, LocalModule, HasModule;
    LastIsStrongest(fs, name, version);
  }

  /** Where the workspace has a directive for the module, no module's directive is followed. */
  lemma WorkspaceDecides(r: Reference, fs: seq<Fact>, sums: seq<Reference>, paths: seq<string>, name: string,
                         version: string, work: Fact)
    requires r.source == MOD && r.kind == Dependency && Coordinate(r) == Some((name, version))
    requires Obstacle(r, fs).None?
    requires work in fs && work.workspace && Directs(work, name, version)
    ensures var out := Reconciled(r, fs, sums, paths);
            && out.resolution != Some(DeclaredMinimum)
            && (out.resolution == Some(Replaced) ==>
                  exists f :: f in fs && f.workspace && Directs(f, name, version) && f.r.locator == out.locator)
  {
    var top := Strongest(SetOf(fs), name, version);
    FollowsTheStrongest(r, fs, sums, paths, name, version);
    hide Strongest, Reconciled, Directs, Outranks;
    if top != {} {
      var f :| f in top;
      StrongestIsOfTheWorkspace(fs, name, version, work, f);
    } else {
      SomeIsStrongest(fs, name, version, work);
    }
  }

  lemma StrongestIsOfTheWorkspace(fs: seq<Fact>, name: string, version: string, work: Fact, f: Fact)
    requires work in fs && work.workspace && Directs(work, name, version)
    requires f in Strongest(SetOf(fs), name, version)
    ensures f in fs && f.workspace && Directs(f, name, version)
  {
  }

  lemma SomeIsStrongest(fs: seq<Fact>, name: string, version: string, f: Fact)
    requires f in fs && Directs(f, name, version)
    ensures Strongest(SetOf(fs), name, version) != {}
  {
    hide Matching, Sorted, OfRank, Rank, Directs, Strongest;
    LastIsStrongest(fs, name, version);
    MatchesIsDirects(f, name, version);
    var ms := Matching(fs, name, version);
    SortedHoldsAll(ms);
    SameElements(Sorted(ms), ms);
  }

  // ----- the loops -----

  /** A member of the context, and whether it is the workspace. */
  datatype Owned = Owned(member: Member, workspace: bool)

  function FactsOf(o: Owned): (fs: seq<Fact>)
    ensures |fs| == |o.member.references|
    ensures forall j :: 0 <= j < |fs| ==> fs[j] == Fact(o.workspace, o.member.path, o.member.references[j])
  {
    seq(|o.member.references|,
        j requires 0 <= j < |o.member.references| => Fact(o.workspace, o.member.path, o.member.references[j]))
  }

  function Flatten(context: seq<Owned>): seq<Fact> {
    if context == [] then [] else Flatten(context[..|context| - 1]) + FactsOf(context[|context| - 1])
  }

  function Paths(members: seq<Member>): (paths: seq<string>)
    ensures |paths| == |members|
    ensures forall k :: 0 <= k < |members| ==> paths[k] == members[k].path
  {
    seq(|members|, k requires 0 <= k < |members| => members[k].path)
  }

  lemma OneMoreFact(context: seq<Owned>, i: nat, j: nat, name: string, version: string)
    requires i < |context| && j < |context[i].member.references|
    ensures var before := Flatten(context[..i]) + FactsOf(context[i])[..j];
            var f := FactsOf(context[i])[j];
            && Flatten(context[..i]) + FactsOf(context[i])[..j + 1] == before + [f]
            && Matching(before + [f], name, version)
               == Matching(before, name, version) + (if Matches(f, name, version) then [f] else [])
  {
    hide Matches;
    var before := Flatten(context[..i]) + FactsOf(context[i])[..j];
    var f := FactsOf(context[i])[j];
    assert FactsOf(context[i])[..j + 1] == FactsOf(context[i])[..j] + [f];
    assert (before + [f])[..|before|] == before;
  }

  lemma WholeMember(context: seq<Owned>, i: nat)
    requires i < |context|
    ensures Flatten(context[..i]) + FactsOf(context[i])[..0] == Flatten(context[..i])
    ensures Flatten(context[..i]) + FactsOf(context[i])[..|context[i].member.references|] == Flatten(context[..i + 1])
  {
    assert context[..i + 1][..i] == context[..i];
  }

  predicate IsBroken(f: Fact) {
    IsReplace(f.r) && f.r.replaced.None?
  }

  /** The directives of the context that match, in order; `None` when one did not parse. */
  method FindMatches(context: seq<Owned>, name: string, version: string) returns (matches: Option<seq<Fact>>)
    ensures matches.None? <==> exists f :: f in Flatten(context) && IsBroken(f)
    ensures matches.Some? ==> matches.value == Matching(Flatten(context), name, version)
  {
    hide Matching, Matches;
    var found: seq<Fact> := [];
    ghost var all := Flatten(context);
    NothingMatches(name, version);
    var i := 0;
    while i < |context|
      invariant 0 <= i <= |context|
      invariant found == Matching(Flatten(context[..i]), name, version)
      invariant forall f :: f in Flatten(context[..i]) ==> !IsBroken(f)
    {
      var facts := FactsOf(context[i]);
      WholeMember(context, i);
      FlattenIsPrefix(context, i + 1);
      var j := 0;
      while j < |facts|
        invariant 0 <= j <= |facts|
        invariant found == Matching(Flatten(context[..i]) + facts[..j], name, version)
        invariant forall f :: f in Flatten(context[..i]) + facts[..j] ==> !IsBroken(f)
      {
        var f := facts[j];
        OneMoreFact(context, i, j, name, version);
        if IsBroken(f) {
          assert f in Flatten(context[..i + 1]);
          return None;
        }
        if Matches(f, name, version) { found := found + [f]; }
        j := j + 1;
      }
      i := i + 1;
    }
    assert context[..i] == context;
    return Some(found);
  }

  lemma NothingMatches(name: string, version: string)
    ensures Matching([], name, version) == [] && Flatten([]) == []
  {
  }

  lemma {:induction false} FlattenIsPrefix(context: seq<Owned>, i: nat)
    requires i <= |context|
    ensures Flatten(context[..i]) <= Flatten(context)
    decreases |context|
  {
    if i < |context| {
      FlattenIsPrefix(context[..|context| - 1], i);
      assert context[..|context| - 1][..i] == context[..i];
    } else {
      assert context[..i] == context;
    }
  }

  /** `reconcile`. */
  method Reconcile(r: Reference, context: seq<Owned>, sums: seq<Reference>, members: seq<Member>)
    returns (result: Reference)
    ensures result == Reconciled(r, Flatten(context), sums, Paths(members))
  {
    hide Matching, Sorted, OfRank, Rank, Pinned, LocalModule, HasModule, Coordinate;
    if r.source != MOD || r.kind != Dependency { return r; }
    var coordinate := Coordinate(r);
    if coordinate.None? { return r; }
    var facts := Flatten(context);
    if exists f :: f in facts && f.r.source == INCOMPLETE { return Unsettled(r, Manifest); }
    if exists f :: f in facts && f.r.source == MOD_EXCLUDE && f.r.locator == r.locator {
      return Unsettled(r, ExcludedMinimum);
    }
    var matches := FindMatches(context, coordinate.value.0, coordinate.value.1);
    if matches.None? { return Unsettled(r, Replacement); }
    var sorted := Sorted(matches.value);
    if sorted == [] { return Pinned(r, r.(resolution := Some(DeclaredMinimum)), sums); }
    var top := sorted[|sorted| - 1];
    var peers := OfRank(sorted, Rank(top));
    if exists p :: p in peers && Disagree(p, top) { return Unsettled(r, ReplacementConflict); }
    result := Redirected(r, top);
    if top.r.locator.Path? {
      var dir := LocalModule(top.owner, top.r.locator.text);
      if dir.None? { return Unsettled(r, LocalBoundary); }
      if !HasModule(Paths(members), dir.value) { return Unsettled(r, LocalMissing); }
      return result.(kind := Local);
    }
    return Pinned(r, result, sums);
  }
}
