/**
 What a Go module is reconciled with, said without the searches that find it: which workspace owns it,
 which members are its context, which checksums and vendor list count, and what all of it is charged.
 */
module GoContextLaws {
  import opened Bytes
  import opened MemberPath
  import opened GoReconcile
  import opened GoContext

  // ----- names and directories -----

  /** `name` itself, or `name` in some directory. */
  lemma NamedIsTheFile(path: string, name: string)
    ensures IsNamed(path, name) <==> exists dir: string :: (dir == "" || dir[|dir| - 1] == '/') && path == dir + name
  {
    if path == name { assert path == "" + name; }
    if HasSuffix(path, "/" + name) { BehindSlash(path, name); }
    forall dir: string | dir != "" && dir[|dir| - 1] == '/' && path == dir + name ensures HasSuffix(path, "/" + name) {
      assert path == dir[..|dir| - 1] + ("/" + name);
    }
  }

  lemma BehindSlash(path: string, name: string)
    requires HasSuffix(path, "/" + name)
    ensures exists dir: string :: dir != "" && dir[|dir| - 1] == '/' && path == dir + name
  {
    var at := |path| - |name| - 1;
    assert path[at..][0] == '/' && path[at..][1..] == name;
    var dir := path[..at + 1];
    assert path == dir + path[at + 1..] && path[at + 1..] == path[at..][1..];
  }

  /** Levels of a directory, some of them left by `..`, then names to go down by. */
  lemma {:induction false} FollowsUpThenDown(levels: seq<string>, up: seq<string>, down: seq<string>)
    requires |up| <= |levels| && (forall k :: 0 <= k < |up| ==> up[k] == "..")
    requires forall k :: 0 <= k < |down| ==> IsPlain(down[k])
    ensures Follow(levels, up + down) == Some(levels[..|levels| - |up|] + down)
    decreases |up|
  {
    if up == [] {
      FollowsPlainSteps(levels, down);
      assert up + down == down && levels[..|levels|] == levels;
    } else {
      var above := levels[..|levels| - 1];
      assert (up + down)[1..] == up[1..] + down;
      FollowsUpThenDown(above, up[1..], down);
      assert above[..|above| - |up[1..]|] == levels[..|levels| - |up|];
    }
  }

  /** A directive's path starts from its member's directory, and may leave that for the ones above it. */
  lemma LocalModuleIs(levels: seq<string>, file: string, up: seq<string>, down: seq<string>)
    requires AreLevels(levels) && Without(file, '/')
    requires |up| <= |levels| && forall k :: 0 <= k < |up| ==> up[k] == ".."
    requires AreLevels(down) && forall k :: 0 <= k < |down| ==> IsPlain(down[k])
    requires up + down != [] && !IsAbsolute(Join(up + down, '/'))
    ensures LocalModule(Dir(levels) + file, Join(up + down, '/')) == Some(Join(levels[..|levels| - |up|] + down, '/'))
  {
    hide Split, Join, Follow, Segments, MemberDirectory, IsAbsolute;
    DirectoryOf(Dir(levels), file);
    SegmentsOfDir(levels);
    SplitUndoesJoin(up + down, '/');
    FollowsUpThenDown(levels, up, down);
  }

  // ----- searches -----

  /** The first member of that path. */
  predicate IsFirst(members: seq<Member>, m: Member, path: string) {
    exists k :: 0 <= k < |members| && members[k] == m && m.path == path
                && forall j :: 0 <= j < k ==> members[j].path != path
  }

  lemma {:induction false} FirstIs(members: seq<Member>, path: string, m: Member)
    ensures IsFirst(members, m, path) <==> First(members, path) == Some(m)
  {
    if members != [] {
      FirstIs(members[1..], path, m);
      if members[0].path == path {
        if m == members[0] { assert members[0] == m; }
      } else {
        FirstIsLater(members, path, m);
      }
    }
  }

  lemma FirstIsLater(members: seq<Member>, path: string, m: Member)
    requires members != [] && members[0].path != path
    ensures IsFirst(members, m, path) <==> IsFirst(members[1..], m, path)
  {
    if IsFirst(members, m, path) {
      var k :| 0 <= k < |members| && members[k] == m && m.path == path
               && forall j :: 0 <= j < k ==> members[j].path != path;
      assert members[1..][k - 1] == m;
    }
    if IsFirst(members[1..], m, path) {
      var k :| 0 <= k < |members[1..]| && members[1..][k] == m && m.path == path
               && forall j :: 0 <= j < k ==> members[1..][j].path != path;
      assert members[k + 1] == m;
    }
  }

  lemma {:induction false} FilterIs(ms: seq<Member>, keep: Member -> bool)
    ensures forall m :: m in Filter(ms, keep) <==> m in ms && keep(m)
  {
    if ms != [] { FilterIs(ms[1..], keep); }
  }

  // ----- the workspace and the context -----

  /** A `go.work` one of whose `use` paths is the directory of `main`. */
  ghost predicate IsWorkspaceOf(m: Member, main: Member) {
    && IsNamed(m.path, "go.work")
    && exists r, dir :: r in m.references && r.source == "go.work.use" && r.locator.Path?
                        && LocalModule(m.path, r.locator.text) == Some(dir)
                        && (main.path == dir + "/go.mod" || (dir == "" && main.path == "go.mod"))
  }

  lemma OwnsIs(m: Member, main: Member)
    ensures IsNamed(m.path, "go.work") && Owns(m, main.path) <==> IsWorkspaceOf(m, main)
  {
    hide LocalModule, IsNamed, IsModuleManifest;
    forall dir: string
      ensures IsModuleManifest(main.path, dir) <==> main.path == dir + "/go.mod" || (dir == "" && main.path == "go.mod")
    {
      ManifestOfDirectory(main.path, dir);
    }
  }

  /** A module's workspace is one of those that use it in the deepest directory, and none only if none uses it. */
  lemma WorkspaceIsTheDeepest(main: Member, members: seq<Member>)
    ensures match Workspace(main, members)
            case None => forall m :: m in members ==> !IsWorkspaceOf(m, main)
            case Some(work) =>
              && work in members && IsWorkspaceOf(work, main)
              && forall m :: m in members && IsWorkspaceOf(m, main) ==>
                   |MemberDirectory(m.path)| <= |MemberDirectory(work.path)|
  {
    hide Owns, IsNamed, IsWorkspaceOf, MemberDirectory;
    FilterIs(members, (m: Member) => IsNamed(m.path, "go.work") && Owns(m, main.path));
    forall m: Member ensures IsNamed(m.path, "go.work") && Owns(m, main.path) <==> IsWorkspaceOf(m, main) {
      OwnsIs(m, main);
    }
  }

  /** The last of them, where several are as deep. */
  lemma {:induction false} DeepestIsLast(ms: seq<Member>, k: nat)
    requires k < |ms| && (forall m :: m in ms ==> |MemberDirectory(m.path)| <= |MemberDirectory(ms[k].path)|)
    requires forall j :: k < j < |ms| ==> |MemberDirectory(ms[j].path)| < |MemberDirectory(ms[k].path)|
    ensures Deepest(ms) == Some(ms[k])
  {
    hide MemberDirectory;
    var last := |ms| - 1;
    if k < last {
      assert ms[last] in ms;
      assert forall m :: m in ms[..last] ==> m in ms;
      DeepestIsLast(ms[..last], k);
    } else if last > 0 {
      assert forall m :: m in ms[..last] ==> m in ms;
    }
  }

  /** The module; its workspace; and the other modules that workspace uses. */
  lemma ContextIs(main: Member, members: seq<Member>, o: Owned)
    ensures o in Context(main, members)
            <==> || o == Owned(main, false)
                 || (Workspace(main, members).Some?
                     && var work := Workspace(main, members).value;
                        || o == Owned(work, true)
                        || (!o.workspace && o.member in members && o.member.path != main.path
                            && IsNamed(o.member.path, "go.mod") && Owns(work, o.member.path)))
  {
    hide Owns, IsNamed, Workspace;
    if Workspace(main, members).Some? {
      var work := Workspace(main, members).value;
      var keep := (m: Member) => m.path != main.path && IsNamed(m.path, "go.mod") && Owns(work, m.path);
      var siblings := Filter(members, keep);
      FilterIs(members, keep);
      AllOwnedIs(siblings, o);
      assert Context(main, members) == [Owned(main, false)] + AllOwned(siblings) + [Owned(work, true)];
    }
  }

  lemma AllOwnedIs(ms: seq<Member>, o: Owned)
    ensures o in AllOwned(ms) <==> !o.workspace && o.member in ms
  {
    if !o.workspace && o.member in ms {
      var k :| 0 <= k < |ms| && ms[k] == o.member;
      assert AllOwned(ms)[k] == o;
    }
  }

  /** The checksums that count: those of the first file named so beside each member of the context. */
  lemma {:induction false} SumsAre(context: seq<Owned>, members: seq<Member>, p: Reference)
    ensures p in Sums(context, members)
            <==> exists o, m: Member ::
                   && o in context && p in m.references
                   && IsFirst(members, m,
                              MemberDirectory(o.member.path) + if o.workspace then "go.work.sum" else "go.sum")
  {
    if context != [] {
      hide MemberDirectory, IsFirst, First;
      var o := context[0];
      var path := MemberDirectory(o.member.path) + if o.workspace then "go.work.sum" else "go.sum";
      forall m: Member ensures IsFirst(members, m, path) <==> First(members, path) == Some(m) {
        FirstIs(members, path, m);
      }
      SumsAre(context[1..], members, p);
      assert forall x :: x in context <==> x == o || x in context[1..];
    }
  }

  // ----- the vendor list -----

  /** The name of the module a package URL is of. */
  ghost predicate IsOf(r: Reference, name: Option<string>) {
    if name.Some? then exists version :: Coordinate(r) == Some((name.value, version)) else Coordinate(r).None?
  }

  /** `v` is the first entry of the list for the module `r` requires. */
  ghost predicate IsListed(listed: seq<Reference>, v: Reference, r: Reference) {
    exists k :: && 0 <= k < |listed| && listed[k] == v
                && v.source == "go.vendor.module" && SameModule(v, r)
                && forall j :: 0 <= j < k ==> !(listed[j].source == "go.vendor.module" && SameModule(listed[j], r))
  }

  ghost predicate SameModule(v: Reference, r: Reference) {
    forall name :: IsOf(v, name) <==> IsOf(r, name)
  }

  lemma NameIs(r: Reference, name: Option<string>)
    ensures NameOf(r) == name <==> IsOf(r, name)
  {
    hide Coordinate;
    var c := Coordinate(r);
    if c.Some? { assert Coordinate(r) == Some((c.value.0, c.value.1)); }
  }

  lemma SameModuleIs(v: Reference, r: Reference)
    ensures NameOf(v) == NameOf(r) <==> SameModule(v, r)
  {
    hide NameOf, IsOf;
    forall name ensures NameOf(v) == name <==> IsOf(v, name) { NameIs(v, name); }
    forall name ensures NameOf(r) == name <==> IsOf(r, name) { NameIs(r, name); }
    assert IsOf(r, NameOf(r)) && IsOf(v, NameOf(v));
  }

  lemma {:induction false} SelectedIs(listed: seq<Reference>, v: Reference, r: Reference)
    ensures Selected(listed, NameOf(r)) == Some(v) <==> IsListed(listed, v, r)
  {
    if listed != [] {
      hide NameOf, SameModule, IsListed;
      SelectedIs(listed[1..], v, r);
      SameModuleIs(listed[0], r);
      ListedFirstOrLater(listed, v, r);
    }
  }

  lemma ListedFirstOrLater(listed: seq<Reference>, v: Reference, r: Reference)
    requires listed != []
    ensures IsListed(listed, v, r)
            <==> if listed[0].source == "go.vendor.module" && SameModule(listed[0], r) then v == listed[0]
                 else IsListed(listed[1..], v, r)
  {
    hide SameModule;
    var here := listed[0].source == "go.vendor.module" && SameModule(listed[0], r);
    if here && v == listed[0] { assert listed[0] == v; }
    if !here && IsListed(listed, v, r) {
      var k :| 0 <= k < |listed| && listed[k] == v && v.source == "go.vendor.module" && SameModule(v, r)
               && forall j :: 0 <= j < k ==> !(listed[j].source == "go.vendor.module" && SameModule(listed[j], r));
      assert listed[1..][k - 1] == v;
    }
    if !here && IsListed(listed[1..], v, r) {
      var k :| 0 <= k < |listed[1..]| && listed[1..][k] == v && v.source == "go.vendor.module" && SameModule(v, r)
               && forall j :: 0 <= j < k ==>
                    !(listed[1..][j].source == "go.vendor.module" && SameModule(listed[1..][j], r));
      assert listed[k + 1] == v;
    }
  }

  /** Some member lies in the directory the module is vendored to. */
  ghost predicate IsVendored(main: Member, members: seq<Member>, name: string) {
    exists m: Member, rest: string ::
      m in members && m.path == MemberDirectory(main.path) + "vendor/" + name + "/" + rest
  }

  lemma VendoredIs(main: Member, members: seq<Member>, name: string)
    ensures IsVendored(main, members, name)
            <==> exists m :: m in members && HasPrefix(m.path, VendorDirectory(main) + name + "/")
  {
    hide MemberDirectory;
    var prefix := MemberDirectory(main.path) + "vendor/" + name + "/";
    assert prefix == VendorDirectory(main) + name + "/";
    forall m | m in members && HasPrefix(m.path, prefix) ensures IsVendored(main, members, name) {
      assert m.path == prefix + m.path[|prefix|..];
    }
    if IsVendored(main, members, name) {
      var m, rest :| m in members && m.path == MemberDirectory(main.path) + "vendor/" + name + "/" + rest;
      assert HasPrefix(m.path, prefix);
    }
  }

  /**
   A requirement of a module with a vendor list is vendored exactly when the list is whole, names its
   module, and has members in that module's directory; otherwise it stays unresolved, for that reason.
   */
  lemma VendorDecides(r: Reference, value: Reference, vendor: Member, main: Member, members: seq<Member>)
    ensures var out := FromVendor(r, value, vendor, main, members);
            if exists v :: v in vendor.references && v.source == "go.manifest.incomplete" then
              out == Unsettled(r, VendorMetadata)
            else if forall v :: !IsListed(vendor.references, v, r) then out == Unsettled(r, VendorUnlisted)
            else
              exists v :: IsListed(vendor.references, v, r)
                && if Coordinate(v).None? then out == Unsettled(r, VendorMetadata)
                   else
                     var name := Coordinate(v).value.0;
                     if IsVendored(main, members, name) then
                       out == value.(kind := Local, locator := Path("vendor/" + name), source := "go.vendor.module",
                                     resolution := Some(Vendored), evidence := r.evidence + "; " + v.evidence)
                     else out == Unsettled(r, VendorMissing)
  {
    hide IsListed, Selected, IsVendored, VendorDirectory, Coordinate;
    forall v: Reference
      ensures Selected(vendor.references, NameOf(r)) == Some(v) <==> IsListed(vendor.references, v, r)
    {
      SelectedIs(vendor.references, v, r);
    }
    var selected := Selected(vendor.references, NameOf(r));
    if selected.Some? {
      assert IsListed(vendor.references, selected.value, r);
      ListedIsVendors(vendor.references, selected.value, r);
      if Coordinate(selected.value).Some? { VendoredIs(main, members, Coordinate(selected.value).value.0); }
    }
  }

  lemma ListedIsVendors(listed: seq<Reference>, v: Reference, r: Reference)
    requires IsListed(listed, v, r)
    ensures v.source == "go.vendor.module"
  {
  }

  /** The list is the `modules.txt` in the `vendor` directory beside the module's manifest. */
  lemma VendorIs(main: Member, members: seq<Member>, m: Member)
    ensures Vendor(main, members) == Some(m)
            <==> IsFirst(members, m, MemberDirectory(main.path) + "vendor/" + "modules.txt")
  {
    hide MemberDirectory, IsFirst, First;
    FirstIs(members, MemberDirectory(main.path) + "vendor/" + "modules.txt", m);
  }

  // ----- the charge -----

  lemma {:induction false} ReferencesAreFacts(context: seq<Owned>)
    ensures ContextReferences(context) == |Flatten(context)|
  {
    if context != [] {
      ReferencesAreFacts(context[1..]);
      FlattenFirst(context);
    }
  }

  lemma {:induction false} FlattenFirst(context: seq<Owned>)
    requires context != []
    ensures |Flatten(context)| == |context[0].member.references| + |Flatten(context[1..])|
  {
    var last := |context| - 1;
    if last == 0 {
      assert context[..0] == [] && context[1..] == [];
    } else {
      FlattenFirst(context[..last]);
      assert context[..last][1..] == context[1..][..last - 1] && context[1..][last - 1] == context[last];
    }
  }

  lemma {:induction false} MembersReferences(members: seq<Member>)
    ensures References(members) == |Flatten(AllOwned(members))|
  {
    hide Flatten;
    ReferencesAreFacts(AllOwned(members));
    SameReferences(members);
  }

  lemma {:induction false} SameReferences(members: seq<Member>)
    ensures References(members) == ContextReferences(AllOwned(members))
  {
    if members != [] {
      SameReferences(members[1..]);
      assert AllOwned(members)[1..] == AllOwned(members[1..]);
    }
  }

  /**
   A module is charged a look at every member and reference, at every member for each reference of its
   workspace, and for each of its own references four looks at every directive of its context and one
   at every checksum and member; no product or sum of the source's wraps, those of a whole are capped.
   */
  lemma ChargeIs(main: Member, members: seq<Member>)
    ensures var all, context := |Flatten(AllOwned(members))|, Context(main, members);
            var owner := Workspace(main, members);
            var work := if owner.Some? then |members| * |owner.value.references| else 0;
            var each := 4 * |Flatten(context)| + |Sums(context, members)| + |members|;
            && (|members| + all <= U64_MAX && work <= U64_MAX && each <= U64_MAX && |main.references| * each <= U64_MAX
                ==> Charge(main, members) == |members| + all + work + |main.references| * each)
            && Charge(main, members) <= 3 * U64_MAX
  {
    hide Workspace, Context, Sums, Flatten;
    MembersReferences(members);
    ReferencesAreFacts(Context(main, members));
  }

  function SumOf(stages: seq<nat>): nat {
    if stages == [] then 0 else stages[0] + SumOf(stages[1..])
  }

  /** A module pays for its stages in turn while the budget covers them, and for none behind one it does not. */
  lemma StagesArePaid(main: Member, members: seq<Member>, budget: nat) returns (n: nat)
    ensures var stages := [LookupCost(members), WorkCost(main, members), ResolveCost(main, members)];
            && n <= 3 && SumOf(stages[..n]) <= budget && LeftAfter(main, members, budget) == budget - SumOf(stages[..n])
            && (n == 3 || budget < SumOf(stages[..n + 1]))
  {
    hide LookupCost, WorkCost, ResolveCost;
    var a, b, c := LookupCost(members), WorkCost(main, members), ResolveCost(main, members);
    PrefixSums(a, b, c);
    n := if budget < a then 0 else if budget < a + b then 1 else if budget < a + b + c then 2 else 3;
  }

  lemma PrefixSums(a: nat, b: nat, c: nat)
    ensures SumOf([a, b, c][..0]) == 0 && SumOf([a, b, c][..1]) == a
    ensures SumOf([a, b, c][..2]) == a + b && SumOf([a, b, c][..3]) == a + b + c
  {
    assert [a, b, c][..0] == [] && [a, b, c][..1] == [a] && [a, b, c][..2] == [a, b] && [a, b, c][..3] == [a, b, c];
    FirstOf(a, []);
    FirstOf(b, []);
    FirstOf(c, []);
    FirstOf(a, [b]);
    FirstOf(b, [c]);
    FirstOf(a, [b, c]);
  }

  lemma FirstOf(a: nat, stages: seq<nat>)
    ensures SumOf([a] + stages) == a + SumOf(stages) && [a] + stages != []
  {
    assert ([a] + stages)[1..] == stages;
  }

  /** More members or references than the limits allow settle nothing. */
  lemma TooManySettlesNone(members: seq<Member>, limits: Limits, k: nat)
    requires k < |members|
    requires |members| > limits.maxMembers || |Flatten(AllOwned(members))| > limits.maxReferences
    ensures AnswerAt(members, k, limits) == OverBudget(members[k])
  {
    hide Settled, OverBudget, Charge, Flatten;
    MembersReferences(members);
  }

  /** Within them a module is settled exactly when what those before it left covers its charge. */
  lemma ChargeDecides(members: seq<Member>, limits: Limits, k: nat)
    requires k < |members|
    requires |members| <= limits.maxMembers && |Flatten(AllOwned(members))| <= limits.maxReferences
    ensures AnswerAt(members, k, limits)
            == if Charge(members[k], members) <= BudgetAt(members, k, limits) then Settled(members[k], members)
               else OverBudget(members[k])
  {
    hide Settled, OverBudget, Charge, Flatten;
    MembersReferences(members);
  }
}
