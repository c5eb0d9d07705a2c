/**
 `go_dependency_context`: the reconciliation of every `go.mod` of an artifact out of one budget, which
 decides only which modules are reconciled, never how.
 */
module GoContext {
  import opened Bytes
  import opened MemberPath
  import opened GoReconcile

  const WORK_USE := "go.work.use"
  const VENDOR_MODULE := "go.vendor.module"

  datatype Limits = Limits(maxMembers: nat, maxReferences: nat, maxWork: nat)

  // ----- what a module is reconciled with -----

  /** The path's final component is `name`. */
  predicate IsNamed(path: string, name: string) {
    path == name || HasSuffix(path, "/" + name)
  }

  /** Some `use` directive of `work` resolves to the directory of `main`. */
  predicate Owns(work: Member, main: string) {
    exists r :: r in work.references && r.source == WORK_USE && r.locator.Path?
                && (var dir := LocalModule(work.path, r.locator.text);
                    dir.Some? && IsModuleManifest(main, dir.value))
  }

  function Depth(m: Member): nat {
    |MemberDirectory(m.path)|
  }

  /** `max_by_key`: of those with the longest directory, the last. */
  function Deepest(ms: seq<Member>): (best: Option<Member>)
    ensures best.None? <==> ms == []
    ensures best.Some? ==> best.value in ms && forall m :: m in ms ==> Depth(m) <= Depth(best.value)
  {
    if ms == [] then None
    else
      var last := ms[|ms| - 1];
      assert ms == ms[..|ms| - 1] + [last];
      var before := Deepest(ms[..|ms| - 1]);
      if before.Some? && Depth(before.value) > Depth(last) then before else Some(last)
  }

  function Filter(ms: seq<Member>, keep: Member -> bool): seq<Member> {
    if ms == [] then [] else (if keep(ms[0]) then [ms[0]] else []) + Filter(ms[1..], keep)
  }

  function First(ms: seq<Member>, path: string): Option<Member> {
    if ms == [] then None else if ms[0].path == path then Some(ms[0]) else First(ms[1..], path)
  }

  function Workspace(main: Member, members: seq<Member>): Option<Member> {
    Deepest(Filter(members, (m: Member) => IsNamed(m.path, "go.work") && Owns(m, main.path)))
  }

  function AllOwned(ms: seq<Member>): seq<Owned> {
    seq(|ms|, k requires 0 <= k < |ms| => Owned(ms[k], false))
  }

  function Context(main: Member, members: seq<Member>): seq<Owned> {
    match Workspace(main, members)
    case None => [Owned(main, false)]
    case Some(work) =>
      var siblings := Filter(members, (m: Member) =>
                               m.path != main.path && IsNamed(m.path, "go.mod") && Owns(work, m.path));
      [Owned(main, false)] + AllOwned(siblings) + [Owned(work, true)]
  }

  function Sums(context: seq<Owned>, members: seq<Member>): seq<Reference> {
    if context == [] then []
    else
      var o := context[0];
      var sum := First(members, MemberDirectory(o.member.path) + (if o.workspace then "go.work.sum" else "go.sum"));
      (if sum.Some? then sum.value.references else []) + Sums(context[1..], members)
  }

  function VendorDirectory(main: Member): string {
    MemberDirectory(main.path) + "vendor/"
  }

  function Vendor(main: Member, members: seq<Member>): Option<Member> {
    First(members, VendorDirectory(main) + "modules.txt")
  }

  function NameOf(r: Reference): Option<string> {
    var c := Coordinate(r);
    if c.Some? then Some(c.value.0) else None
  }

  function Selected(listed: seq<Reference>, name: Option<string>): Option<Reference> {
    if listed == [] then None
    else if listed[0].source == VENDOR_MODULE && NameOf(listed[0]) == name then Some(listed[0])
    else Selected(listed[1..], name)
  }

  /** A requirement of a module with a vendor list is that list's, or unresolved. */
  function FromVendor(r: Reference, value: Reference, vendor: Member, main: Member, members: seq<Member>): Reference {
    if exists v :: v in vendor.references && v.source == INCOMPLETE then Unsettled(r, VendorMetadata)
    else
      match Selected(vendor.references, NameOf(r))
      case None => Unsettled(r, VendorUnlisted)
      case Some(selected) =>
        match NameOf(selected)
        case None => Unsettled(r, VendorMetadata)
        case Some(name) =>
          if exists m :: m in members && HasPrefix(m.path, VendorDirectory(main) + name + "/") then
            value.(kind := Local, locator := Path("vendor/" + name), source := selected.source,
                   resolution := Some(Vendored), evidence := r.evidence + "; " + selected.evidence)
          else Unsettled(r, VendorMissing)
  }

  function Resolved(r: Reference, context: seq<Owned>, main: Member, members: seq<Member>): Reference {
    var value := Reconciled(r, Flatten(context), Sums(context, members), Paths(members));
    var vendor := Vendor(main, members);
    if value.kind != Dependency || vendor.None? then value else FromVendor(r, value, vendor.value, main, members)
  }

  function ResolveAll(rs: seq<Reference>, context: seq<Owned>, main: Member, members: seq<Member>)
    : (out: seq<Reference>)
    ensures |out| == |rs|
    ensures forall k :: 0 <= k < |rs| ==> out[k] == Resolved(rs[k], context, main, members)
  {
    seq(|rs|, k requires 0 <= k < |rs| => Resolved(rs[k], context, main, members))
  }

  /** A module's references as they settle, whatever the budget. */
  function Settled(main: Member, members: seq<Member>): (out: seq<Reference>)
    ensures |out| == |main.references|
  {
    ResolveAll(main.references, Context(main, members), main, members)
  }

  /** A module's references when the budget cannot cover it. */
  function OverBudget(main: Member): (out: seq<Reference>)
    ensures |out| == |main.references|
    ensures forall k :: 0 <= k < |out| ==> out[k] == Unsettled(main.references[k], ContextBudget)
  {
    seq(|main.references|, k requires 0 <= k < |main.references| => Unsettled(main.references[k], ContextBudget))
  }

  // ----- what it costs -----

  function SatMul(a: nat, b: nat): nat {
    Min(a * b, U64_MAX)
  }

  function References(members: seq<Member>): nat {
    if members == [] then 0 else |members[0].references| + References(members[1..])
  }

  function ContextReferences(context: seq<Owned>): nat {
    if context == [] then 0 else |context[0].member.references| + ContextReferences(context[1..])
  }

  function LookupCost(members: seq<Member>): nat {
    SatAdd(|members|, References(members))
  }

  function WorkCost(main: Member, members: seq<Member>): nat {
    var work := Workspace(main, members);
    if work.Some? then SatMul(|members|, |work.value.references|) else 0
  }

  function ResolveCost(main: Member, members: seq<Member>): nat {
    var context := Context(main, members);
    SatMul(|main.references|,
           SatAdd(SatAdd(SatMul(ContextReferences(context), 4), |Sums(context, members)|), |members|))
  }

  function Charge(main: Member, members: seq<Member>): nat {
    LookupCost(members) + WorkCost(main, members) + ResolveCost(main, members)
  }

  /** What every `go.mod` of `ms` costs together. */
  function TotalCharge(ms: seq<Member>, members: seq<Member>): nat {
    if ms == [] then 0
    else TotalCharge(ms[..|ms| - 1], members)
         + (if IsNamed(ms[|ms| - 1].path, "go.mod") then Charge(ms[|ms| - 1], members) else 0)
  }

  // ----- the loop over modules -----

  /** What is left of `budget` after a module, which pays for each stage before it starts it. */
  function LeftAfter(main: Member, members: seq<Member>, budget: nat): (left: nat)
    ensures left <= budget
    ensures Charge(main, members) <= budget ==> left == budget - Charge(main, members)
  {
    var lookup, work := LookupCost(members), WorkCost(main, members);
    if budget < lookup then budget
    else if budget < lookup + work then budget - lookup
    else if budget < Charge(main, members) then budget - lookup - work
    else budget - Charge(main, members)
  }

  /** One module: what it settles to, or nothing when the budget falls short, and what is left. */
  method Module(main: Member, members: seq<Member>, budget: nat) returns (out: Option<seq<Reference>>, left: nat)
    ensures left == LeftAfter(main, members, budget)
    ensures out == if Charge(main, members) <= budget then Some(Settled(main, members)) else None
  {
    hide LookupCost, WorkCost, ResolveCost, Resolved, Context, Sums, Vendor, FromVendor, Reconciled, Flatten;
    out, left := None, budget;
    if left < LookupCost(members) { return; }
    left := left - LookupCost(members);
    if left < WorkCost(main, members) { return; }
    left := left - WorkCost(main, members);
    if left < ResolveCost(main, members) { return; }
    left := left - ResolveCost(main, members);
    var context := Context(main, members);
    var sums := Sums(context, members);
    var vendor := Vendor(main, members);
    var resolved: seq<Reference> := [];
    var k := 0;
    while k < |main.references|
      invariant 0 <= k <= |main.references| && |resolved| == k
      invariant forall j :: 0 <= j < k ==> resolved[j] == Resolved(main.references[j], context, main, members)
    {
      var r := main.references[k];
      var value := Reconcile(r, context, sums, members);
      ResolvedIs(r, value, context, main, members);
      if value.kind == Dependency && vendor.Some? { value := FromVendor(r, value, vendor.value, main, members); }
      resolved := resolved + [value];
      k := k + 1;
    }
    assert resolved == Settled(main, members);
    return Some(resolved), left;
  }

  lemma ResolvedIs(r: Reference, value: Reference, context: seq<Owned>, main: Member, members: seq<Member>)
    requires value == Reconciled(r, Flatten(context), Sums(context, members), Paths(members))
    ensures Resolved(r, context, main, members)
            == if value.kind != Dependency || Vendor(main, members).None? then value
               else FromVendor(r, value, Vendor(main, members).value, main, members)
  {
  }

  predicate IsMain(members: seq<Member>, k: nat) {
    k < |members| && IsNamed(members[k].path, "go.mod")
  }

  /** Of the `go.mod`s among the first `n` members, the one at `k` is the last with its path. */
  predicate Holds(members: seq<Member>, k: nat, n: nat)
    requires n <= |members|
  {
    k < n && IsMain(members, k) && forall j :: k < j < n && IsMain(members, j) ==> members[j].path != members[k].path
  }

  predicate HasMain(members: seq<Member>, n: nat, path: string)
    requires n <= |members|
  {
    exists k: nat :: k < n && IsMain(members, k) && members[k].path == path
  }

  predicate TooMany(members: seq<Member>, limits: Limits) {
    |members| > limits.maxMembers || References(members) > limits.maxReferences
  }

  /** What the modules before the `k`th member leave of the work limit. */
  function BudgetAt(members: seq<Member>, k: nat, limits: Limits): nat
    requires k <= |members|
  {
    if k == 0 then limits.maxWork
    else
      var before := BudgetAt(members, k - 1, limits);
      if IsMain(members, k - 1) && !TooMany(members, limits) then LeftAfter(members[k - 1], members, before) else before
  }

  /** The answer for the `go.mod` at `k`: settled exactly when the limits allow and its charge still fits. */
  function AnswerAt(members: seq<Member>, k: nat, limits: Limits): seq<Reference>
    requires k < |members|
  {
    if !TooMany(members, limits) && Charge(members[k], members) <= BudgetAt(members, k, limits)
    then Settled(members[k], members)
    else OverBudget(members[k])
  }

  predicate HasAnswer(members: seq<Member>, k: nat, limits: Limits, result: map<string, seq<Reference>>)
    requires k < |members|
  {
    members[k].path in result && result[members[k].path] == AnswerAt(members, k, limits)
  }

  /** Each path of a `go.mod` among the first `n` members has the answer of the last with that path. */
  ghost predicate Answered(members: seq<Member>, n: nat, limits: Limits, result: map<string, seq<Reference>>)
    requires n <= |members|
  {
    && (forall path :: path in result <==> HasMain(members, n, path))
    && (forall k :: 0 <= k < n && Holds(members, k, n) ==> HasAnswer(members, k, limits, result))
  }

  lemma HeldBefore(members: seq<Member>, k: nat, n: nat)
    requires k < n < |members| && Holds(members, k, n + 1)
    ensures Holds(members, k, n)
    ensures IsMain(members, n) ==> members[k].path != members[n].path
  {
    hide IsNamed;
  }

  lemma MainBefore(members: seq<Member>, n: nat, path: string)
    requires n < |members|
    ensures HasMain(members, n + 1, path)
            <==> HasMain(members, n, path) || (IsMain(members, n) && members[n].path == path)
  {
    hide IsNamed;
    if HasMain(members, n + 1, path) {
      var k: nat :| k < n + 1 && IsMain(members, k) && members[k].path == path;
    }
  }

  lemma AnswerKept(members: seq<Member>, k: nat, limits: Limits, result: map<string, seq<Reference>>, path: string,
                   answer: seq<Reference>)
    requires k < |members| && members[k].path != path && HasAnswer(members, k, limits, result)
    ensures HasAnswer(members, k, limits, result[path := answer])
  {
    hide AnswerAt;
  }

  lemma AnsweredGrows(members: seq<Member>, n: nat, limits: Limits, result: map<string, seq<Reference>>)
    requires n < |members| && IsMain(members, n) && Answered(members, n, limits, result)
    ensures Answered(members, n + 1, limits, result[members[n].path := AnswerAt(members, n, limits)])
  {
    hide AnswerAt, IsMain, Holds, HasMain, HasAnswer;
    var answer := AnswerAt(members, n, limits);
    var grown := result[members[n].path := answer];
    forall path ensures path in grown <==> HasMain(members, n + 1, path) { MainBefore(members, n, path); }
    forall k | 0 <= k < n && Holds(members, k, n + 1) ensures HasAnswer(members, k, limits, grown) {
      HeldBefore(members, k, n);
      AnswerKept(members, k, limits, result, members[n].path, answer);
    }
    AnswerPut(members, n, limits, result);
  }

  lemma AnswerPut(members: seq<Member>, n: nat, limits: Limits, result: map<string, seq<Reference>>)
    requires n < |members|
    ensures HasAnswer(members, n, limits, result[members[n].path := AnswerAt(members, n, limits)])
  {
    hide AnswerAt;
  }

  lemma AnsweredSkips(members: seq<Member>, n: nat, limits: Limits, result: map<string, seq<Reference>>)
    requires n < |members| && !IsMain(members, n) && Answered(members, n, limits, result)
    ensures Answered(members, n + 1, limits, result)
  {
    hide IsNamed, HasMain, HasAnswer;
    forall path ensures HasMain(members, n + 1, path) <==> HasMain(members, n, path) { MainBefore(members, n, path); }
    forall k | 0 <= k < n && Holds(members, k, n + 1) ensures Holds(members, k, n) { HeldBefore(members, k, n); }
  }

  /**
   Each `go.mod` has one answer under its path (that of the last, where several share one): all of its
   references settled when its charge fits what the modules before it left, all over budget otherwise.
   */
  method DependencyContext(members: seq<Member>, limits: Limits) returns (result: map<string, seq<Reference>>)
    ensures Answered(members, |members|, limits, result)
  {
    hide Settled, OverBudget, Charge, IsNamed, References, Answered, LeftAfter;
    var overBudget := |members| > limits.maxMembers || References(members) > limits.maxReferences;
    var remaining := limits.maxWork;
    result := map[];
    NothingAnswered(members, limits);
    var i := 0;
    while i < |members|
      invariant 0 <= i <= |members|
      invariant remaining == BudgetAt(members, i, limits)
      invariant Answered(members, i, limits, result)
    {
      var main := members[i];
      if IsNamed(main.path, "go.mod") {
        var answer := OverBudget(main);
        if !overBudget {
          var out, left := Module(main, members, remaining);
          if out.Some? { answer := out.value; }
          remaining := left;
        }
        AnsweredGrows(members, i, limits, result);
        result := result[main.path := answer];
      } else {
        AnsweredSkips(members, i, limits, result);
      }
      i := i + 1;
    }
  }

  lemma NothingAnswered(members: seq<Member>, limits: Limits)
    ensures Answered(members, 0, limits, map[])
  {
  }

  /** Limits that cover the members, the references and every charge settle every module. */
  lemma EnoughSettlesAll(members: seq<Member>, limits: Limits, k: nat)
    requires !TooMany(members, limits) && TotalCharge(members, members) <= limits.maxWork
    requires IsMain(members, k)
    ensures AnswerAt(members, k, limits) == Settled(members[k], members)
  {
    hide Charge, Settled, OverBudget, TooMany, IsNamed;
    ChargesSoFar(members, limits, k + 1);
    ChargesSoFar(members, limits, k);
    assert members[..k + 1][..k] == members[..k];
  }

  /** While the charges so far fit, that is what has been spent. */
  lemma {:induction false} ChargesSoFar(members: seq<Member>, limits: Limits, k: nat)
    requires k <= |members| && !TooMany(members, limits) && TotalCharge(members, members) <= limits.maxWork
    ensures TotalCharge(members[..k], members) <= limits.maxWork
    ensures BudgetAt(members, k, limits) == limits.maxWork - TotalCharge(members[..k], members)
  {
    hide Charge, LeftAfter, TooMany, IsNamed;
    PrefixCharge(members, k, members);
    if k > 0 {
      ChargesSoFar(members, limits, k - 1);
      assert members[..k][..k - 1] == members[..k - 1];
    }
  }

  lemma {:induction false} PrefixCharge(ms: seq<Member>, i: nat, members: seq<Member>)
    requires i <= |ms|
    ensures TotalCharge(ms[..i], members) <= TotalCharge(ms, members)
    decreases |ms|
  {
    hide Charge, IsNamed;
    if i < |ms| {
      PrefixCharge(ms[..|ms| - 1], i, members);
      assert ms[..|ms| - 1][..i] == ms[..i];
    } else {
      assert ms[..i] == ms;
    }
  }

  // ----- one result per declared reference, in order -----

  /** `out` is `r`'s result: everything a result does not settle is `r`'s own. */
  predicate ResultOf(r: Reference, out: Reference) {
    out.offset == r.offset && out.replaced == r.replaced
  }

  lemma SettledInOrder(main: Member, members: seq<Member>, k: nat)
    requires k < |main.references|
    ensures ResultOf(main.references[k], Settled(main, members)[k])
    ensures main.references[k].kind != Dependency || main.references[k].source != MOD ==>
              Reconciled(main.references[k], Flatten(Context(main, members)), Sums(Context(main, members), members),
                         Paths(members)) == main.references[k]
  {
    hide Flatten, Context, Sums, Vendor, Coordinate, NameOf, Obstacle, Sorted, Matching, LocalModule, HasModule, OfRank;
    var r := main.references[k];
    ReconciledKeeps(r, Flatten(Context(main, members)), Sums(Context(main, members), members), Paths(members));
  }

  lemma ReconciledKeeps(r: Reference, fs: seq<Fact>, sums: seq<Reference>, paths: seq<string>)
    ensures ResultOf(r, Reconciled(r, fs, sums, paths))
  {
    hide Flatten, Context, Sums, Coordinate, Obstacle, Sorted, Matching, LocalModule, HasModule, OfRank, Pins;
  }
}
