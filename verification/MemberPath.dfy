/** Member paths: `join_relative`, which normalises a reference, and `resolve`, which keeps it inside. */
module MemberPath {
  import opened Bytes

  // ----- splitting and joining -----

  /** `str::split`: the pieces between the separators, one more than there are of them. */
  function Split(s: string, c: char): (parts: seq<string>)
    ensures |parts| > 0
    ensures forall k :: 0 <= k < |parts| ==> Without(parts[k], c)
  {
    if s == "" then [""]
    else
      var others := Split(s[1..], c);
      if s[0] == c then [""] + others else [[s[0]] + others[0]] + others[1..]
  }

  function Join(parts: seq<string>, c: char): string {
    if parts == [] then "" else if |parts| == 1 then parts[0] else parts[0] + [c] + Join(parts[1..], c)
  }

  lemma {:induction false} SplitUndoesJoin(parts: seq<string>, c: char)
    requires parts != [] && forall k :: 0 <= k < |parts| ==> Without(parts[k], c)
    ensures Split(Join(parts, c), c) == parts
  {
    if |parts| == 1 {
      SplitWhole(parts[0], c);
    } else {
      SplitUndoesJoin(parts[1..], c);
      SplitWhole(parts[0], c);
      SplitAppends(parts[0], Join(parts[1..], c), c);
    }
  }

  lemma {:induction false} SplitWhole(s: string, c: char)
    requires Without(s, c)
    ensures Split(s, c) == [s]
  {
    if s != "" {
      SplitWhole(s[1..], c);
      assert [s[0]] + s[1..] == s;
    }
  }

  lemma {:induction false} SplitAppends(s: string, t: string, c: char)
    ensures Split(s + [c] + t, c) == Split(s, c) + Split(t, c)
  {
    var whole := s + [c] + t;
    if s == "" {
      assert whole[1..] == t;
    } else {
      SplitAppends(s[1..], t, c);
      assert whole[1..] == s[1..] + [c] + t;
      Regroup("", Split(s[1..], c), Split(t, c));
      Regroup([s[0]] + Split(s[1..], c)[0], Split(s[1..], c), Split(t, c));
    }
  }

  lemma Regroup(first: string, x: seq<string>, y: seq<string>)
    requires x != []
    ensures [first] + (x + y) == [first] + x + y
    ensures [first] + (x + y)[1..] == [first] + x[1..] + y
  {
  }

  // ----- join_relative -----

  /** Names a step down, rather than nothing, the same directory or the one above. */
  predicate IsPlain(part: string) {
    part != "" && part != "." && part != ".."
  }

  /** Steps of a reference, one after the other, from the directory `parts`; `None` when one climbs out. */
  function Follow(parts: seq<string>, steps: seq<string>): Option<seq<string>>
    decreases |steps|
  {
    if steps == [] then Some(parts)
    else if steps[0] == "" || steps[0] == "." then Follow(parts, steps[1..])
    else if steps[0] == ".." then if parts == [] then None else Follow(parts[..|parts| - 1], steps[1..])
    else Follow(parts + [steps[0]], steps[1..])
  }

  function NonEmpty(parts: seq<string>): (kept: seq<string>)
    ensures forall k :: 0 <= k < |kept| ==> kept[k] != "" && kept[k] in parts
  {
    if parts == [] then []
    else if parts[0] == "" then NonEmpty(parts[1..])
    else [parts[0]] + NonEmpty(parts[1..])
  }

  predicate IsAbsolute(spec: string) {
    (spec != "" && spec[0] == '/') || '\\' in spec || ':' in spec
  }

  function Segments(dir: string): (parts: seq<string>)
    ensures forall k :: 0 <= k < |parts| ==> parts[k] != "" && Without(parts[k], '/')
  {
    NonEmpty(Split(dir, '/'))
  }

  function JoinRelative(dir: string, spec: string): Option<string> {
    if IsAbsolute(spec) then None
    else
      match Follow(Segments(dir), Split(spec, '/'))
      case None => None
      case Some(parts) => Some(Join(parts, '/'))
  }

  /** The loop over the reference's parts, pushing and popping. */
  method ComputeJoin(dir: string, spec: string) returns (joined: Option<string>)
    ensures joined == JoinRelative(dir, spec)
  {
    if IsAbsolute(spec) { return None; }
    var parts := Segments(dir);
    var steps := Split(spec, '/');
    var i := 0;
    while i < |steps|
      invariant 0 <= i <= |steps|
      invariant Follow(parts, steps[i..]) == Follow(Segments(dir), steps)
    {
      var part := steps[i];
      assert steps[i..][1..] == steps[i + 1..];
      if part == "" || part == "." {
      } else if part == ".." {
        if parts == [] { return None; }
        parts := parts[..|parts| - 1];
      } else {
        parts := parts + [part];
      }
      i := i + 1;
    }
    return Some(Join(parts, '/'));
  }

  // ----- what following does -----

  /** How many levels deeper `steps` end than they began. */
  function Net(steps: seq<string>): int {
    if steps == [] then 0
    else (if steps[0] == "" || steps[0] == "." then 0 else if steps[0] == ".." then -1 else 1) + Net(steps[1..])
  }

  /** Some prefix of `steps` climbs more levels than `depth`. */
  ghost predicate ClimbsOut(depth: nat, steps: seq<string>) {
    exists i :: 0 <= i <= |steps| && depth + Net(steps[..i]) < 0
  }

  lemma NetOfPrefix(steps: seq<string>, i: nat)
    requires 0 < i <= |steps|
    ensures Net(steps[..i]) == Net([steps[0]]) + Net(steps[1..][..i - 1])
  {
    assert steps[..i][1..] == steps[1..][..i - 1];
    assert [steps[0]][1..] == [];
  }

  lemma ClimbsOutLater(depth: nat, steps: seq<string>)
    requires steps != [] && depth + Net([steps[0]]) >= 0
    ensures ClimbsOut(depth, steps) <==> ClimbsOut(depth + Net([steps[0]]), steps[1..])
  {
    if ClimbsOut(depth, steps) {
      var i :| 0 <= i <= |steps| && depth + Net(steps[..i]) < 0;
      NetOfPrefix(steps, i);
    }
    if ClimbsOut(depth + Net([steps[0]]), steps[1..]) {
      var i :| 0 <= i <= |steps[1..]| && depth + Net([steps[0]]) + Net(steps[1..][..i]) < 0;
      NetOfPrefix(steps, i + 1);
    }
  }

  /** A reference is refused exactly when some prefix of it climbs above the directory's root. */
  lemma {:induction false} RefusedWhenItClimbsOut(parts: seq<string>, steps: seq<string>)
    ensures Follow(parts, steps) == None <==> ClimbsOut(|parts|, steps)
    decreases |steps|
  {
    if steps == [] {
    } else if steps[0] == ".." && parts == [] {
      NetOfPrefix(steps, 1);
      assert |parts| + Net(steps[..1]) < 0;
    } else {
      var one := Net([steps[0]]);
      ClimbsOutLater(|parts|, steps);
      RefusedWhenItClimbsOut(if one == 0 then parts else if one < 0 then parts[..|parts| - 1] else parts + [steps[0]],
                             steps[1..]);
    }
  }

  /** `result` keeps the first `kept` levels of `parts` and goes down by plain names from there. */
  predicate StepsDown(parts: seq<string>, result: seq<string>, kept: nat, steps: seq<string>) {
    && kept <= |parts| && kept <= |result| && result[..kept] == parts[..kept]
    && forall k :: kept <= k < |result| ==> IsPlain(result[k]) && result[k] in steps
  }

  lemma {:induction false} FollowStepsDown(parts: seq<string>, steps: seq<string>) returns (kept: nat)
    requires Follow(parts, steps).Some?
    ensures StepsDown(parts, Follow(parts, steps).value, kept, steps)
    decreases |steps|
  {
    if steps == [] {
      kept := |parts|;
    } else {
      var one := steps[0];
      var moved := if one == "" || one == "." then parts
                   else if one == ".." then parts[..|parts| - 1]
                   else parts + [one];
      var result := Follow(parts, steps).value;
      kept := FollowStepsDown(moved, steps[1..]);
      if kept > |parts| {
        kept := |parts|;
        assert result[..kept] == result[..|moved|][..kept];
        assert result[kept] == result[..|moved|][kept];
      }
    }
  }

  // ----- resolve -----

  function LastSlash(path: string): (end: nat)
    ensures end <= |path|
    ensures end > 0 ==> path[end - 1] == '/'
    ensures forall k :: end <= k < |path| ==> path[k] != '/'
  {
    if path == "" then 0 else if path[|path| - 1] == '/' then |path| else LastSlash(path[..|path| - 1])
  }

  /** A member's directory, through its last `/`. */
  function MemberDirectory(path: string): string {
    path[..LastSlash(path)]
  }

  predicate HasPrefix(s: string, prefix: string) {
    |prefix| <= |s| && s[..|prefix|] == prefix
  }

  function Resolve(baseFile: string, spec: string, boundary: string): Option<string> {
    if !HasPrefix(baseFile, boundary) then None
    else
      match JoinRelative(MemberDirectory(baseFile[|boundary|..]), spec)
      case None => None
      case Some(joined) => Some(boundary + joined)
  }

  /**
   A resolved reference lies under the boundary: behind it come levels of the referring file's own
   directory and then plain names of the reference, never a `.` or `..` of it.
   */
  lemma ResolvedStaysInside(baseFile: string, spec: string, boundary: string) returns (kept: nat)
    requires Resolve(baseFile, spec, boundary).Some?
    ensures var path := Resolve(baseFile, spec, boundary).value;
            && HasPrefix(path, boundary)
            && StepsDown(Segments(MemberDirectory(baseFile[|boundary|..])), Segments(path[|boundary|..]), kept,
                         Split(spec, '/'))
  {
    var dir := Segments(MemberDirectory(baseFile[|boundary|..]));
    var steps := Split(spec, '/');
    var parts := Follow(dir, steps).value;
    kept := FollowStepsDown(dir, steps);
    forall k | 0 <= k < |parts| ensures parts[k] != "" && Without(parts[k], '/') {
      if k < kept { assert parts[k] == parts[..kept][k]; }
    }
    SegmentsOfJoin(parts);
    assert (boundary + Join(parts, '/'))[|boundary|..] == Join(parts, '/');
  }

  lemma SegmentsOfJoin(parts: seq<string>)
    requires forall k :: 0 <= k < |parts| ==> parts[k] != "" && Without(parts[k], '/')
    ensures Segments(Join(parts, '/')) == parts
  {
    if parts == [] {
      assert NonEmpty([""]) == [] by { assert [""][1..] == []; }
    } else {
      SplitUndoesJoin(parts, '/');
      NonEmptyKeepsAll(parts);
    }
  }

  lemma {:induction false} NonEmptyKeepsAll(parts: seq<string>)
    requires forall k :: 0 <= k < |parts| ==> parts[k] != ""
    ensures NonEmpty(parts) == parts
  {
    if parts != [] { NonEmptyKeepsAll(parts[1..]); }
  }

  /** A reference is resolved unless it is absolute, climbs out, or its file is not the boundary's. */
  lemma ResolvedUnlessItLeaves(baseFile: string, spec: string, boundary: string)
    ensures Resolve(baseFile, spec, boundary).Some?
            <==> && HasPrefix(baseFile, boundary)
                 && (spec != "" ==> spec[0] != '/') && Without(spec, '\\') && Without(spec, ':')
                 && !ClimbsOut(|Segments(MemberDirectory(baseFile[|boundary|..]))|, Split(spec, '/'))
  {
    if HasPrefix(baseFile, boundary) {
      RefusedWhenItClimbsOut(Segments(MemberDirectory(baseFile[|boundary|..])), Split(spec, '/'));
    }
  }

  // ----- steps that stay, and steps that go up -----

  function WithoutStays(steps: seq<string>): seq<string> {
    if steps == [] then []
    else (if steps[0] == "" || steps[0] == "." then [] else [steps[0]]) + WithoutStays(steps[1..])
  }

  /** A `.` or an empty step changes nothing. */
  lemma {:induction false} StaysChangeNothing(parts: seq<string>, steps: seq<string>)
    ensures Follow(parts, steps) == Follow(parts, WithoutStays(steps))
    decreases |steps|
  {
    if steps != [] {
      var one := steps[0];
      var rest := WithoutStays(steps[1..]);
      assert ([one] + rest)[1..] == rest && [] + rest == rest;
      if one == "" || one == "." {
        StaysChangeNothing(parts, steps[1..]);
      } else if one == ".." {
        if parts != [] { StaysChangeNothing(parts[..|parts| - 1], steps[1..]); }
      } else {
        StaysChangeNothing(parts + [one], steps[1..]);
      }
    }
  }

  // ----- references that only go down -----

  lemma {:induction false} JoinUndoesSplit(s: string, c: char)
    ensures Join(Split(s, c), c) == s
  {
    if s != "" {
      JoinUndoesSplit(s[1..], c);
      var others := Split(s[1..], c);
      if s[0] == c {
        assert ([""] + others)[1..] == others;
      } else {
        assert ([[s[0]] + others[0]] + others[1..])[1..] == others[1..];
      }
      assert s == [s[0]] + s[1..];
    }
  }

  lemma {:induction false} JoinAppends(x: seq<string>, y: seq<string>, c: char)
    requires x != [] && y != []
    ensures Join(x + y, c) == Join(x, c) + [c] + Join(y, c)
  {
    if |x| == 1 {
      assert (x + y)[1..] == y;
    } else {
      JoinAppends(x[1..], y, c);
      assert (x + y)[1..] == x[1..] + y;
    }
  }

  lemma {:induction false} NonEmptyDropsLast(parts: seq<string>)
    ensures NonEmpty(parts + [""]) == NonEmpty(parts)
  {
    if parts == [] {
      assert [] + [""] == [""] && [""][1..] == [];
    } else {
      NonEmptyDropsLast(parts[1..]);
      assert (parts + [""])[1..] == parts[1..] + [""];
    }
  }

  lemma {:induction false} FollowsPlainSteps(parts: seq<string>, steps: seq<string>)
    requires forall k :: 0 <= k < |steps| ==> IsPlain(steps[k])
    ensures Follow(parts, steps) == Some(parts + steps)
    decreases |steps|
  {
    if steps == [] {
      assert parts + steps == parts;
    } else {
      FollowsPlainSteps(parts + [steps[0]], steps[1..]);
      assert parts + [steps[0]] + steps[1..] == parts + steps;
    }
  }

  /** A directory as its levels, each followed by a `/`. */
  function Dir(levels: seq<string>): string {
    if levels == [] then "" else Join(levels, '/') + "/"
  }

  predicate AreLevels(levels: seq<string>) {
    forall k :: 0 <= k < |levels| ==> levels[k] != "" && Without(levels[k], '/')
  }

  lemma SegmentsOfDir(levels: seq<string>)
    requires AreLevels(levels)
    ensures Segments(Dir(levels)) == levels
  {
    if levels == [] {
      SegmentsOfJoin(levels);
    } else {
      var joined := Join(levels, '/');
      SplitUndoesJoin(levels, '/');
      assert Dir(levels) == joined + ['/'] + "";
      SplitAppends(joined, "", '/');
      NonEmptyDropsLast(levels);
      NonEmptyKeepsAll(levels);
    }
  }

  lemma {:induction false} DirectoryOf(dir: string, file: string)
    requires dir == "" || dir[|dir| - 1] == '/'
    requires Without(file, '/')
    ensures MemberDirectory(dir + file) == dir
    decreases |file|
  {
    if file == "" {
      assert dir + file == dir;
    } else {
      var front := file[..|file| - 1];
      DirectoryOf(dir, front);
      assert (dir + file)[..|dir + file| - 1] == dir + front;
    }
  }

  /** A reference of plain names. */
  predicate GoesDown(spec: string) {
    !IsAbsolute(spec) && forall k :: 0 <= k < |Split(spec, '/')| ==> IsPlain(Split(spec, '/')[k])
  }

  /** A reference that only goes down names the file at that place under the referring directory. */
  lemma GoingDownAppends(boundary: string, levels: seq<string>, file: string, spec: string)
    requires AreLevels(levels) && Without(file, '/') && GoesDown(spec)
    ensures Resolve(boundary + Dir(levels) + file, spec, boundary) == Some(boundary + Dir(levels) + spec)
  {
    hide Split, Join, Follow, Segments, MemberDirectory, IsAbsolute;
    var path := boundary + Dir(levels) + file;
    assert path[..|boundary|] == boundary && path[|boundary|..] == Dir(levels) + file;
    DirectoryOf(Dir(levels), file);
    SegmentsOfDir(levels);
    var steps := Split(spec, '/');
    FollowsPlainSteps(levels, steps);
    JoinUndoesSplit(spec, '/');
    if levels == [] {
      assert levels + steps == steps;
      assert boundary + Dir(levels) + spec == boundary + spec;
    } else {
      JoinAppends(levels, steps, '/');
      assert boundary + (Join(levels, '/') + ['/'] + spec) == boundary + (Join(levels, '/') + "/") + spec;
    }
  }
}
