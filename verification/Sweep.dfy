/**
 One sweep of a cache directory: the walk, the age pass and the count-and-size pass of
 `cache/sweep.rs`. Any delete may fail, and one that fails in a pass may succeed in the next; between
 any two calls others, such as a second process's sweep, may delete whatever they like.
 */
module Sweep {
  import opened Bytes

  type Path = string

  datatype Kind = Bin | Temp | Other
  datatype File = File(kind: Kind, modified: int, bytes: nat)

  /** What the walk read of a `.bin` file. */
  datatype Entry = Entry(path: Path, modified: int, bytes: nat)

  datatype Budget = Budget(maxAge: nat, maxBytes: nat, maxEntries: nat)

  /** In seconds: how old a temp file may grow before the walk takes its writer for dead. */
  const ORPHANED_TEMP_AGE: nat := 15 * 60

  /**
   What goes wrong during one sweep: the files whose metadata the walk cannot read, and the deletes
   that fail in the walk, in the age pass and in the second pass. A pass tries a file at most once.
   */
  datatype Faults = Faults(unread: set<Path>, walk: set<Path>, age: set<Path>, evict: set<Path>)

  /** What others have deleted, or would have, by the time of call `t`. */
  function Taken(others: nat -> set<Path>, t: nat): set<Path> {
    if t == 0 then {} else Taken(others, t - 1) + others(t - 1)
  }

  lemma {:induction false} TakenGrows(others: nat -> set<Path>, s: nat, t: nat)
    requires s <= t
    ensures Taken(others, s) <= Taken(others, t)
    decreases t
  {
    if s < t { TakenGrows(others, s, t - 1); }
  }

  /** The files below one version directory, and what goes on there meanwhile. */
  class Directory {
    var files: map<Path, File>
    var tick: nat
    const faults: Faults
    const others: nat -> set<Path>
    ghost var kept: map<Path, File>  // what the sweep itself has left

    ghost predicate Valid()
      reads this
    {
      files == kept - Taken(others, tick)
    }

    constructor (files: map<Path, File>, faults: Faults, others: nat -> set<Path>)
      ensures Valid() && this.files == kept == files && tick == 0
      ensures this.faults == faults && this.others == others
    {
      this.files, this.kept, this.tick, this.faults, this.others := files, files, 0, faults, others;
    }

    /** Others delete some files. */
    method Meanwhile()
      requires Valid()
      modifies this`files, this`tick
      ensures Valid() && tick == old(tick) + 1
    {
      files, tick := files - others(tick), tick + 1;
    }

    /** A file's metadata, read a while after the file was listed. */
    method Metadata(path: Path) returns (file: Option<File>)
      requires Valid()
      modifies this`files, this`tick
      ensures Valid() && tick == old(tick) + 1
      ensures file == if path in kept && path !in Taken(others, tick) && path !in faults.unread then Some(kept[path])
                      else None
    {
      Meanwhile();
      return if path in files && path !in faults.unread then Some(files[path]) else None;
    }

    /** `remove_file`, in a pass whose failing deletes are `refuses`. */
    method Remove(path: Path, refuses: set<Path>) returns (ok: bool)
      requires Valid()
      modifies this`files, this`kept
      ensures Valid()
      ensures ok <==> path in old(kept) && path !in Taken(others, tick) && path !in refuses
      ensures kept == if ok then old(kept) - {path} else old(kept)
    {
      ok := path in files && path !in refuses;
      if ok { files, kept := files - {path}, kept - {path}; }
    }
  }

  /** How long ago, or zero for a time to come. */
  function Age(now: int, modified: int): nat {
    if now > modified then now - modified else 0
  }

  // ----- lists of entries -----

  function Total(s: seq<Entry>): nat {
    if s == [] then 0 else s[0].bytes + Total(s[1..])
  }

  function Keep(s: seq<Entry>, p: Entry -> bool): (r: seq<Entry>)
    ensures |r| <= |s|
    ensures forall e :: e in r <==> e in s && p(e)
  {
    if s == [] then [] else (if p(s[0]) then [s[0]] else []) + Keep(s[1..], p)
  }

  function Paths(s: seq<Entry>): set<Path> {
    set e | e in s :: e.path
  }

  predicate Distinct(s: seq<Entry>) {
    forall i, j :: 0 <= i < j < |s| ==> s[i].path != s[j].path
  }

  predicate SortedByAge(s: seq<Entry>) {
    forall i, j :: 0 <= i < j < |s| ==> s[i].modified <= s[j].modified
  }

  /** `entries` are the `.bin` files of a directory that could be read, each once. */
  ghost predicate Lists(entries: seq<Entry>, files: map<Path, File>, unread: set<Path>) {
    && Distinct(entries)
    && (forall e :: e in entries ==>
          e.path in files && e.path !in unread && files[e.path] == File(Bin, e.modified, e.bytes))
    && (forall p :: p in files && p !in unread && files[p].kind == Bin ==> p in Paths(entries))
  }

  lemma {:induction false} TotalAppends(x: seq<Entry>, y: seq<Entry>)
    ensures Total(x + y) == Total(x) + Total(y)
  {
    if x == [] {
      assert x + y == y;
    } else {
      assert (x + y)[1..] == x[1..] + y;
      TotalAppends(x[1..], y);
    }
  }

  lemma {:induction false} KeepAppends(x: seq<Entry>, y: seq<Entry>, p: Entry -> bool)
    ensures Keep(x + y, p) == Keep(x, p) + Keep(y, p)
  {
    if x == [] {
      assert x + y == y;
    } else {
      assert (x + y)[1..] == x[1..] + y;
      KeepAppends(x[1..], y, p);
    }
  }

  lemma KeepSnoc(s: seq<Entry>, k: nat, p: Entry -> bool)
    requires k < |s|
    ensures Keep(s[..k + 1], p) == Keep(s[..k], p) + if p(s[k]) then [s[k]] else []
    ensures Total(Keep(s[..k + 1], p)) == Total(Keep(s[..k], p)) + if p(s[k]) then s[k].bytes else 0
  {
    assert s[..k + 1] == s[..k] + [s[k]];
    KeepAppends(s[..k], [s[k]], p);
    assert Keep([s[k]], p) == if p(s[k]) then [s[k]] else [];
    TotalAppends(Keep(s[..k], p), Keep([s[k]], p));
    assert Total([s[k]]) == s[k].bytes;
  }

  /** What a test keeps and what its negation keeps are the whole. */
  lemma {:induction false} KeepSplits(s: seq<Entry>, p: Entry -> bool, q: Entry -> bool)
    requires forall e :: q(e) <==> !p(e)
    ensures |Keep(s, p)| + |Keep(s, q)| == |s|
    ensures Total(Keep(s, p)) + Total(Keep(s, q)) == Total(s)
  {
    if s != [] {
      KeepSplits(s[1..], p, q);
      var first := [s[0]];
      TotalAppends(if p(s[0]) then first else [], Keep(s[1..], p));
      TotalAppends(if q(s[0]) then first else [], Keep(s[1..], q));
      assert Total(first) == s[0].bytes;
    }
  }

  // ----- the count-and-size pass, on values -----

  predicate Over(total: nat, count: nat, byteTarget: nat, countTarget: nat) {
    !(total <= byteTarget && count <= countTarget)
  }

  /** How many of `s`, oldest first, are tried before both targets are met. */
  function Tried(s: seq<Entry>, ok: Entry -> bool, total: nat, count: nat, byteTarget: nat, countTarget: nat): (n: nat)
    requires Total(s) <= total && |s| <= count
    ensures n <= |s|
  {
    if s == [] || !Over(total, count, byteTarget, countTarget) then 0
    else if ok(s[0]) then 1 + Tried(s[1..], ok, total - s[0].bytes, count - 1, byteTarget, countTarget)
    else 1 + Tried(s[1..], ok, total, count, byteTarget, countTarget)
  }

  function TotalAfter(s: seq<Entry>, ok: Entry -> bool, n: nat, total: nat): int
    requires n <= |s|
  {
    total - Total(Keep(s[..n], ok))
  }

  function CountAfter(s: seq<Entry>, ok: Entry -> bool, n: nat, count: nat): int
    requires n <= |s|
  {
    count - |Keep(s[..n], ok)|
  }

  lemma {:induction false} PrefixIsPart(s: seq<Entry>, ok: Entry -> bool, n: nat)
    requires n <= |s|
    ensures Total(Keep(s[..n], ok)) <= Total(s) && |Keep(s[..n], ok)| <= n
  {
    hide Keep, Total;
    KeepSplits(s[..n], ok, e => !ok(e));
    TotalAppends(s[..n], s[n..]);
    assert s == s[..n] + s[n..];
  }

  lemma KeepCons(s: seq<Entry>, ok: Entry -> bool, n: nat)
    requires 1 <= n <= |s|
    ensures Keep(s[..n], ok) == (if ok(s[0]) then [s[0]] else []) + Keep(s[1..][..n - 1], ok)
    ensures Total(Keep(s[..n], ok)) == (if ok(s[0]) then s[0].bytes else 0) + Total(Keep(s[1..][..n - 1], ok))
  {
    assert s[..n][1..] == s[1..][..n - 1];
    assert Total([s[0]]) == s[0].bytes;
    TotalAppends(if ok(s[0]) then [s[0]] else [], Keep(s[1..][..n - 1], ok));
  }

  /**
   The pass tries the shortest prefix that suffices: before each entry it tried a target was
   exceeded, and after the last both are met, unless there was nothing left to try.
   */
  lemma {:induction false} TriesShortestPrefix(s: seq<Entry>, ok: Entry -> bool, total: nat, count: nat,
                                               byteTarget: nat, countTarget: nat, m: nat)
    requires Total(s) <= total && |s| <= count
    requires m <= Tried(s, ok, total, count, byteTarget, countTarget)
    ensures 0 <= TotalAfter(s, ok, m, total) && 0 <= CountAfter(s, ok, m, count)
    ensures var n := Tried(s, ok, total, count, byteTarget, countTarget);
            var over := Over(TotalAfter(s, ok, m, total), CountAfter(s, ok, m, count), byteTarget, countTarget);
            (m < n ==> over) && (m == n < |s| ==> !over)
    decreases |s|
  {
    hide Keep, Total;
    PrefixIsPart(s, ok, m);
    if m == 0 {
      assert s[..0] == [];
      NothingKept(ok);
    } else {
      KeepCons(s, ok, m);
      TotalCons(s);
      TriesShortestPrefix(s[1..], ok, if ok(s[0]) then total - s[0].bytes else total,
                          if ok(s[0]) then count - 1 else count, byteTarget, countTarget, m - 1);
    }
  }

  lemma NothingKept(p: Entry -> bool)
    ensures Keep([], p) == [] && Total([]) == 0
  {
  }

  lemma TotalCons(s: seq<Entry>)
    requires s != []
    ensures Total(s) == s[0].bytes + Total(s[1..])
  {
  }

  lemma {:induction false} KeepsAll(s: seq<Entry>, ok: Entry -> bool)
    requires forall e :: e in s ==> ok(e)
    ensures Keep(s, ok) == s
  {
    if s != [] {
      assert ok(s[0]);
      KeepsAll(s[1..], ok);
    }
  }

  // ----- the passes, on the directory -----

  predicate IsOrphan(file: File, now: int) {
    file.kind == Temp && Age(now, file.modified) > ORPHANED_TEMP_AGE
  }

  /** The orphaned temp files a sweep removes. */
  function Orphans(files: map<Path, File>, faults: Faults, now: int): set<Path> {
    set p | p in files && IsOrphan(files[p], now) && p !in faults.unread && p !in faults.walk
  }

  /** What a walk that has still to visit `todo` has gathered and removed. */
  ghost predicate Walked(all: map<Path, File>, faults: Faults, now: int, todo: set<Path>,
                         entries: seq<Entry>, gone: set<Path>)
  {
    && todo <= all.Keys && gone == Orphans(all, faults, now) - todo
    && Distinct(entries) && Paths(entries) !! todo
    && (forall e :: e in entries ==>
          e.path in all && e.path !in faults.unread && all[e.path] == File(Bin, e.modified, e.bytes))
    && (forall p :: p in all && p !in todo && p !in faults.unread && all[p].kind == Bin ==> p in Paths(entries))
  }

  lemma WalkedEntry(all: map<Path, File>, faults: Faults, now: int, todo: set<Path>,
                    entries: seq<Entry>, gone: set<Path>, p: Path)
    requires Walked(all, faults, now, todo, entries, gone) && p in todo && all[p].kind == Bin && p !in faults.unread
    ensures Walked(all, faults, now, todo - {p}, entries + [Entry(p, all[p].modified, all[p].bytes)], gone)
  {
    var entry := Entry(p, all[p].modified, all[p].bytes);
    assert Paths(entries + [entry]) == Paths(entries) + {p};
    forall i, j | 0 <= i < j < |entries + [entry]|
      ensures (entries + [entry])[i].path != (entries + [entry])[j].path
    {
      if j == |entries| { assert entries[i].path in Paths(entries); }
    }
  }

  lemma WalkedOther(all: map<Path, File>, faults: Faults, now: int, todo: set<Path>,
                    entries: seq<Entry>, gone: set<Path>, p: Path)
    requires Walked(all, faults, now, todo, entries, gone) && p in todo
    requires all[p].kind != Bin || p in faults.unread
    ensures p !in gone
    ensures var removed := if IsOrphan(all[p], now) && p !in faults.unread && p !in faults.walk then {p} else {};
            Walked(all, faults, now, todo - {p}, entries, gone + removed)
  {
  }

  lemma WalkedAll(all: map<Path, File>, faults: Faults, now: int, entries: seq<Entry>, gone: set<Path>)
    requires Walked(all, faults, now, {}, entries, gone)
    ensures gone == Orphans(all, faults, now)
    ensures Lists(entries, all, faults.unread) && Lists(entries, all - gone, faults.unread)
  {
  }

  /** What went wrong in fact: the faults there are, and deletes and reads that came too late. */
  ghost predicate MetInWalk(faults: Faults, met: Faults, taken: set<Path>) {
    && met.age == faults.age && met.evict == faults.evict
    && faults.unread <= met.unread <= faults.unread + taken
    && faults.walk <= met.walk <= faults.walk + taken
  }

  lemma StillMet(faults: Faults, met: Faults, others: nat -> set<Path>, t: nat)
    requires MetInWalk(faults, met, Taken(others, t))
    ensures MetInWalk(faults, met, Taken(others, t + 1))
  {
    TakenGrows(others, t, t + 1);
  }

  /** What is there to read or to delete, and is not refused, does not fail. */
  lemma MetNot(faults: Faults, met: Faults, taken: set<Path>, p: Path)
    requires MetInWalk(faults, met, taken) && p !in taken
    ensures p in met.unread <==> p in faults.unread
    ensures p in met.walk <==> p in faults.walk
  {
  }

  lemma MetUnread(faults: Faults, met: Faults, taken: set<Path>, p: Path)
    requires MetInWalk(faults, met, taken) && (p in faults.unread || p in taken)
    ensures MetInWalk(faults, Unreadable(met, p), taken)
  {
  }

  lemma MetUndeleted(faults: Faults, met: Faults, taken: set<Path>, p: Path)
    requires MetInWalk(faults, met, taken) && (p in faults.walk || p in taken)
    ensures MetInWalk(faults, Undeletable(met, p), taken)
  {
  }

  lemma StartsQuiet(faults: Faults, others: nat -> set<Path>)
    ensures Taken(others, 0) == {} && MetInWalk(faults, faults, {})
  {
  }

  /** A visit that finds no metadata, and one whose delete fails. */
  ghost function Unreadable(met: Faults, p: Path): Faults {
    met.(unread := met.unread + {p})
  }

  ghost function Undeletable(met: Faults, p: Path): Faults {
    met.(walk := met.walk + {p})
  }

  lemma WalkedUnread(all: map<Path, File>, met: Faults, now: int, todo: set<Path>,
                     entries: seq<Entry>, gone: set<Path>, p: Path)
    requires Walked(all, met, now, todo, entries, gone) && p in todo
    ensures Walked(all, Unreadable(met, p), now, todo - {p}, entries, gone)
  {
    hide IsOrphan;
    var g := Unreadable(met, p);
    forall e | e in entries ensures e.path != p { assert e.path in Paths(entries); }
    assert Orphans(all, g, now) - (todo - {p}) == Orphans(all, met, now) - todo;
  }

  lemma WalkedUndeleted(all: map<Path, File>, met: Faults, now: int, todo: set<Path>,
                        entries: seq<Entry>, gone: set<Path>, p: Path)
    requires Walked(all, met, now, todo, entries, gone) && p in todo && all[p].kind != Bin
    ensures Walked(all, Undeletable(met, p), now, todo - {p}, entries, gone)
  {
    hide IsOrphan;
    assert Orphans(all, Undeletable(met, p), now) - (todo - {p}) == Orphans(all, met, now) - todo;
  }

  /** A walk of `all` with `todo` still to visit, amid others who have taken `taken`. */
  ghost predicate Gathering(all: map<Path, File>, kept: map<Path, File>, faults: Faults, taken: set<Path>, now: int,
                            met: Faults, todo: set<Path>, entries: seq<Entry>, gone: set<Path>)
  {
    && todo <= all.Keys && gone !! todo && kept == all - gone
    && MetInWalk(faults, met, taken)
    && Walked(all, met, now, todo, entries, gone)
  }

  lemma GatherNothing(all: map<Path, File>, faults: Faults, others: nat -> set<Path>, now: int)
    ensures Gathering(all, all, faults, Taken(others, 0), now, faults, all.Keys, [], {})
  {
    StartsQuiet(faults, others);
    StartWalk(all, faults, now);
    assert all == all - {};
  }

  lemma GatherLater(all: map<Path, File>, kept: map<Path, File>, faults: Faults, others: nat -> set<Path>, t: nat,
                    now: int, met: Faults, todo: set<Path>, entries: seq<Entry>, gone: set<Path>)
    requires Gathering(all, kept, faults, Taken(others, t), now, met, todo, entries, gone)
    ensures Gathering(all, kept, faults, Taken(others, t + 1), now, met, todo, entries, gone)
    ensures forall p :: p in todo ==> p in kept && kept[p] == all[p]
  {
    hide Walked, MetInWalk, Taken;
    StillMet(faults, met, others, t);
  }

  /** A visit that reads nothing, an entry, an orphan that goes or stays, or anything else. */
  lemma GatherUnread(all: map<Path, File>, kept: map<Path, File>, faults: Faults, taken: set<Path>, now: int,
                     met: Faults, todo: set<Path>, entries: seq<Entry>, gone: set<Path>, p: Path)
    requires Gathering(all, kept, faults, taken, now, met, todo, entries, gone) && p in todo
    requires p in faults.unread || p in taken
    ensures Gathering(all, kept, faults, taken, now, Unreadable(met, p), todo - {p}, entries, gone)
  {
    hide Walked, MetInWalk, Unreadable;
    MetUnread(faults, met, taken, p);
    WalkedUnread(all, met, now, todo, entries, gone, p);
  }

  lemma GatherEntry(all: map<Path, File>, kept: map<Path, File>, faults: Faults, taken: set<Path>, now: int,
                    met: Faults, todo: set<Path>, entries: seq<Entry>, gone: set<Path>, p: Path)
    requires Gathering(all, kept, faults, taken, now, met, todo, entries, gone) && p in todo
    requires p !in faults.unread && p !in taken && all[p].kind == Bin
    ensures Gathering(all, kept, faults, taken, now, met, todo - {p},
                      entries + [Entry(p, all[p].modified, all[p].bytes)], gone)
  {
    hide Walked, MetInWalk;
    MetNot(faults, met, taken, p);
    WalkedEntry(all, met, now, todo, entries, gone, p);
  }

  lemma GatherOrphan(all: map<Path, File>, kept: map<Path, File>, faults: Faults, taken: set<Path>, now: int,
                     met: Faults, todo: set<Path>, entries: seq<Entry>, gone: set<Path>, p: Path)
    requires Gathering(all, kept, faults, taken, now, met, todo, entries, gone) && p in todo
    requires p !in met.unread && IsOrphan(all[p], now)
    ensures p !in gone
    ensures p !in faults.walk && p !in taken ==>
              Gathering(all, kept - {p}, faults, taken, now, met, todo - {p}, entries, gone + {p})
    ensures p in faults.walk || p in taken ==>
              Gathering(all, kept, faults, taken, now, Undeletable(met, p), todo - {p}, entries, gone)
  {
    hide Walked, MetInWalk, Undeletable;
    if p in faults.walk || p in taken {
      MetUndeleted(faults, met, taken, p);
      WalkedUndeleted(all, met, now, todo, entries, gone, p);
    } else {
      MetNot(faults, met, taken, p);
      WalkedOther(all, met, now, todo, entries, gone, p);
      OneMoreGone(all, gone, p);
    }
  }

  lemma GatherOther(all: map<Path, File>, kept: map<Path, File>, faults: Faults, taken: set<Path>, now: int,
                    met: Faults, todo: set<Path>, entries: seq<Entry>, gone: set<Path>, p: Path)
    requires Gathering(all, kept, faults, taken, now, met, todo, entries, gone) && p in todo
    requires all[p].kind != Bin && !IsOrphan(all[p], now)
    ensures Gathering(all, kept, faults, taken, now, met, todo - {p}, entries, gone)
  {
    hide Walked, MetInWalk;
    WalkedOther(all, met, now, todo, entries, gone, p);
    assert gone + {} == gone;
  }

  lemma GatheredAll(all: map<Path, File>, kept: map<Path, File>, faults: Faults, taken: set<Path>, now: int,
                    met: Faults, entries: seq<Entry>, gone: set<Path>)
    requires Gathering(all, kept, faults, taken, now, met, {}, entries, gone)
    ensures gone == Orphans(all, met, now) && kept == all - gone && MetInWalk(faults, met, taken)
    ensures Lists(entries, kept, met.unread) && Lists(entries, all, met.unread)
  {
    hide Walked, MetInWalk, Lists, Orphans;
    WalkedAll(all, met, now, entries, gone);
  }

  /** Removes the orphaned temp file `p`, unless that is refused or others were first. */
  method TakeOrphan(dir: Directory, now: int, p: Path, ghost all: map<Path, File>, ghost met: Faults,
                    ghost todo: set<Path>, ghost entries: seq<Entry>, ghost gone: set<Path>)
    returns (ok: bool, ghost nowMet: Faults, ghost nowGone: set<Path>)
    requires dir.Valid() && p in todo
    requires Gathering(all, dir.kept, dir.faults, Taken(dir.others, dir.tick), now, met, todo, entries, gone)
    requires p in dir.kept && IsOrphan(dir.kept[p], now)
    requires p !in dir.faults.unread && p !in Taken(dir.others, dir.tick)
    modifies dir
    ensures dir.Valid() && |nowGone| == |gone| + if ok then 1 else 0
    ensures Gathering(all, dir.kept, dir.faults, Taken(dir.others, dir.tick), now, nowMet, todo - {p}, entries, nowGone)
  {
    hide Gathering, IsOrphan, Unreadable, Undeletable, Taken;
    NotUnread(all, dir.kept, dir.faults, Taken(dir.others, dir.tick), now, met, todo, entries, gone, p);
    GatherLater(all, dir.kept, dir.faults, dir.others, dir.tick, now, met, todo, entries, gone);
    dir.Meanwhile();
    GatherOrphan(all, dir.kept, dir.faults, Taken(dir.others, dir.tick), now, met, todo, entries, gone, p);
    ok := dir.Remove(p, dir.faults.walk);
    nowMet, nowGone := if ok then met else Undeletable(met, p), if ok then gone + {p} else gone;
  }

  /** `collect`: every entry below the root, whatever order the walk gives; orphaned temps go. */
  method Collect(dir: Directory, now: int) returns (entries: seq<Entry>, orphans: nat, ghost met: Faults)
    requires dir.Valid() && dir.tick == 0
    modifies dir
    ensures dir.Valid() && MetInWalk(dir.faults, met, Taken(dir.others, dir.tick))
    ensures Lists(entries, dir.kept, met.unread) && Lists(entries, old(dir.kept), met.unread)
    ensures var gone := Orphans(old(dir.kept), met, now);
            dir.kept == old(dir.kept) - gone && orphans == |gone|
  {
    hide Gathering, IsOrphan, Orphans, Lists, MetInWalk, Unreadable, Undeletable;
    entries, orphans, met := [], 0, dir.faults;
    ghost var all := dir.kept;
    ghost var gone: set<Path> := {};
    GatherNothing(all, dir.faults, dir.others, now);
    assert dir.files == dir.kept;
    hide Taken;
    var todo := dir.files.Keys;
    while todo != {}
      invariant dir.Valid() && orphans == |gone|
      invariant Gathering(all, dir.kept, dir.faults, Taken(dir.others, dir.tick), now, met, todo, entries, gone)
      decreases |todo|
    {
      var p :| p in todo;
      GatherLater(all, dir.kept, dir.faults, dir.others, dir.tick, now, met, todo, entries, gone);
      var file := dir.Metadata(p);
      ghost var taken := Taken(dir.others, dir.tick);
      if file.None? {
        GatherUnread(all, dir.kept, dir.faults, taken, now, met, todo, entries, gone, p);
        met := Unreadable(met, p);
      } else if file.value.kind == Bin {
        GatherEntry(all, dir.kept, dir.faults, taken, now, met, todo, entries, gone, p);
        entries := entries + [Entry(p, file.value.modified, file.value.bytes)];
      } else if IsOrphan(file.value, now) {
        var ok;
        ok, met, gone := TakeOrphan(dir, now, p, all, met, todo, entries, gone);
        if ok { orphans := orphans + 1; }
      } else {
        GatherOther(all, dir.kept, dir.faults, taken, now, met, todo, entries, gone, p);
      }
      todo := todo - {p};
    }
    GatheredAll(all, dir.kept, dir.faults, Taken(dir.others, dir.tick), now, met, entries, gone);
  }

  lemma NotUnread(all: map<Path, File>, kept: map<Path, File>, faults: Faults, taken: set<Path>, now: int,
                  met: Faults, todo: set<Path>, entries: seq<Entry>, gone: set<Path>, p: Path)
    requires Gathering(all, kept, faults, taken, now, met, todo, entries, gone)
    requires p !in faults.unread && p !in taken
    ensures p !in met.unread
  {
    MetNot(faults, met, taken, p);
  }

  lemma OneMoreGone(all: map<Path, File>, gone: set<Path>, p: Path)
    requires p !in gone
    ensures all - gone - {p} == all - (gone + {p}) && |gone + {p}| == |gone| + 1
  {
  }

  lemma StartWalk(all: map<Path, File>, faults: Faults, now: int)
    ensures Walked(all, faults, now, all.Keys, [], {})
  {
  }

  /** Whether the age pass deletes `e`. */
  function Expires(now: int, maxAge: nat, refuses: set<Path>): Entry -> bool {
    (e: Entry) => Age(now, e.modified) > maxAge && e.path !in refuses
  }

  function Stays(now: int, maxAge: nat, refuses: set<Path>): Entry -> bool {
    (e: Entry) => !Expires(now, maxAge, refuses)(e)
  }

  function Deletes(refuses: set<Path>): Entry -> bool {
    (e: Entry) => e.path !in refuses
  }

  /** Of the first `k` entries those that pass `p` are deleted and counted, and nothing else is. */
  ghost predicate Deleted(before: map<Path, File>, after: map<Path, File>, s: seq<Entry>, p: Entry -> bool,
                          k: nat, freed: nat, evicted: nat)
  {
    && k <= |s|
    && after == before - Paths(Keep(s[..k], p))
    && freed == Total(Keep(s[..k], p))
    && evicted == |Keep(s[..k], p)|
  }

  lemma DeletedNone(before: map<Path, File>, s: seq<Entry>, p: Entry -> bool)
    ensures Deleted(before, before, s, p, 0, 0, 0)
  {
    assert s[..0] == [];
  }

  lemma DeletedNext(before: map<Path, File>, after: map<Path, File>, s: seq<Entry>, p: Entry -> bool,
                    k: nat, freed: nat, evicted: nat)
    requires Deleted(before, after, s, p, k, freed, evicted)
    requires k < |s| && Distinct(s) && s[k].path in before
    ensures s[k].path in after
    ensures if p(s[k]) then Deleted(before, after - {s[k].path}, s, p, k + 1, freed + s[k].bytes, evicted + 1)
            else Deleted(before, after, s, p, k + 1, freed, evicted)
  {
    hide Keep, Total;
    KeepSnoc(s, k, p);
    var done := Keep(s[..k], p);
    forall e | e in done ensures e.path != s[k].path {
      assert e in s[..k];
    }
    if p(s[k]) {
      PathsSnoc(done, s[k]);
      MapMinus(before, Paths(done), s[k].path);
    } else {
      assert done + [] == done;
    }
  }

  lemma PathsSnoc(s: seq<Entry>, e: Entry)
    ensures Paths(s + [e]) == Paths(s) + {e.path}
  {
  }

  lemma MapMinus(m: map<Path, File>, gone: set<Path>, p: Path)
    ensures m - gone - {p} == m - (gone + {p})
  {
  }

  /** Those of `s`, visited one a call from call `t` on, whose delete fails: refused, or taken by then. */
  function Failing(s: seq<Entry>, refuses: set<Path>, others: nat -> set<Path>, t: nat): set<Path> {
    set k | 0 <= k < |s| && (s[k].path in refuses || s[k].path in Taken(others, t + k + 1)) :: s[k].path
  }

  lemma FailingAt(s: seq<Entry>, refuses: set<Path>, others: nat -> set<Path>, t: nat, k: nat)
    requires Distinct(s) && k < |s|
    ensures s[k].path in Failing(s, refuses, others, t)
            <==> s[k].path in refuses || s[k].path in Taken(others, t + k + 1)
  {
    hide Taken;
  }

  lemma FailingIsMet(s: seq<Entry>, refuses: set<Path>, others: nat -> set<Path>, t: nat)
    ensures Failing(s, refuses, others, t) <= refuses + Taken(others, t + |s|)
    ensures forall e :: e in s && e.path in refuses ==> e.path in Failing(s, refuses, others, t)
  {
    hide Taken;
    forall p | p in Failing(s, refuses, others, t) ensures p in refuses + Taken(others, t + |s|) {
      var k :| 0 <= k < |s| && s[k].path == p && (p in refuses || p in Taken(others, t + k + 1));
      TakenGrows(others, t + k + 1, t + |s|);
    }
  }

  /** Of a prefix the same deletes fail. */
  lemma FailingPrefix(s: seq<Entry>, n: nat, refuses: set<Path>, others: nat -> set<Path>, t: nat)
    requires Distinct(s) && n <= |s|
    ensures forall k :: 0 <= k < n ==>
              (s[k].path in Failing(s[..n], refuses, others, t) <==> s[k].path in Failing(s, refuses, others, t))
  {
    hide Taken, Failing;
    forall k | 0 <= k < n
      ensures s[k].path in Failing(s[..n], refuses, others, t) <==> s[k].path in Failing(s, refuses, others, t)
    {
      FailingAt(s, refuses, others, t, k);
      FailingAt(s[..n], refuses, others, t, k);
    }
  }

  method AgePass(dir: Directory, entries: seq<Entry>, now: int, maxAge: nat)
    returns (kept: seq<Entry>, freed: nat, evicted: nat, ghost failed: set<Path>)
    requires dir.Valid() && Distinct(entries) && forall e :: e in entries ==> e.path in dir.kept
    modifies dir
    ensures dir.Valid() && dir.tick == old(dir.tick) + |entries|
    ensures failed == Failing(entries, dir.faults.age, dir.others, old(dir.tick))
    ensures kept == Keep(entries, Stays(now, maxAge, failed))
    ensures Deleted(old(dir.kept), dir.kept, entries, Expires(now, maxAge, failed), |entries|, freed, evicted)
  {
    hide Deleted, Keep, Failing, Taken;
    kept, freed, evicted := [], 0, 0;
    failed := Failing(entries, dir.faults.age, dir.others, dir.tick);
    ghost var expires := Expires(now, maxAge, failed);
    ghost var stays := Stays(now, maxAge, failed);
    assert entries[..0] == [];
    NothingKept(stays);
    DeletedNone(dir.kept, entries, expires);
    var k := 0;
    while k < |entries|
      invariant 0 <= k <= |entries| && dir.Valid() && dir.tick == old(dir.tick) + k
      invariant kept == Keep(entries[..k], stays)
      invariant Deleted(old(dir.kept), dir.kept, entries, expires, k, freed, evicted)
    {
      var e := entries[k];
      KeepSnoc(entries, k, stays);
      DeletedNext(old(dir.kept), dir.kept, entries, expires, k, freed, evicted);
      FailingAt(entries, dir.faults.age, dir.others, old(dir.tick), k);
      dir.Meanwhile();
      var ok := false;
      if Age(now, e.modified) > maxAge { ok := dir.Remove(e.path, dir.faults.age); }
      if ok {
        freed, evicted := freed + e.bytes, evicted + 1;
      } else {
        kept := kept + [e];
      }
      k := k + 1;
    }
    assert entries[..k] == entries;
  }

  lemma {:induction false} KeepAgrees(s: seq<Entry>, p: Entry -> bool, q: Entry -> bool)
    requires forall e :: e in s ==> p(e) == q(e)
    ensures Keep(s, p) == Keep(s, q)
  {
    if s != [] {
      assert s[0] in s;
      KeepAgrees(s[1..], p, q);
    }
  }

  /** How many are tried depends on those tried alone. */
  lemma {:induction false} TriedAgrees(s: seq<Entry>, p: Entry -> bool, q: Entry -> bool, total: nat, count: nat,
                                       byteTarget: nat, countTarget: nat)
    requires Total(s) <= total && |s| <= count
    requires forall k :: 0 <= k < Tried(s, p, total, count, byteTarget, countTarget) ==> p(s[k]) == q(s[k])
    ensures Tried(s, p, total, count, byteTarget, countTarget) == Tried(s, q, total, count, byteTarget, countTarget)
    decreases |s|
  {
    if s != [] && Over(total, count, byteTarget, countTarget) {
      assert p(s[0]) == q(s[0]);
      assert forall k :: 0 <= k < |s| - 1 ==> s[1..][k] == s[k + 1];
      TriedAgrees(s[1..], p, q, if p(s[0]) then total - s[0].bytes else total, if p(s[0]) then count - 1 else count,
                  byteTarget, countTarget);
    }
  }

  /** What the pass that tried `n` did, said by the failures among those alone. */
  lemma SaidByTried(before: map<Path, File>, after: map<Path, File>, s: seq<Entry>, all: set<Path>, failed: set<Path>,
                    byteTarget: nat, countTarget: nat, n: nat, freed: nat, evicted: nat)
    requires n == Tried(s, Deletes(all), Total(s), |s|, byteTarget, countTarget)
    requires Deleted(before, after, s, Deletes(all), n, freed, evicted)
    requires forall k :: 0 <= k < n ==> (s[k].path in failed <==> s[k].path in all)
    ensures n == Tried(s, Deletes(failed), Total(s), |s|, byteTarget, countTarget)
    ensures Deleted(before, after, s, Deletes(failed), n, freed, evicted)
  {
    hide Tried, Total, Keep;
    TriedAgrees(s, Deletes(all), Deletes(failed), Total(s), |s|, byteTarget, countTarget);
    forall e | e in s[..n] ensures Deletes(all)(e) == Deletes(failed)(e) {
      var k :| 0 <= k < n && s[..n][k] == e;
      assert s[k] == e;
    }
    KeepAgrees(s[..n], Deletes(all), Deletes(failed));
  }

  /** The second pass over entries already in order of use. */
  method EvictPass(dir: Directory, entries: seq<Entry>, byteTarget: nat, countTarget: nat)
    returns (total: nat, count: nat, freed: nat, evicted: nat, ghost n: nat, ghost failed: set<Path>)
    requires dir.Valid() && Distinct(entries) && forall e :: e in entries ==> e.path in dir.kept
    modifies dir
    ensures n == Tried(entries, Deletes(failed), Total(entries), |entries|, byteTarget, countTarget)
    ensures dir.Valid() && dir.tick == old(dir.tick) + n
    ensures failed == Failing(entries[..n], dir.faults.evict, dir.others, old(dir.tick))
    ensures Deleted(old(dir.kept), dir.kept, entries, Deletes(failed), n, freed, evicted)
    ensures total == Total(entries) - freed && count == |entries| - evicted
  {
    hide Deleted, Total, Tried, Failing, Taken;
    total, count, freed, evicted := Total(entries), |entries|, 0, 0;
    ghost var failing := Failing(entries, dir.faults.evict, dir.others, dir.tick);
    ghost var ok := Deletes(failing);
    ghost var tried := Tried(entries, ok, Total(entries), |entries|, byteTarget, countTarget);
    assert entries[0..] == entries;
    DeletedNone(dir.kept, entries, ok);
    var k := 0;
    while k < |entries| && !(total <= byteTarget && count <= countTarget)
      invariant 0 <= k <= |entries| && dir.Valid() && dir.tick == old(dir.tick) + k
      invariant Total(entries[k..]) <= total && |entries[k..]| <= count
      invariant tried == k + Tried(entries[k..], ok, total, count, byteTarget, countTarget)
      invariant Deleted(old(dir.kept), dir.kept, entries, ok, k, freed, evicted)
      invariant total == Total(entries) - freed && count == |entries| - evicted
      decreases |entries| - k
    {
      var e := entries[k];
      DeletedNext(old(dir.kept), dir.kept, entries, ok, k, freed, evicted);
      TriedNext(entries, k, ok, total, count, byteTarget, countTarget);
      FailingAt(entries, dir.faults.evict, dir.others, old(dir.tick), k);
      dir.Meanwhile();
      var deleted := dir.Remove(e.path, dir.faults.evict);
      if deleted {
        // The source subtracts saturating; it never saturates.
        total, count := total - e.bytes, count - 1;
        freed, evicted := freed + e.bytes, evicted + 1;
      }
      k := k + 1;
    }
    TriedDone(entries[k..], ok, total, count, byteTarget, countTarget);
    n := k;
    failed := Failing(entries[..n], dir.faults.evict, dir.others, old(dir.tick));
    FailingPrefix(entries, n, dir.faults.evict, dir.others, old(dir.tick));
    SaidByTried(old(dir.kept), dir.kept, entries, failing, failed, byteTarget, countTarget, n, freed, evicted);
  }

  lemma TriedNext(s: seq<Entry>, k: nat, ok: Entry -> bool, total: nat, count: nat, byteTarget: nat, countTarget: nat)
    requires k < |s| && Total(s[k..]) <= total && |s[k..]| <= count && Over(total, count, byteTarget, countTarget)
    ensures s[k].bytes <= total && 1 <= count
    ensures var total' := if ok(s[k]) then total - s[k].bytes else total;
            var count' := if ok(s[k]) then count - 1 else count;
            && Total(s[k + 1..]) <= total' && |s[k + 1..]| <= count'
            && Tried(s[k..], ok, total, count, byteTarget, countTarget)
               == 1 + Tried(s[k + 1..], ok, total', count', byteTarget, countTarget)
  {
    assert s[k..][0] == s[k] && s[k..][1..] == s[k + 1..];
  }

  lemma TriedDone(s: seq<Entry>, ok: Entry -> bool, total: nat, count: nat, byteTarget: nat, countTarget: nat)
    requires Total(s) <= total && |s| <= count
    requires s == [] || !Over(total, count, byteTarget, countTarget)
    ensures Tried(s, ok, total, count, byteTarget, countTarget) == 0
  {
  }

  // ----- the order of eviction -----

  /** The same entries, in some order. */
  ghost predicate SameEntries(s: seq<Entry>, t: seq<Entry>) {
    && |s| == |t| && Total(s) == Total(t)
    && (forall e :: e in s <==> e in t)
    && (Distinct(t) ==> Distinct(s))
  }

  /** Where `e` goes among entries in order. */
  method Place(s: seq<Entry>, e: Entry) returns (at: nat)
    requires SortedByAge(s)
    ensures at <= |s| && SortedByAge(s[..at] + [e] + s[at..])
  {
    at := 0;
    while at < |s| && s[at].modified <= e.modified
      invariant 0 <= at <= |s|
      invariant forall j :: 0 <= j < at ==> s[j].modified <= e.modified
    {
      at := at + 1;
    }
    var r := s[..at] + [e] + s[at..];
    forall i, j | 0 <= i < j < |r| ensures r[i].modified <= r[j].modified {
      assert j > at ==> r[j] == s[j - 1] && s[at].modified <= s[j - 1].modified;
    }
  }

  lemma InsertedSame(s: seq<Entry>, t: seq<Entry>, at: nat, e: Entry)
    requires SameEntries(s, t) && at <= |s|
    ensures SameEntries(s[..at] + [e] + s[at..], t + [e])
  {
    hide Distinct, Total;
    var r := s[..at] + [e] + s[at..];
    assert s == s[..at] + s[at..];
    TotalAppends(s[..at], s[at..]);
    TotalAppends(s[..at] + [e], s[at..]);
    TotalAppends(s[..at], [e]);
    TotalAppends(t, [e]);
    assert forall x :: x in r <==> x in s[..at] || x in s[at..] || x == e;
    if Distinct(t + [e]) {
      DistinctSnoc(t, e);
      InsertedDistinct(s, at, e);
    }
  }

  lemma DistinctSnoc(t: seq<Entry>, e: Entry)
    requires Distinct(t + [e])
    ensures Distinct(t) && forall x :: x in t ==> x.path != e.path
  {
    var u := t + [e];
    assert forall i :: 0 <= i < |t| ==> u[i] == t[i];
    forall x | x in t ensures x.path != e.path {
      var i :| 0 <= i < |t| && t[i] == x;
      assert u[i].path != u[|t|].path;
    }
  }

  lemma InsertedDistinct(s: seq<Entry>, at: nat, e: Entry)
    requires Distinct(s) && at <= |s| && forall x :: x in s ==> x.path != e.path
    ensures Distinct(s[..at] + [e] + s[at..])
  {
    var r := s[..at] + [e] + s[at..];
    forall i, j | 0 <= i < j < |r| ensures r[i].path != r[j].path {
      assert i < at ==> r[i] == s[i];
      assert i > at ==> r[i] == s[i - 1];
      assert j < at ==> r[j] == s[j];
      assert j > at ==> r[j] == s[j - 1];
    }
  }

  /** `sort_unstable_by_key`: some order by mtime of the same entries. */
  method SortByAge(entries: seq<Entry>) returns (sorted: seq<Entry>)
    ensures SameEntries(sorted, entries) && SortedByAge(sorted)
  {
    hide SortedByAge, SameEntries;
    sorted := [];
    NoEntries();
    assert entries[..0] == [];
    var k := 0;
    while k < |entries|
      invariant 0 <= k <= |entries|
      invariant SameEntries(sorted, entries[..k]) && SortedByAge(sorted)
    {
      var at := Place(sorted, entries[k]);
      InsertedSame(sorted, entries[..k], at, entries[k]);
      assert entries[..k + 1] == entries[..k] + [entries[k]];
      sorted := sorted[..at] + [entries[k]] + sorted[at..];
      k := k + 1;
    }
    assert entries[..k] == entries;
  }

  lemma NoEntries()
    ensures SameEntries([], []) && SortedByAge([])
  {
  }

  // ----- one sweep -----

  /** What a sweep counted: entries seen, evicted and left, with the bytes freed and left. */
  datatype Report = Report(scanned: nat, evicted: nat, freed: nat, total: nat, count: nat)

  function ByteTarget(b: Budget): nat { b.maxBytes / 10 * 9 }
  function CountTarget(b: Budget): nat { b.maxEntries / 10 * 9 }

  predicate OverBudget(kept: seq<Entry>, b: Budget) {
    Total(kept) > b.maxBytes || |kept| > b.maxEntries
  }

  /** A sweep at `now` that found `entries` and took `sorted`, the ones not expired, in this order. */
  ghost predicate Swept(before: map<Path, File>, after: map<Path, File>, faults: Faults, now: int, b: Budget,
                        entries: seq<Entry>, sorted: seq<Entry>, r: Report)
  {
    var expired := Keep(entries, Expires(now, b.maxAge, faults.age));
    var kept := Keep(entries, Stays(now, b.maxAge, faults.age));
    var n := SecondPass(sorted, faults.evict, b);
    var evicted := Keep(sorted[..n], Deletes(faults.evict));
    && Lists(entries, before, faults.unread)
    && SameEntries(sorted, kept)
    && (OverBudget(sorted, b) ==> SortedByAge(sorted))
    && after == before - Orphans(before, faults, now) - Paths(expired) - Paths(evicted)
    && r == Report(|entries|, |expired| + |evicted|, Total(expired) + Total(evicted),
                   SubTotal(sorted, evicted), SubCount(sorted, evicted))
  }

  function SubTotal(s: seq<Entry>, t: seq<Entry>): nat {
    if Total(t) <= Total(s) then Total(s) - Total(t) else 0
  }

  function SubCount(s: seq<Entry>, t: seq<Entry>): nat {
    if |t| <= |s| then |s| - |t| else 0
  }

  /** How many entries the second pass tries: none within budget. */
  function SecondPass(sorted: seq<Entry>, refuses: set<Path>, b: Budget): (n: nat)
    ensures n <= |sorted|
  {
    if OverBudget(sorted, b)
    then Tried(sorted, Deletes(refuses), Total(sorted), |sorted|, ByteTarget(b), CountTarget(b))
    else 0
  }

  /** What went wrong for the sweep: the faults there are, where it met them, and what was taken before its calls. */
  ghost predicate Met(faults: Faults, met: Faults, taken: set<Path>, entries: seq<Entry>, tried: seq<Entry>) {
    && faults.unread <= met.unread <= faults.unread + taken
    && faults.walk <= met.walk <= faults.walk + taken
    && met.age <= faults.age + taken && (forall e :: e in entries && e.path in faults.age ==> e.path in met.age)
    && met.evict <= faults.evict + taken && (forall e :: e in tried && e.path in faults.evict ==> e.path in met.evict)
  }

  /**
   A sweep amid others, who by its end had taken `taken`: `kept` is what it left of `before` itself,
   and `met` the deletes and reads that failed for it.
   */
  datatype Sweeping = Sweeping(before: map<Path, File>, kept: map<Path, File>, taken: set<Path>, faults: Faults,
                               met: Faults, now: int, b: Budget, entries: seq<Entry>, sorted: seq<Entry>, r: Report) {
    ghost predicate Happened() {
      && Swept(before, kept, met, now, b, entries, sorted, r)
      && Met(faults, met, taken, entries, sorted[..SecondPass(sorted, met.evict, b)])
    }

    function After(): map<Path, File> {
      kept - taken
    }
  }

  method Run(dir: Directory, now: int, b: Budget) returns (r: Report, ghost w: Sweeping)
    requires dir.Valid() && dir.tick == 0
    modifies dir
    ensures w.before == old(dir.files) && w.After() == dir.files && w.taken == Taken(dir.others, dir.tick)
    ensures w.faults == dir.faults && w.now == now && w.b == b && w.r == r
    ensures w.Happened()
  {
    hide Lists, Deleted, SameEntries, Keep, Total, Tried, Orphans, SortedByAge, Failing, Taken;
    ghost var before := dir.kept;
    StartsQuiet(dir.faults, dir.others);
    var found, orphans;
    ghost var met;
    found, orphans, met := Collect(dir, now);
    ghost var walked, walkEnd := dir.kept, dir.tick;
    ListsFacts(found, walked, met.unread);
    var kept, freed, evicted;
    ghost var lateAge;
    kept, freed, evicted, lateAge := AgePass(dir, found, now, b.maxAge);
    FailingIsMet(found, dir.faults.age, dir.others, walkEnd);
    AgePassFacts(walked, dir.kept, found, now, b.maxAge, lateAge, freed, evicted);
    var count, total := |kept|, Total(kept);
    ghost var sorted := kept;
    ghost var lateEvict: set<Path> := {};
    ghost var aged, agedEnd := dir.kept, dir.tick;
    if total > b.maxBytes || count > b.maxEntries {
      var byAge := SortByAge(kept);
      sorted := byAge;
      SameFacts(sorted, kept);
      var freed2, evicted2;
      ghost var n;
      total, count, freed2, evicted2, n, lateEvict := EvictPass(dir, byAge, ByteTarget(b), CountTarget(b));
      FailingIsMet(sorted[..n], dir.faults.evict, dir.others, agedEnd);
      DeletedFacts(aged, dir.kept, sorted, Deletes(lateEvict), n, freed2, evicted2);
      freed, evicted := freed + freed2, evicted + evicted2;
    } else {
      SameAsItself(kept);
      assert kept[..0] == [];
      NothingKept(Deletes(lateEvict));
      assert Paths([]) == {};
    }
    TakenGrows(dir.others, walkEnd, dir.tick);
    TakenGrows(dir.others, agedEnd, dir.tick);
    r := Report(|found|, evicted, freed, total, count);
    OrphansOfWalk(before, met, lateAge, lateEvict, now);
    met := met.(age := lateAge, evict := lateEvict);
    w := Sweeping(before, dir.kept, Taken(dir.others, dir.tick), dir.faults, met, now, b, found, sorted, r);
  }

  lemma OrphansOfWalk(files: map<Path, File>, met: Faults, age: set<Path>, evict: set<Path>, now: int)
    ensures Orphans(files, met.(age := age, evict := evict), now) == Orphans(files, met, now)
  {
  }

  lemma SameAsItself(s: seq<Entry>)
    ensures SameEntries(s, s)
  {
  }

  lemma SameFacts(s: seq<Entry>, t: seq<Entry>)
    requires SameEntries(s, t)
    ensures |s| == |t| && Total(s) == Total(t) && (Distinct(t) ==> Distinct(s))
    ensures forall e :: e in s <==> e in t
  {
  }

  lemma ListsFacts(entries: seq<Entry>, files: map<Path, File>, unread: set<Path>)
    requires Lists(entries, files, unread)
    ensures Distinct(entries) && forall e :: e in entries ==> e.path in files
  {
  }

  lemma DeletedFacts(before: map<Path, File>, after: map<Path, File>, s: seq<Entry>, p: Entry -> bool,
                     k: nat, freed: nat, evicted: nat)
    requires Deleted(before, after, s, p, k, freed, evicted)
    ensures k <= |s|
    ensures after == before - Paths(Keep(s[..k], p))
    ensures freed == Total(Keep(s[..k], p)) && evicted == |Keep(s[..k], p)|
  {
  }

  /** After the age pass the kept entries are distinct and still there. */
  lemma AgePassFacts(before: map<Path, File>, after: map<Path, File>, s: seq<Entry>, now: int, maxAge: nat,
                     refuses: set<Path>, freed: nat, evicted: nat)
    requires Deleted(before, after, s, Expires(now, maxAge, refuses), |s|, freed, evicted)
    requires Distinct(s) && forall e :: e in s ==> e.path in before
    ensures var expires := Expires(now, maxAge, refuses);
            && after == before - Paths(Keep(s, expires))
            && freed == Total(Keep(s, expires)) && evicted == |Keep(s, expires)|
    ensures var kept := Keep(s, Stays(now, maxAge, refuses));
            Distinct(kept) && forall e :: e in kept ==> e.path in after
  {
    assert s[..|s|] == s;
    var expires := Expires(now, maxAge, refuses);
    var kept := Keep(s, Stays(now, maxAge, refuses));
    KeepDistinct(s, Stays(now, maxAge, refuses));
    forall e | e in kept ensures e.path in after {
      forall x | x in Keep(s, expires) ensures x.path != e.path {
        if x.path == e.path { SamePathSameEntry(s, x, e); }
      }
    }
  }

  lemma SamePathSameEntry(s: seq<Entry>, x: Entry, y: Entry)
    requires Distinct(s) && x in s && y in s && x.path == y.path
    ensures x == y
  {
    var i :| 0 <= i < |s| && s[i] == x;
    var j :| 0 <= j < |s| && s[j] == y;
    assert i == j;
  }

  lemma {:induction false} KeepDistinct(s: seq<Entry>, p: Entry -> bool)
    requires Distinct(s)
    ensures Distinct(Keep(s, p))
  {
    if s != [] {
      assert forall i :: 0 <= i < |s[1..]| ==> s[1..][i] == s[i + 1];
      KeepDistinct(s[1..], p);
      forall e | e in Keep(s[1..], p) ensures e.path != s[0].path {
        var i :| 0 <= i < |s[1..]| && s[1..][i] == e;
        assert s[i + 1].path != s[0].path;
      }
    }
  }
}
