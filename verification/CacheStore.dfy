/**
 `open_with_cache_in`, `load_capped` and `store_at_path` step by step over one directory that other
 threads, processes and sweeps change between any two steps. Each call is one thread's part of a run
 of the protocol, so what the protocol keeps holds of what it returns.
 */
module CacheStore {
  import opened Bytes
  import opened CacheProtocol

  /** An action of another thread: it neither takes this thread's steps nor ends its process. */
  predicate Foreign(a: Action, id: ThreadId, process: nat) {
    match a
    case Unlink(_) => true
    case Crash(p) => p != process
    case _ => a.id != id
  }

  ghost predicate AllForeign(actions: seq<Action>, id: ThreadId, process: nat) {
    forall k :: 0 <= k < |actions| ==> Foreign(actions[k], id, process)
  }

  lemma {:induction false} RunAppends(w: World, s: State, x: seq<Action>, y: seq<Action>)
    ensures Run(w, s, x + y) == Run(w, Run(w, s, x), y)
    decreases |x|
  {
    hide Next;
    if x == [] {
      assert [] + y == y;
    } else {
      assert (x + y)[1..] == x[1..] + y;
      RunAppends(w, Next(w, s, x[0]), x[1..], y);
    }
  }

  lemma {:induction false} OthersKeepTheThread(w: World, s: State, actions: seq<Action>, id: ThreadId)
    requires id in s.threads && AllForeign(actions, id, s.threads[id].process)
    ensures id in Run(w, s, actions).threads && Run(w, s, actions).threads[id] == s.threads[id]
    decreases |actions|
  {
    if actions != [] {
      ForeignKeepsTheThread(w, s, actions[0], id);
      OthersKeepTheThread(w, Next(w, s, actions[0]), actions[1..], id);
    }
  }

  lemma ForeignKeepsTheThread(w: World, s: State, a: Action, id: ThreadId)
    requires id in s.threads && Foreign(a, id, s.threads[id].process)
    ensures id in Next(w, s, a).threads && Next(w, s, a).threads[id] == s.threads[id]
  {
  }

  lemma OneAction(w: World, s: State, a: Action)
    ensures Run(w, s, [a]) == Next(w, s, a)
  {
    assert [a][1..] == [];
  }

  /** Some number not yet used: the unique suffix of a temp file, or a new file's inode. */
  method Unused(used: set<nat>) returns (n: nat)
    ensures n !in used
  {
    n := 0;
    ghost var left := used;
    while n in used
      invariant forall k :: k in used && k >= n ==> k in left
      decreases |left|
    {
      left := left - {n};
      n := n + 1;
    }
  }

  /** The step leaves thread `id` at `pc`, and every other thread as it was. */
  predicate LeadsTo(w: World, s: State, a: Action, id: ThreadId, pc: Pc)
    requires id in s.threads
  {
    Next(w, s, a).threads == At(s, id, pc).threads
  }

  lemma CallStep(w: World, s: State, id: ThreadId, process: nat, key: Key)
    requires id !in s.threads
    ensures var t := Next(w, s, Call(id, process, key)).threads; id in t && t[id] == Thread(process, key, Lookup)
  {
  }

  lemma ComputeStep(w: World, s: State, id: ThreadId, computed: Computed)
    requires id in s.threads && s.threads[id].pc.Missed?
    requires computed.Cacheable? ==> computed.value == w.truth(s.threads[id].key)
    ensures LeadsTo(w, s, Compute(id, computed), id,
                    if computed.Cacheable? then Storing(computed.value) else Returned(computed.value, Own(computed)))
  {
  }

  lemma SkipStep(w: World, s: State, id: ThreadId)
    requires id in s.threads && s.threads[id].pc.Storing?
    ensures var value := s.threads[id].pc.value;
            LeadsTo(w, s, SkipStore(id), id, Returned(value, Own(Cacheable(value))))
  {
  }

  lemma CreateStep(w: World, s: State, id: ThreadId, temp: nat, inode: Inode)
    requires id in s.threads && s.threads[id].pc.Storing? && temp !in s.used && inode !in s.inodes
    ensures LeadsTo(w, s, CreateTemp(id, temp, inode), id, Writing(s.threads[id].pc.value, temp, inode, 0))
    ensures Temp(temp) in Next(w, s, CreateTemp(id, temp, inode)).names
  {
  }

  lemma WriteStep(w: World, s: State, id: ThreadId, count: nat)
    requires id in s.threads && s.threads[id].pc.Writing?
    requires s.threads[id].pc.written + count <= |w.encode(s.threads[id].pc.value)|
    ensures var pc := s.threads[id].pc; LeadsTo(w, s, Write(id, count), id, pc.(written := pc.written + count))
    ensures Next(w, s, Write(id, count)).names == s.names
  {
  }

  lemma AbandonStep(w: World, s: State, id: ThreadId)
    requires id in s.threads && s.threads[id].pc.Writing?
    ensures var value := s.threads[id].pc.value;
            LeadsTo(w, s, AbandonTemp(id), id, Returned(value, Own(Cacheable(value))))
    ensures Temp(s.threads[id].pc.temp) !in Next(w, s, AbandonTemp(id)).names
  {
  }

  lemma RenameStep(w: World, s: State, id: ThreadId)
    requires id in s.threads && s.threads[id].pc.Writing? && Temp(s.threads[id].pc.temp) in s.names
    requires s.threads[id].pc.written == |w.encode(s.threads[id].pc.value)|
    ensures var value := s.threads[id].pc.value;
            LeadsTo(w, s, Rename(id), id, Returned(value, Own(Cacheable(value)))) && Next(w, s, Rename(id)) != s
    ensures Temp(s.threads[id].pc.temp) !in Next(w, s, Rename(id)).names
  {
  }

  // ----- what others leave alone -----

  /** What opening `key` and reading what was opened gives. */
  function Found(w: World, s: State, key: Key): Option<Value> {
    if Entry(key) in s.names && s.names[Entry(key)] in s.inodes then w.load(s.inodes[s.names[Entry(key)]]) else None
  }

  lemma ServedIsFound(w: World, s: State, key: Key)
    ensures Served(w, s, key) <==> Found(w, s, key) == Some(w.truth(key))
  {
  }

  /** An opened file keeps its bytes, whatever is renamed over its name or unlinks it. */
  lemma ForeignKeepsTheFile(w: World, s: State, a: Action, id: ThreadId)
    requires Inv(w, s) && id in s.threads && s.threads[id].pc.Reading? && Foreign(a, id, s.threads[id].process)
    ensures var inode := s.threads[id].pc.inode;
            inode in s.inodes && inode in Next(w, s, a).inodes && Next(w, s, a).inodes[inode] == s.inodes[inode]
  {
    assert ThreadOk(w, s, s.threads[id]);
    if !a.Call? && !a.Unlink? && !a.Crash? && a.id in s.threads {
      assert Apart(s.threads[a.id].pc, s.threads[id].pc);
    }
  }

  lemma {:induction false} OthersKeepTheFile(w: World, s: State, actions: seq<Action>, id: ThreadId)
    requires Sound(w) && Inv(w, s) && id in s.threads && s.threads[id].pc.Reading?
    requires AllForeign(actions, id, s.threads[id].process)
    ensures var inode, s' := s.threads[id].pc.inode, Run(w, s, actions);
            inode in s.inodes && inode in s'.inodes && s'.inodes[inode] == s.inodes[inode]
    decreases |actions|
  {
    hide Inv, Next;
    if actions != [] {
      ForeignKeepsTheFile(w, s, actions[0], id);
      ForeignKeepsTheThread(w, s, actions[0], id);
      NextKeeps(w, s, actions[0]);
      OthersKeepTheFile(w, Next(w, s, actions[0]), actions[1..], id);
    } else {
      FileIsThere(w, s, id);
    }
  }

  lemma FileIsThere(w: World, s: State, id: ThreadId)
    requires Inv(w, s) && id in s.threads && s.threads[id].pc.Reading?
    ensures s.threads[id].pc.inode in s.inodes
  {
    assert ThreadOk(w, s, s.threads[id]);
  }

  /** No other writer renames or drops this one's temp file. */
  lemma ForeignKeepsTheTemp(w: World, s: State, a: Action, id: ThreadId)
    requires Inv(w, s) && id in s.threads && s.threads[id].pc.Writing? && Foreign(a, id, s.threads[id].process)
    requires Temp(s.threads[id].pc.temp) in s.names && a != Unlink(Temp(s.threads[id].pc.temp))
    ensures Temp(s.threads[id].pc.temp) in Next(w, s, a).names
  {
    if !a.Call? && !a.Unlink? && !a.Crash? && a.id in s.threads {
      assert Apart(s.threads[a.id].pc, s.threads[id].pc);
    }
  }

  lemma {:induction false} OthersKeepTheTemp(w: World, s: State, actions: seq<Action>, id: ThreadId)
    requires Sound(w) && Inv(w, s) && id in s.threads && s.threads[id].pc.Writing?
    requires AllForeign(actions, id, s.threads[id].process)
    requires Temp(s.threads[id].pc.temp) in s.names && Unlink(Temp(s.threads[id].pc.temp)) !in actions
    ensures Temp(s.threads[id].pc.temp) in Run(w, s, actions).names
    decreases |actions|
  {
    hide Inv, Next;
    if actions != [] {
      ForeignKeepsTheTemp(w, s, actions[0], id);
      ForeignKeepsTheThread(w, s, actions[0], id);
      NextKeeps(w, s, actions[0]);
      OthersKeepTheTemp(w, Next(w, s, actions[0]), actions[1..], id);
    }
  }

  lemma StartKeeps(w: World, s: State, actions: seq<Action>)
    requires Sound(w) && Start(w, s)
    ensures Inv(w, Run(w, s, actions))
  {
    RunKeeps(w, s, actions);
  }

  /** The directory as one thread meets it: before each of its calls `others` act, and the call may fail. */
  class Disk {
    const w: World
    const others: nat -> seq<Action>
    const fails: nat -> bool
    const chunk: nat -> nat
    const id: ThreadId
    const process: nat
    var state: State
    var tick: nat
    ghost var start: State
    ghost var trace: seq<Action>

    /** The directory is what the run so far made it, and the others leave this thread alone. */
    ghost predicate Valid()
      reads this
    {
      state == Run(w, start, trace) && forall n :: AllForeign(others(n), id, process)
    }

    /** This thread is at `pc`, opening `key`. */
    ghost predicate Stands(key: Key, pc: Pc)
      reads this
    {
      id in state.threads && state.threads[id] == Thread(process, key, pc)
    }

    constructor (w: World, state: State, others: nat -> seq<Action>, fails: nat -> bool, chunk: nat -> nat,
                 id: ThreadId, process: nat)
      requires forall n :: AllForeign(others(n), id, process)
      ensures Valid() && start == state && this.state == state && trace == []
      ensures this.w == w && this.id == id && this.process == process
    {
      this.w, this.others, this.fails, this.chunk, this.id, this.process := w, others, fails, chunk, id, process;
      this.state, tick, start, trace := state, 0, state, [];
    }

    /** Everyone else moves; `failing` says whether this thread's next call fails. */
    method Meanwhile() returns (failing: bool)
      requires Valid()
      modifies this`state, this`tick, this`trace
      ensures Valid()
      ensures failing == fails(old(tick)) && tick == old(tick) + 1
      ensures state == Run(w, old(state), others(old(tick)))
      ensures id in old(state).threads && old(state).threads[id].process == process
              ==> id in state.threads && state.threads[id] == old(state).threads[id]
    {
      hide Next;
      RunAppends(w, start, trace, others(tick));
      if id in state.threads && state.threads[id].process == process {
        OthersKeepTheThread(w, state, others(tick), id);
      }
      failing := fails(tick);
      state, trace, tick := Run(w, state, others(tick)), trace + others(tick), tick + 1;
    }

    /** This thread's own step. */
    method Take(a: Action)
      requires Valid()
      modifies this`state, this`trace
      ensures Valid() && state == Next(w, old(state), a)
    {
      hide Next;
      RunAppends(w, start, trace, [a]);
      OneAction(w, state, a);
      state, trace := Next(w, state, a), trace + [a];
    }

    /** The step that leads this thread to `pc`. */
    method TakeTo(a: Action, ghost key: Key, ghost pc: Pc)
      requires Valid() && id in state.threads && LeadsTo(w, state, a, id, pc)
      requires state.threads[id].process == process && state.threads[id].key == key
      modifies this`state, this`trace
      ensures Valid() && Stands(key, pc) && state == Next(w, old(state), a)
    {
      hide Next, Run;
      Take(a);
    }

    /** What a load in `s` at call `t` must give: the entry's value then, unless one of its two calls fails. */
    ghost function Loaded(s: State, t: nat, key: Key): Option<Value> {
      if fails(t) || fails(t + 1) then None else Found(w, Run(w, s, others(t)), key)
    }

    /**
     `load_capped`: open once, read through what was opened, and decode. Whatever happens between the
     two, a load gives what the entry held when it was opened.
     */
    method Load(key: Key) returns (cached: Option<Value>)
      requires Valid() && Stands(key, Lookup)
      modifies this`state, this`tick, this`trace
      ensures Valid() && tick > old(tick)
      ensures match cached
              case None => Stands(key, Missed)
              case Some(value) => Stands(key, Returned(value, FromCache))
      ensures Sound(w) && Start(w, start) ==> cached == Loaded(old(state), old(tick), key)
      ensures Sound(w) && Start(w, start) && !fails(old(tick)) && !fails(old(tick) + 1) ==>
                Served(w, Run(w, old(state), others(old(tick))), key) ==> cached == Some(w.truth(key))
    {
      hide Run, Start, Sound, AllForeign, Served;
      ServedIsFound(w, Run(w, state, others(tick)), key);
      var failing := Meanwhile();
      if failing {
        Take(OpenFails(id));
        return None;
      }
      ghost var there := state;
      Take(OpenEntry(id));
      if state.threads[id].pc.Missed? { return None; }
      ghost var reading := state;
      Reads(key, there, reading);
      failing := Meanwhile();
      if failing {
        Take(ReadFails(id));
        return None;
      }
      Take(Read(id));
      var pc := state.threads[id].pc;
      return if pc.Returned? then Some(pc.value) else None;
    }

    /** What is read behind others' next moves is what was there when the entry was opened. */
    lemma Reads(key: Key, there: State, reading: State)
      requires Valid() && reading == state && id in there.threads && there.threads[id] == Thread(process, key, Lookup)
      requires reading == Next(w, there, OpenEntry(id)) && reading.threads[id].pc.Reading?
      ensures Sound(w) && Start(w, start) ==>
                var inode, s := reading.threads[id].pc.inode, Run(w, reading, others(tick));
                Found(w, there, key) == if inode in s.inodes then w.load(s.inodes[inode]) else None
    {
      hide Run, Inv, Start, Sound;
      if Sound(w) && Start(w, start) {
        StartKeeps(w, start, trace);
        OthersKeepTheFile(w, reading, others(tick), id);
      }
    }

    /** A store that fails behind its temp file's creation drops it, which deletes it. */
    method Abandon(ghost key: Key, ghost value: Value, ghost temp: nat, ghost inode: Inode, ghost written: nat)
      requires Valid() && Stands(key, Writing(value, temp, inode, written))
      modifies this`state, this`trace
      ensures Valid() && Stands(key, Returned(value, Own(Cacheable(value)))) && Cleared(Some(temp))
    {
      hide Run, Next, LeadsTo;
      AbandonStep(w, state, id);
      TakeTo(AbandonTemp(id), key, Returned(value, Own(Cacheable(value))));
    }

    /** None of the calls from `t` to `u` failed, and no one else deleted the temp file meanwhile. */
    ghost predicate Quiet(t: nat, u: nat, temp: Option<nat>) {
      forall n :: t <= n < u ==> !fails(n) && (temp.Some? ==> Unlink(Temp(temp.value)) !in others(n))
    }

    /** The temp file, if one was made, is not left behind. */
    ghost predicate Cleared(temp: Option<nat>)
      reads this`state
    {
      temp.Some? ==> Temp(temp.value) !in state.names
    }

    /** The run began in a directory the protocol allows, so its invariant holds now. */
    ghost predicate Lawful()
      reads this`start
    {
      Sound(w) && Start(w, start)
    }

    /** Others' moves leave the temp file in its place, but for a delete. */
    method MeanwhileWriting(ghost key: Key, ghost pc: Pc, ghost t: nat) returns (failing: bool)
      requires Valid() && Stands(key, pc) && pc.Writing? && t <= tick
      requires Lawful() && Quiet(t, tick, Some(pc.temp)) ==> Temp(pc.temp) in state.names
      modifies this`state, this`tick, this`trace
      ensures Valid() && Stands(key, pc) && tick == old(tick) + 1 && failing == fails(old(tick))
      ensures Lawful() && Quiet(t, tick, Some(pc.temp)) ==> !failing && Temp(pc.temp) in state.names
    {
      hide Run, Inv, Start, Sound;
      ghost var before := state;
      if Lawful() && Quiet(t, tick + 1, Some(pc.temp)) {
        StartKeeps(w, start, trace);
        OthersKeepTheTemp(w, state, others(tick), id);
      }
      failing := Meanwhile();
    }

    /**
     `store_at_path`: write a temp file of a name of its own, then rename it into place. Without a failed
     call, and unless someone deletes the temp file, the entry is served then; no temp file is left.
     */
    method Store(key: Key, value: Value) returns (ghost temp: Option<nat>)
      requires Valid() && Stands(key, Storing(value))
      modifies this`state, this`tick, this`trace
      ensures Valid() && Stands(key, Returned(value, Own(Cacheable(value)))) && tick >= old(tick)
      ensures Lawful() && Loads(w, key) && Quiet(old(tick), tick, temp) ==> Served(w, state, key)
      ensures Cleared(temp)
    {
      hide Run, Next, LeadsTo, Sound, Start, Inv, Loads, Served;
      ghost var done := Returned(value, Own(Cacheable(value)));
      ghost var t := tick;
      temp := None;
      var failing := Meanwhile();
      if failing {
        SkipStep(w, state, id);
        TakeTo(SkipStore(id), key, done);
        return;
      }
      var name := Unused(state.used);
      var inode := Unused(state.inodes.Keys);
      temp := Some(name);
      CreateStep(w, state, id, name, inode);
      TakeTo(CreateTemp(id, name, inode), key, Writing(value, name, inode, 0));
      var written := 0;
      while written < |w.encode(value)|
        invariant 0 <= written <= |w.encode(value)| && t < tick
        invariant Valid() && Stands(key, Writing(value, name, inode, written))
        invariant Lawful() && Quiet(t, tick, Some(name)) ==> Temp(name) in state.names
      {
        failing := MeanwhileWriting(key, Writing(value, name, inode, written), t);
        if failing {
          Abandon(key, value, name, inode, written);
          return;
        }
        written := WriteSome(key, value, name, inode, written);
      }
      failing := MeanwhileWriting(key, Writing(value, name, inode, written), t);
      Publish(failing, key, value, name, inode);
    }

    /** One write: some of what is left, but never nothing. */
    method WriteSome(ghost key: Key, value: Value, ghost temp: nat, ghost inode: Inode, written: nat)
      returns (now: nat)
      requires Valid() && Stands(key, Writing(value, temp, inode, written)) && written < |w.encode(value)|
      modifies this`state, this`trace
      ensures Valid() && Stands(key, Writing(value, temp, inode, now)) && written < now <= |w.encode(value)|
      ensures state.names == old(state).names
    {
      hide Run, Next, LeadsTo;
      var count := 1 + Min(chunk(tick), |w.encode(value)| - written - 1);
      now := written + count;
      WriteStep(w, state, id, count);
      TakeTo(Write(id, count), key, Writing(value, temp, inode, now));
    }

    /** The rename of a complete temp file, unless it fails or the file is gone. */
    method Publish(failing: bool, ghost key: Key, ghost value: Value, temp: nat, ghost inode: Inode)
      requires Valid() && Stands(key, Writing(value, temp, inode, |w.encode(value)|))
      modifies this`state, this`trace
      ensures Valid() && Stands(key, Returned(value, Own(Cacheable(value))))
      ensures Lawful() && Loads(w, key) && !failing && Temp(temp) in old(state).names ==> Served(w, state, key)
      ensures Cleared(Some(temp))
    {
      hide Run, Next, LeadsTo, Sound, Start, Inv, Loads, Served;
      if failing || Temp(temp) !in state.names {
        Abandon(key, value, temp, inode, |w.encode(value)|);
      } else {
        RenameStep(w, state, id);
        if Lawful() && Loads(w, key) {
          StartKeeps(w, start, trace);
          RenameServes(w, state, id);
        }
        TakeTo(Rename(id), key, Returned(value, Own(Cacheable(value))));
      }
    }

    /** A miss: the caller's own computation, put into the cache unless it is transient. */
    method Fill(key: Key, computed: Computed) returns (ghost temp: Option<nat>)
      requires Valid() && Stands(key, Missed)
      requires computed.Cacheable? ==> computed.value == w.truth(key)
      modifies this`state, this`tick, this`trace
      ensures Valid() && Stands(key, Returned(computed.value, Own(computed))) && tick > old(tick)
      ensures Lawful() && computed.Cacheable? && Loads(w, key) && Quiet(old(tick) + 1, tick, temp) ==>
                Served(w, state, key)
      ensures Cleared(temp)
    {
      hide Run, Next, LeadsTo, Lawful, Served, Loads, AllForeign;
      temp := None;
      var failing := Meanwhile();
      ComputeStep(w, state, id, computed);
      if computed.Cacheable? {
        TakeTo(Compute(id, computed), key, Storing(computed.value));
        temp := Store(key, computed.value);
      } else {
        TakeTo(Compute(id, computed), key, Returned(computed.value, Own(computed)));
      }
    }

    /**
     `open_with_cache_in`: whatever else happens to the directory meanwhile, the caller gets the value
     of the key, or the transient result its own computation just gave. It gets what the cache holds
     whenever a load finds that, and otherwise its computation, which then is there for the next open.
     */
    method OpenWithCache(key: Key, computed: Computed) returns (value: Value, ghost temp: Option<nat>)
      requires Valid() && id !in state.threads
      requires computed.Cacheable? ==> computed.value == w.truth(key)
      modifies this`state, this`tick, this`trace
      ensures Valid() && Cleared(temp)
      ensures || Stands(key, Returned(value, FromCache))
              || (Stands(key, Returned(value, Own(computed))) && value == computed.value)
      ensures Lawful() ==> value == w.truth(key) || computed == Transient(value)
      ensures var cached := Loaded(Next(w, old(state), Call(id, process, key)), old(tick), key);
              Lawful() ==>
                if cached.Some? then Stands(key, Returned(cached.value, FromCache)) && value == cached.value
                else
                  && Stands(key, Returned(value, Own(computed))) && value == computed.value
                  && (computed.Cacheable? && Loads(w, key) && Quiet(old(tick) + 2, tick, temp)
                      ==> Served(w, state, key))
    {
      hide Run, Next, Served, Loads, AllForeign, Loaded;
      temp := None;
      CallStep(w, state, id, process, key);
      Take(Call(id, process, key));
      var cached := Load(key);
      if cached.Some? {
        value := cached.value;
      } else {
        value := computed.value;
        ghost var t := tick;
        temp := Fill(key, computed);
        assert Quiet(old(tick) + 2, tick, temp) ==> Quiet(t + 1, tick, temp);
      }
      if Lawful() { Transparent(w, start, trace, id); }
    }
  }
}
