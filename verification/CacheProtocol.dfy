/**
 The disk cache as a protocol: any number of processes and threads opening through one cache
 directory, storing through temp files and renames, while sweeps delete, writes stop short and
 processes die between any two steps.

 What is assumed of the world is in `World` and `Sound`: a cacheable result is a function of its
 key, and decoding an encoded payload gives that payload or nothing. A temp name is never reused.
 */
module CacheProtocol {
  import opened Bytes

  type Key = string
  type Value = seq<Byte>
  type Inode = nat
  type ThreadId = nat

  /** `truth` is the function a cacheable computation computes; `load` is the capped decode. */
  datatype World = World(truth: Key -> Value, encode: Value -> seq<Byte>, load: seq<Byte> -> Option<Value>)

  ghost predicate Sound(w: World) {
    forall v :: w.load(w.encode(v)).Some? ==> w.load(w.encode(v)).value == v
  }

  /** What a computation hands to the open that ran it: only a `Cacheable` value may reach the disk. */
  datatype Computed = Cacheable(value: Value) | Transient(value: Value)

  datatype Name = Entry(key: Key) | Temp(id: nat)

  datatype Origin = FromCache | Own(computed: Computed)

  datatype Pc =
    | Lookup
    | Reading(inode: Inode)
    | Missed
    | Storing(value: Value)
    | Writing(value: Value, temp: nat, inode: Inode, written: nat)
    | Returned(value: Value, origin: Origin)

  datatype Thread = Thread(process: nat, key: Key, pc: Pc)

  datatype State = State(inodes: map<Inode, seq<Byte>>, names: map<Name, Inode>, used: set<nat>,
                         threads: map<ThreadId, Thread>)

  datatype Action =
    | Call(id: ThreadId, process: nat, key: Key)
    | OpenEntry(id: ThreadId)
    | OpenFails(id: ThreadId)
    | Read(id: ThreadId)
    | ReadFails(id: ThreadId)
    | Compute(id: ThreadId, computed: Computed)
    | SkipStore(id: ThreadId)
    | CreateTemp(id: ThreadId, temp: nat, inode: Inode)
    | Write(id: ThreadId, count: nat)
    | AbandonTemp(id: ThreadId)
    | Rename(id: ThreadId)
    | Unlink(name: Name)
    | Crash(process: nat)

  /** A thread at `pc` after its step. */
  function At(s: State, id: ThreadId, pc: Pc): State
    requires id in s.threads
  {
    s.(threads := s.threads[id := s.threads[id].(pc := pc)])
  }

  function Without(names: map<Name, Inode>, name: Name): map<Name, Inode> {
    names - {name}
  }

  /** One step; an action that is not enabled changes nothing. */
  function Next(w: World, s: State, a: Action): State {
    match a
    case Call(id, process, key) =>
      if id in s.threads then s else s.(threads := s.threads[id := Thread(process, key, Lookup)])
    case Unlink(name) =>
      // A sweep's eviction or orphan removal, or anyone else's delete.
      s.(names := Without(s.names, name))
    case Crash(process) =>
      // The process's threads are gone; what they left on disk stays.
      s.(threads := map i | i in s.threads && s.threads[i].process != process :: s.threads[i])
    case _ =>
      if a.id in s.threads then ThreadStep(w, s, a) else s
  }

  function ThreadStep(w: World, s: State, a: Action): State
    requires !a.Call? && !a.Unlink? && !a.Crash? && a.id in s.threads
  {
    var t := s.threads[a.id];
    match (a, t.pc)
    case (OpenEntry(id), Lookup) =>
      if Entry(t.key) in s.names then At(s, id, Reading(s.names[Entry(t.key)])) else At(s, id, Missed)
    case (OpenFails(id), Lookup) => At(s, id, Missed)
    case (Read(id), Reading(inode)) =>
      (match (if inode in s.inodes then w.load(s.inodes[inode]) else None)
       case Some(value) => At(s, id, Returned(value, FromCache))
       case None => At(s, id, Missed))
    case (ReadFails(id), Reading(_)) => At(s, id, Missed)
    case (Compute(id, computed), Missed) =>
      (match computed
       case Cacheable(value) => if value == w.truth(t.key) then At(s, id, Storing(value)) else s
       case Transient(value) => At(s, id, Returned(value, Own(computed))))
    case (SkipStore(id), Storing(value)) =>
      // Over the size cap, or the shard or temp file could not be created.
      At(s, id, Returned(value, Own(Cacheable(value))))
    case (CreateTemp(id, temp, inode), Storing(value)) =>
      if temp in s.used || inode in s.inodes then s
      else At(State(s.inodes[inode := []], s.names[Temp(temp) := inode], s.used + {temp}, s.threads),
              id, Writing(value, temp, inode, 0))
    case (Write(id, count), Writing(value, temp, inode, written)) =>
      if written + count > |w.encode(value)| then s
      else At(s.(inodes := s.inodes[inode := w.encode(value)[..written + count]]),
              id, Writing(value, temp, inode, written + count))
    case (AbandonTemp(id), Writing(value, temp, inode, written)) =>
      // A failed write or rename, or a rename lost to another store: the temp file deletes itself.
      At(s.(names := Without(s.names, Temp(temp))), id, Returned(value, Own(Cacheable(value))))
    case (Rename(id), Writing(value, temp, inode, written)) =>
      if written == |w.encode(value)| && Temp(temp) in s.names then
        At(s.(names := Without(s.names, Temp(temp))[Entry(t.key) := s.names[Temp(temp)]]),
           id, Returned(value, Own(Cacheable(value))))
      else s
    case _ => s
  }

  function Run(w: World, s: State, actions: seq<Action>): State
    decreases |actions|
  {
    if actions == [] then s else Run(w, Next(w, s, actions[0]), actions[1..])
  }

  // ----- what every step keeps -----

  /** Loading these bytes gives the key's own value, or nothing. */
  predicate Right(w: World, key: Key, bytes: seq<Byte>) {
    w.load(bytes).Some? ==> w.load(bytes).value == w.truth(key)
  }

  ghost predicate NamesOk(w: World, s: State) {
    && (forall n :: n in s.names ==> s.names[n] in s.inodes)
    && (forall k :: Entry(k) in s.names ==> s.names[Entry(k)] in s.inodes && Right(w, k, s.inodes[s.names[Entry(k)]]))
    && (forall x :: Temp(x) in s.names ==> x in s.used)
  }

  ghost predicate ThreadOk(w: World, s: State, t: Thread) {
    match t.pc
    case Lookup | Missed => true
    case Reading(inode) => inode in s.inodes && Right(w, t.key, s.inodes[inode])
    case Storing(value) => value == w.truth(t.key)
    case Writing(value, temp, inode, written) =>
      && value == w.truth(t.key)
      && written <= |w.encode(value)|
      && inode in s.inodes && s.inodes[inode] == w.encode(value)[..written]
      && temp in s.used
      && (Temp(temp) in s.names ==> s.names[Temp(temp)] == inode)
      && (forall n :: n in s.names && s.names[n] == inode ==> n == Temp(temp))
    case Returned(value, origin) => Answered(w, t.key, value, origin)
  }

  /** What an open may return: the key's value, or a transient result of its own. */
  predicate Answered(w: World, key: Key, value: Value, origin: Origin) {
    match origin
    case FromCache => value == w.truth(key)
    case Own(Cacheable(own)) => value == own == w.truth(key)
    case Own(Transient(own)) => value == own
  }

  /** A writer shares its file with no other thread. */
  predicate Apart(t: Pc, u: Pc) {
    t.Writing? ==> (u.Writing? ==> t.inode != u.inode && t.temp != u.temp) && (u.Reading? ==> t.inode != u.inode)
  }

  ghost predicate Inv(w: World, s: State) {
    && NamesOk(w, s)
    && (forall i :: i in s.threads ==> ThreadOk(w, s, s.threads[i]))
    && (forall i, j :: i in s.threads && j in s.threads && i != j ==> Apart(s.threads[i].pc, s.threads[j].pc))
  }

  /** A directory left by earlier runs: entries right or unreadable, no thread yet. */
  ghost predicate Start(w: World, s: State) {
    NamesOk(w, s) && s.threads == map[]
  }

  lemma UnlinkKeeps(w: World, s: State, name: Name)
    requires Inv(w, s)
    ensures Inv(w, s.(names := Without(s.names, name)))
  {
    var s' := s.(names := Without(s.names, name));
    forall i | i in s'.threads ensures ThreadOk(w, s', s'.threads[i]) {
      assert ThreadOk(w, s, s.threads[i]);
    }
  }

  /** A step that touches no file, and leaves its thread no writer and no reader. */
  lemma LocalStepKeeps(w: World, s: State, id: ThreadId, pc: Pc)
    requires Inv(w, s) && id in s.threads
    requires !pc.Writing? && !pc.Reading?
    requires ThreadOk(w, s, s.threads[id].(pc := pc))
    ensures Inv(w, At(s, id, pc))
  {
    var s' := At(s, id, pc);
    forall i | i in s'.threads ensures ThreadOk(w, s', s'.threads[i]) {
      if i != id { assert ThreadOk(w, s, s.threads[i]); }
    }
  }

  lemma OpenKeeps(w: World, s: State, id: ThreadId)
    requires Inv(w, s) && id in s.threads && s.threads[id].pc.Lookup? && Entry(s.threads[id].key) in s.names
    ensures Inv(w, At(s, id, Reading(s.names[Entry(s.threads[id].key)])))
  {
    var inode := s.names[Entry(s.threads[id].key)];
    var s' := At(s, id, Reading(inode));
    forall i | i in s'.threads ensures ThreadOk(w, s', s'.threads[i]) {
      if i != id { assert ThreadOk(w, s, s.threads[i]); }
    }
    forall i | i in s.threads && s.threads[i].pc.Writing? ensures s.threads[i].pc.inode != inode {
      assert ThreadOk(w, s, s.threads[i]);
    }
  }

  /** A new file under a new name is nothing to a thread. */
  lemma CreateKeepsThread(w: World, s: State, t: Thread, temp: nat, inode: Inode)
    requires ThreadOk(w, s, t) && temp !in s.used && inode !in s.inodes
    ensures ThreadOk(w, State(s.inodes[inode := []], s.names[Temp(temp) := inode], s.used + {temp}, s.threads), t)
  {
  }

  lemma CreateKeeps(w: World, s: State, id: ThreadId, temp: nat, inode: Inode)
    requires Inv(w, s) && id in s.threads && s.threads[id].pc.Storing?
    requires temp !in s.used && inode !in s.inodes
    ensures Inv(w, ThreadStep(w, s, CreateTemp(id, temp, inode)))
  {
    hide NamesOk, ThreadOk, Apart;
    var s' := ThreadStep(w, s, CreateTemp(id, temp, inode));
    CreateKeepsNames(w, s, temp, inode, s'.threads);
    CreateStarts(w, s, s.threads[id], temp, inode);
    forall i | i in s'.threads ensures ThreadOk(w, s', s'.threads[i]) {
      if i != id { CreateKeepsThread(w, s, s.threads[i], temp, inode); }
      SameFiles(w, s'.(threads := s.threads), s', s'.threads[i]);
    }
    forall i, j | i in s'.threads && j in s'.threads && i != j ensures Apart(s'.threads[i].pc, s'.threads[j].pc) {
      if i == id { NewFileIsApart(w, s, s.threads[j], s'.threads[i].pc); }
      if j == id { NewFileIsApart(w, s, s.threads[i], s'.threads[j].pc); }
    }
  }

  lemma CreateKeepsNames(w: World, s: State, temp: nat, inode: Inode, threads: map<ThreadId, Thread>)
    requires NamesOk(w, s) && inode !in s.inodes
    ensures NamesOk(w, State(s.inodes[inode := []], s.names[Temp(temp) := inode], s.used + {temp}, threads))
  {
    hide Right;
  }

  /** The new file is its writer's alone, and empty. */
  lemma CreateStarts(w: World, s: State, t: Thread, temp: nat, inode: Inode)
    requires ThreadOk(w, s, t) && t.pc.Storing? && NamesOk(w, s) && inode !in s.inodes
    ensures ThreadOk(w, State(s.inodes[inode := []], s.names[Temp(temp) := inode], s.used + {temp}, s.threads),
                     t.(pc := Writing(t.pc.value, temp, inode, 0)))
  {
    hide Right;
    assert w.encode(t.pc.value)[..0] == [];
  }

  lemma SameFiles(w: World, s: State, s': State, t: Thread)
    requires ThreadOk(w, s, t) && s'.inodes == s.inodes && s'.names == s.names && s'.used == s.used
    ensures ThreadOk(w, s', t)
  {
  }

  lemma NewFileIsApart(w: World, s: State, t: Thread, pc: Pc)
    requires ThreadOk(w, s, t) && pc.Writing? && pc.temp !in s.used && pc.inode !in s.inodes
    ensures Apart(t.pc, pc) && Apart(pc, t.pc)
  {
  }

  lemma WriteKeeps(w: World, s: State, id: ThreadId, count: nat)
    requires Inv(w, s) && id in s.threads && s.threads[id].pc.Writing?
    ensures Inv(w, ThreadStep(w, s, Write(id, count)))
  {
    var s' := ThreadStep(w, s, Write(id, count));
    var pc := s.threads[id].pc;
    assert ThreadOk(w, s, s.threads[id]);
    forall i | i in s'.threads ensures ThreadOk(w, s', s'.threads[i]) {
      assert ThreadOk(w, s, s.threads[i]);
      if i != id {
        assert Apart(pc, s.threads[i].pc);
        assert s'.threads[i] == s.threads[i];
      }
    }
    forall k | Entry(k) in s.names ensures s.names[Entry(k)] != pc.inode {
    }
    forall i, j | i in s'.threads && j in s'.threads && i != j ensures Apart(s'.threads[i].pc, s'.threads[j].pc) {
      assert Apart(s.threads[i].pc, s.threads[j].pc);
    }
  }

  lemma RenameKeeps(w: World, s: State, id: ThreadId)
    requires Sound(w) && Inv(w, s) && id in s.threads && s.threads[id].pc.Writing?
    ensures Inv(w, ThreadStep(w, s, Rename(id)))
  {
    var s' := ThreadStep(w, s, Rename(id));
    var pc := s.threads[id].pc;
    assert ThreadOk(w, s, s.threads[id]);
    if pc.written == |w.encode(pc.value)| && Temp(pc.temp) in s.names {
      assert w.encode(pc.value)[..pc.written] == w.encode(pc.value);
      assert Right(w, s.threads[id].key, s.inodes[pc.inode]);
      hide Right;
      forall i | i in s'.threads ensures ThreadOk(w, s', s'.threads[i]) {
        assert ThreadOk(w, s, s.threads[i]);
        if i != id { assert Apart(s.threads[i].pc, pc); }
      }
      forall i, j | i in s'.threads && j in s'.threads && i != j ensures Apart(s'.threads[i].pc, s'.threads[j].pc) {
        assert Apart(s.threads[i].pc, s.threads[j].pc);
      }
    }
  }

  lemma ThreadStepKeeps(w: World, s: State, a: Action)
    requires Sound(w) && Inv(w, s)
    requires !a.Call? && !a.Unlink? && !a.Crash? && a.id in s.threads
    ensures Inv(w, ThreadStep(w, s, a))
  {
    var t := s.threads[a.id];
    assert ThreadOk(w, s, t);
    match (a, t.pc) {
      case (OpenEntry(id), Lookup) =>
        if Entry(t.key) in s.names { OpenKeeps(w, s, id); } else { LocalStepKeeps(w, s, id, Missed); }
      case (OpenFails(id), Lookup) => LocalStepKeeps(w, s, id, Missed);
      case (Read(id), Reading(inode)) =>
        match w.load(s.inodes[inode]) {
          case Some(value) => LocalStepKeeps(w, s, id, Returned(value, FromCache));
          case None => LocalStepKeeps(w, s, id, Missed);
        }
      case (ReadFails(id), Reading(_)) => LocalStepKeeps(w, s, id, Missed);
      case (Compute(id, computed), Missed) =>
        match computed {
          case Cacheable(value) => if value == w.truth(t.key) { LocalStepKeeps(w, s, id, Storing(value)); }
          case Transient(value) => LocalStepKeeps(w, s, id, Returned(value, Own(computed)));
        }
      case (SkipStore(id), Storing(value)) => LocalStepKeeps(w, s, id, Returned(value, Own(Cacheable(value))));
      case (CreateTemp(id, temp, inode), Storing(value)) =>
        if temp !in s.used && inode !in s.inodes { CreateKeeps(w, s, id, temp, inode); }
      case (Write(id, count), Writing(_, _, _, _)) => WriteKeeps(w, s, id, count);
      case (AbandonTemp(id), Writing(value, temp, _, _)) =>
        UnlinkKeeps(w, s, Temp(temp));
        LocalStepKeeps(w, s.(names := Without(s.names, Temp(temp))), id, Returned(value, Own(Cacheable(value))));
      case (Rename(id), Writing(_, _, _, _)) => RenameKeeps(w, s, id);
      case _ =>
    }
  }

  lemma NextKeeps(w: World, s: State, a: Action)
    requires Sound(w) && Inv(w, s)
    ensures Inv(w, Next(w, s, a))
  {
    hide Inv, ThreadStep;
    match a {
      case Call(_, _, _) => CallKeeps(w, s, a);
      case Unlink(name) => UnlinkKeeps(w, s, name);
      case Crash(_) => CrashKeeps(w, s, a);
      case _ => if a.id in s.threads { ThreadStepKeeps(w, s, a); }
    }
  }

  lemma CallKeeps(w: World, s: State, a: Action)
    requires Inv(w, s) && a.Call?
    ensures Inv(w, Next(w, s, a))
  {
    hide ThreadStep, Right;
    var s' := Next(w, s, a);
    forall i | i in s'.threads ensures ThreadOk(w, s', s'.threads[i]) {
      if i in s.threads { SameFiles(w, s, s', s.threads[i]); }
    }
  }

  lemma CrashKeeps(w: World, s: State, a: Action)
    requires Inv(w, s) && a.Crash?
    ensures Inv(w, Next(w, s, a))
  {
    hide ThreadStep, Right;
    var s' := Next(w, s, a);
    forall i | i in s'.threads ensures ThreadOk(w, s', s'.threads[i]) {
      SameFiles(w, s, s', s.threads[i]);
    }
  }

  lemma {:induction false} RunKeeps(w: World, s: State, actions: seq<Action>)
    requires Sound(w) && Inv(w, s)
    ensures Inv(w, Run(w, s, actions))
    decreases |actions|
  {
    if actions != [] {
      NextKeeps(w, s, actions[0]);
      RunKeeps(w, Next(w, s, actions[0]), actions[1..]);
    }
  }

  /**
   The cache is invisible: over every interleaving, every open that returned gave its key's own
   value or a transient result it computed itself. What came from disk is never a partial write
   and never a transient result.
   */
  lemma Transparent(w: World, s: State, actions: seq<Action>, id: ThreadId)
    requires Sound(w) && Start(w, s)
    requires id in Run(w, s, actions).threads && Run(w, s, actions).threads[id].pc.Returned?
    ensures var t := Run(w, s, actions).threads[id];
            && (t.pc.origin.FromCache? ==> t.pc.value == w.truth(t.key))
            && (t.pc.value == w.truth(t.key) || t.pc.origin == Own(Transient(t.pc.value)))
  {
    RunKeeps(w, s, actions);
    assert ThreadOk(w, Run(w, s, actions), Run(w, s, actions).threads[id]);
  }

  // ----- a stored entry is served -----

  /** The entry of `key` is on disk and loads as the key's value. */
  predicate Served(w: World, s: State, key: Key) {
    && Entry(key) in s.names && s.names[Entry(key)] in s.inodes
    && w.load(s.inodes[s.names[Entry(key)]]) == Some(w.truth(key))
  }

  /** Payloads small enough to be stored load again. */
  ghost predicate Loads(w: World, key: Key) {
    w.load(w.encode(w.truth(key))) == Some(w.truth(key))
  }

  lemma NextServes(w: World, s: State, a: Action, key: Key)
    requires Sound(w) && Inv(w, s) && Loads(w, key) && Served(w, s, key) && a != Unlink(Entry(key))
    ensures Served(w, Next(w, s, a), key)
  {
    if !a.Call? && !a.Unlink? && !a.Crash? && a.id in s.threads { ThreadStepServes(w, s, a, key); }
  }

  lemma ThreadStepServes(w: World, s: State, a: Action, key: Key)
    requires Inv(w, s) && Loads(w, key) && Served(w, s, key)
    requires !a.Call? && !a.Unlink? && !a.Crash? && a.id in s.threads
    ensures Served(w, ThreadStep(w, s, a), key)
  {
    var t := s.threads[a.id];
    assert ThreadOk(w, s, t);
    if t.pc.Writing? {
      WholeFile(w, t.pc.value);
      assert s.names[Entry(key)] != t.pc.inode;
    }
    hide Inv, ThreadOk, Loads, Right;
  }

  lemma WholeFile(w: World, value: Value)
    ensures w.encode(value)[..|w.encode(value)|] == w.encode(value)
  {
  }

  /** Until it is deleted, a stored entry is served: no store, crash or write of another undoes it. */
  lemma {:induction false} StaysServed(w: World, s: State, actions: seq<Action>, key: Key)
    requires Sound(w) && Inv(w, s) && Loads(w, key) && Served(w, s, key)
    requires forall i :: 0 <= i < |actions| ==> actions[i] != Unlink(Entry(key))
    ensures Served(w, Run(w, s, actions), key)
    decreases |actions|
  {
    if actions != [] {
      NextServes(w, s, actions[0], key);
      NextKeeps(w, s, actions[0]);
      StaysServed(w, Next(w, s, actions[0]), actions[1..], key);
    }
  }

  /** A completed store leaves its entry served. */
  lemma RenameServes(w: World, s: State, id: ThreadId)
    requires Sound(w) && Inv(w, s) && id in s.threads && s.threads[id].pc.Writing?
    requires Loads(w, s.threads[id].key)
    requires Next(w, s, Rename(id)) != s
    ensures Served(w, Next(w, s, Rename(id)), s.threads[id].key)
  {
    var t := s.threads[id];
    assert ThreadOk(w, s, t);
    assert w.encode(t.pc.value)[..|w.encode(t.pc.value)|] == w.encode(t.pc.value);
  }

  /** An open that finds a served entry returns it without computing. */
  lemma ServedIsReturned(w: World, s: State, id: ThreadId)
    requires id in s.threads && s.threads[id].pc.Lookup? && Served(w, s, s.threads[id].key)
    ensures var t := Run(w, s, [OpenEntry(id), Read(id)]).threads;
            id in t && t[id].pc == Returned(w.truth(s.threads[id].key), FromCache)
  {
    var s1 := Next(w, s, OpenEntry(id));
    assert [OpenEntry(id), Read(id)][1..] == [Read(id)];
    assert Run(w, s1, [Read(id)]) == Run(w, Next(w, s1, Read(id)), []);
  }
}
