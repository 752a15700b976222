/**
 The Windows lock protocol over any number of runner processes (src/host_files.rs).

 The kernel keeps one entry per open handle; a named object exists while some handle to it
 is open. The names begin with `Local\`, so the kernel keeps them apart by logon session: the
 object is the pair of session and name. Creating the object and closing a handle that turned
 out to refer to an existing object are separate steps, so processes interleave between them;
 within a process the table mutex is held, so its own operations wait. A process may exit at
 any point, also in the middle of a lock call, and the kernel then closes its handles.
 */
module FileLocks {
  import opened Common
  import opened FileTable

  type Pid = nat

  /** A lock call between creating the object and its return. */
  datatype Pending = Pending(fd: I32, path: LockPath, handle: Handle, existed: bool)

  type Session = nat

  datatype Proc = Proc(table: Table, pending: Option<Pending>, session: Session)

  datatype Object = Object(session: Session, name: string)

  datatype OpenHandle = OpenHandle(pid: Pid, obj: Object)

  datatype State = State(procs: map<Pid, Proc>, handles: map<Handle, OpenHandle>, nextHandle: Handle)

  const INIT := State(map[], map[], 0)

  datatype Event =
    | Start(pid: Pid, session: Session)
    | Open(pid: Pid, file: File, path: LockPath)
    | Close(pid: Pid, fd: I32)
    | Lock(pid: Pid, fd: I32, fault: Option<int>)
    | Return(pid: Pid)
    | Exit(pid: Pid)

  /** The named object exists: some handle to it is open. */
  predicate Exists(s: State, obj: Object)
  {
    exists h :: h in s.handles && s.handles[h].obj == obj
  }

  /** The object a process means by a path. */
  function ObjectOf(s: State, pid: Pid, path: LockPath): (o: Object)
    requires pid in s.procs
  {
    Object(s.procs[pid].session, path.Name())
  }

  predicate Enabled(s: State, e: Event)
  {
    match e
    case Start(pid, _) => pid !in s.procs
    case Open(pid, _, _) => pid in s.procs && s.procs[pid].pending.None?
    case Close(pid, _) => pid in s.procs && s.procs[pid].pending.None?
    case Lock(pid, _, fault) => pid in s.procs && s.procs[pid].pending.None? && (fault.Some? ==> fault.value > 0)
    case Return(pid) => pid in s.procs && s.procs[pid].pending.Some?
    case Exit(pid) => pid in s.procs
  }

  function WithProc(s: State, pid: Pid, p: Proc): State { s.(procs := s.procs[pid := p]) }

  /** The object is created or opened: a new handle either way. */
  function Created(s: State, pid: Pid, fd: I32, path: LockPath): (r: State)
    requires pid in s.procs
  {
    var obj := ObjectOf(s, pid, path);
    State(s.procs[pid := s.procs[pid].(pending := Some(Pending(fd, path, s.nextHandle, Exists(s, obj))))],
          s.handles[s.nextHandle := OpenHandle(pid, obj)],
          s.nextHandle + 1)
  }

  /** The call ends: the handle is closed if the object existed before, kept otherwise. */
  function Returned(s: State, pid: Pid): (r: State)
    requires Enabled(s, Return(pid))
  {
    var p := s.procs[pid];
    var call := p.pending.value;
    if call.existed then
      WithProc(s, pid, p.(pending := None)).(handles := s.handles - {call.handle})
    else
      WithProc(s, pid, p.(table := Granted(p.table, call.path, call.handle), pending := None))
  }

  function Exited(s: State, pid: Pid): (r: State)
  {
    s.(procs := s.procs - {pid},
       handles := map h | h in s.handles && s.handles[h].pid != pid :: s.handles[h])
  }

  function Apply(s: State, e: Event): (r: State)
    requires Enabled(s, e)
  {
    match e
    case Start(pid, session) => WithProc(s, pid, Proc(EMPTY_TABLE, None, session))
    case Open(pid, file, path) =>
      WithProc(s, pid, s.procs[pid].(table := Opened(s.procs[pid].table, file, path)))
    case Close(pid, fd) => WithProc(s, pid, s.procs[pid].(table := Closed(s.procs[pid].table, fd)))
    case Lock(pid, fd, fault) =>
      var plan := PlanLock(s.procs[pid].table, fd);
      if plan.Create? && fault.None? then Created(s, pid, fd, plan.path) else s
    case Return(pid) => Returned(s, pid)
    case Exit(pid) => Exited(s, pid)
  }

  /** Every step of the run is possible where it is taken. */
  predicate Possible(s: State, run: seq<Event>)
    decreases |run|
  {
    run == [] || (Enabled(s, run[0]) && Possible(Apply(s, run[0]), run[1..]))
  }

  function After(s: State, run: seq<Event>): (r: State)
    requires Possible(s, run)
    decreases |run|
  {
    if run == [] then s else After(Apply(s, run[0]), run[1..])
  }

  // ---------- who holds what ----------

  /** A live process holds the lock on a path. */
  predicate Holds(s: State, pid: Pid, path: LockPath)
  {
    pid in s.procs && path in s.procs[pid].table.locks
  }

  /** The process holds the lock, or is about to: it created the object. */
  predicate Owns(s: State, pid: Pid, path: LockPath, h: Handle)
  {
    pid in s.procs &&
    ((path in s.procs[pid].table.locks && s.procs[pid].table.locks[path] == h) ||
     (s.procs[pid].pending.Some? && var call := s.procs[pid].pending.value; call.path == path && call.handle == h && !call.existed))
  }

  /** The process is about to be refused: it opened an existing object. */
  predicate Refused(s: State, pid: Pid, path: LockPath, h: Handle)
  {
    && pid in s.procs && s.procs[pid].pending.Some?
    && var call := s.procs[pid].pending.value; call.path == path && call.handle == h && call.existed
  }

  /** No leaks and no dangling handles: open handles are exactly those some process refers to. */
  ghost predicate HandlesAccounted(s: State)
  {
    && (forall h :: h in s.handles ==> h < s.nextHandle)
    && (forall pid, path, h :: Owns(s, pid, path, h) || Refused(s, pid, path, h) ==>
          h in s.handles && s.handles[h] == OpenHandle(pid, ObjectOf(s, pid, path)))
    && (forall h :: h in s.handles ==>
          exists path :: Owns(s, s.handles[h].pid, path, h) || Refused(s, s.handles[h].pid, path, h))
    && (forall pid, path, path', h :: Owns(s, pid, path, h) ==> !Refused(s, pid, path', h))
  }

  /** At most one owner per object, over all processes and all paths. */
  ghost predicate OneOwnerPerObject(s: State)
  {
    forall pid, path, h, pid', path', h' ::
      Owns(s, pid, path, h) && Owns(s, pid', path', h') && ObjectOf(s, pid, path) == ObjectOf(s, pid', path') ==>
        pid == pid' && path == path' && h == h'
  }

  ghost predicate Safe(s: State)
  {
    && HandlesAccounted(s)
    && OneOwnerPerObject(s)
    && forall pid :: pid in s.procs ==> FileTable.Inv(s.procs[pid].table)
  }

  /** Steps that touch neither locks nor pending calls keep all ownership. */
  lemma QuietStepSafe(s: State, r: State)
    requires Safe(s)
    requires r.handles == s.handles && r.nextHandle == s.nextHandle
    requires forall pid, path, h :: Owns(r, pid, path, h) <==> Owns(s, pid, path, h)
    requires forall pid, path, h :: Refused(r, pid, path, h) <==> Refused(s, pid, path, h)
    requires forall pid :: pid in s.procs && pid in r.procs ==> r.procs[pid].session == s.procs[pid].session
    requires forall pid :: pid in r.procs ==> FileTable.Inv(r.procs[pid].table)
    ensures Safe(r)
  {
  }

  /** Creating adds one reference: an owner if the name was free, a refused caller otherwise. */
  lemma CreatedAdds(s: State, pid: Pid, fd: I32, path: LockPath)
    requires Enabled(s, Lock(pid, fd, None))
    ensures var r := Created(s, pid, fd, path);
            forall p, q, h ::
              Owns(r, p, q, h) <==>
              Owns(s, p, q, h) || (p == pid && q == path && h == s.nextHandle && !Exists(s, ObjectOf(s, pid, path)))
    ensures var r := Created(s, pid, fd, path);
            forall p, q, h ::
              Refused(r, p, q, h) <==>
              Refused(s, p, q, h) || (p == pid && q == path && h == s.nextHandle && Exists(s, ObjectOf(s, pid, path)))
  {
  }

  lemma CreatedAccounted(s: State, pid: Pid, fd: I32, path: LockPath)
    requires Safe(s) && Enabled(s, Lock(pid, fd, None))
    ensures HandlesAccounted(Created(s, pid, fd, path))
  {
    var r := Created(s, pid, fd, path);
    CreatedAdds(s, pid, fd, path);
    forall h | h in r.handles
      ensures exists q :: Owns(r, r.handles[h].pid, q, h) || Refused(r, r.handles[h].pid, q, h)
    {
      if h == s.nextHandle {
        assert Owns(r, pid, path, h) || Refused(r, pid, path, h);
      } else {
        var q :| Owns(s, s.handles[h].pid, q, h) || Refused(s, s.handles[h].pid, q, h);
        assert Owns(r, r.handles[h].pid, q, h) || Refused(r, r.handles[h].pid, q, h);
      }
    }
  }

  lemma CreatedSafe(s: State, pid: Pid, fd: I32, path: LockPath)
    requires Safe(s) && Enabled(s, Lock(pid, fd, None))
    ensures Safe(Created(s, pid, fd, path))
  {
    CreatedAccounted(s, pid, fd, path);
    CreatedAdds(s, pid, fd, path);
    forall p, q, h | Owns(s, p, q, h) ensures Exists(s, ObjectOf(s, p, q)) {
      assert s.handles[h].obj == ObjectOf(s, p, q);
    }
  }

  lemma RefusalSafe(s: State, pid: Pid)
    requires Safe(s) && Enabled(s, Return(pid)) && s.procs[pid].pending.value.existed
    ensures Safe(Returned(s, pid))
  {
    var r := Returned(s, pid);
    var gone := s.procs[pid].pending.value.handle;
    assert Refused(s, pid, s.procs[pid].pending.value.path, gone);
    forall p: Pid, q, h: Handle
      ensures Owns(r, p, q, h) <==> Owns(s, p, q, h)
      ensures Refused(r, p, q, h) <==> Refused(s, p, q, h) && p != pid
    {
    }
    forall h | h in r.handles
      ensures exists q :: Owns(r, r.handles[h].pid, q, h) || Refused(r, r.handles[h].pid, q, h)
    {
      var q :| Owns(s, s.handles[h].pid, q, h) || Refused(s, s.handles[h].pid, q, h);
      assert Owns(r, r.handles[h].pid, q, h) || Refused(r, r.handles[h].pid, q, h);
    }
    assert HandlesAccounted(r);
  }

  lemma GrantSafe(s: State, pid: Pid)
    requires Safe(s) && Enabled(s, Return(pid)) && !s.procs[pid].pending.value.existed
    ensures Safe(Returned(s, pid))
  {
    var r := Returned(s, pid);
    var call := s.procs[pid].pending.value;
    assert Owns(s, pid, call.path, call.handle);
    forall p: Pid, q, h: Handle
      ensures Owns(r, p, q, h) <==> Owns(s, p, q, h)
      ensures Refused(r, p, q, h) <==> Refused(s, p, q, h)
    {
      if Owns(s, pid, call.path, h) {
        assert h == call.handle;
      }
    }
    QuietStepSafe(s, r);
  }

  lemma ExitedSafe(s: State, pid: Pid)
    requires Safe(s)
    ensures Safe(Exited(s, pid))
  {
    var r := Exited(s, pid);
    forall p: Pid, q, h: Handle
      ensures Owns(r, p, q, h) <==> Owns(s, p, q, h) && p != pid
      ensures Refused(r, p, q, h) <==> Refused(s, p, q, h) && p != pid
    {
    }
    forall h | h in r.handles
      ensures exists q :: Owns(r, r.handles[h].pid, q, h) || Refused(r, r.handles[h].pid, q, h)
    {
      var q :| Owns(s, s.handles[h].pid, q, h) || Refused(s, s.handles[h].pid, q, h);
      assert Owns(r, r.handles[h].pid, q, h) || Refused(r, r.handles[h].pid, q, h);
    }
    assert HandlesAccounted(r);
  }

  /** Starting a process, opening and closing descriptors leave the lock table alone. */
  lemma TableStepSafe(s: State, pid: Pid, p: Proc)
    requires Safe(s) && FileTable.Inv(p.table) && p.pending.None?
    requires if pid in s.procs then
               s.procs[pid].pending.None? && p.session == s.procs[pid].session && p.table.locks == s.procs[pid].table.locks
             else p.table.locks == map[]
    ensures Safe(WithProc(s, pid, p))
  {
    QuietStepSafe(s, WithProc(s, pid, p));
  }

  lemma StepSafe(s: State, e: Event)
    requires Safe(s) && Enabled(s, e)
    ensures Safe(Apply(s, e))
  {
    match e
    case Start(pid, session) => TableStepSafe(s, pid, Proc(EMPTY_TABLE, None, session));
    case Open(pid, file, path) =>
      TableStepSafe(s, pid, s.procs[pid].(table := Opened(s.procs[pid].table, file, path)));
    case Close(pid, fd) => TableStepSafe(s, pid, s.procs[pid].(table := Closed(s.procs[pid].table, fd)));
    case Lock(pid, fd, fault) =>
      var plan := PlanLock(s.procs[pid].table, fd);
      if plan.Create? && fault.None? {
        CreatedSafe(s, pid, fd, plan.path);
      }
    case Return(pid) =>
      if s.procs[pid].pending.value.existed {
        RefusalSafe(s, pid);
      } else {
        GrantSafe(s, pid);
      }
    case Exit(pid) => ExitedSafe(s, pid);
  }

  lemma {:induction false} RunSafe(s: State, run: seq<Event>)
    requires Safe(s) && Possible(s, run)
    ensures Safe(After(s, run))
    decreases |run|
  {
    if run == [] {
    } else {
      StepSafe(s, run[0]);
      RunSafe(Apply(s, run[0]), run[1..]);
    }
  }

  // ---------- the theorems ----------

  predicate SameSession(s: State, pid: Pid, pid': Pid)
  {
    pid in s.procs && pid' in s.procs && s.procs[pid].session == s.procs[pid'].session
  }

  /**
   Mutual exclusion, in every interleaving of any number of processes: two holders of one name
   in one session are one process holding one path. So a hash collision never grants twice.
   */
  lemma MutualExclusion(run: seq<Event>, pid: Pid, path: LockPath, pid': Pid, path': LockPath)
    requires Possible(INIT, run)
    requires Holds(After(INIT, run), pid, path) && Holds(After(INIT, run), pid', path')
    requires path.Name() == path'.Name() && SameSession(After(INIT, run), pid, pid')
    ensures pid == pid' && path == path'
  {
    var s := After(INIT, run);
    RunSafe(INIT, run);
    assert Owns(s, pid, path, s.procs[pid].table.locks[path]);
    assert Owns(s, pid', path', s.procs[pid'].table.locks[path']);
  }

  /** Paths that agree after upper-casing are never held by two processes of one session. */
  lemma SameFileExclusion(run: seq<Event>, pid: Pid, path: LockPath, pid': Pid, path': LockPath)
    requires Possible(INIT, run)
    requires Holds(After(INIT, run), pid, path) && Holds(After(INIT, run), pid', path')
    requires path.upper == path'.upper && SameSession(After(INIT, run), pid, pid')
    ensures pid == pid'
  {
    MutualExclusion(run, pid, path, pid', path');
  }

  /** The process runs no exit step. */
  predicate StaysAlive(pid: Pid, run: seq<Event>)
  {
    forall i :: 0 <= i < |run| ==> run[i] != Exit(pid)
  }

  /** A held lock survives every step but its owner's exit, so also closing every descriptor. */
  lemma {:induction false} LockOutlivesDescriptors(s: State, run: seq<Event>, pid: Pid, path: LockPath)
    requires Possible(s, run) && Holds(s, pid, path) && StaysAlive(pid, run)
    ensures Holds(After(s, run), pid, path)
    decreases |run|
  {
    if run == [] {
    } else {
      assert run[0] != Exit(pid);
      LockOutlivesDescriptors(Apply(s, run[0]), run[1..], pid, path);
    }
  }

  /** The value a lock call hands to the guest when it returns. */
  function Reply(s: State, pid: Pid): (rc: int)
    requires Enabled(s, Return(pid))
  {
    if s.procs[pid].pending.value.existed then -EAGAIN else 0
  }

  /** Some process has a handle to the object: it holds it, is about to be granted it, or is being refused. */
  ghost predicate InUse(s: State, obj: Object)
  {
    exists pid, path, h :: (Owns(s, pid, path, h) || Refused(s, pid, path, h)) && ObjectOf(s, pid, path) == obj
  }

  lemma ExistsIffInUse(s: State, obj: Object)
    requires Safe(s)
    ensures Exists(s, obj) <==> InUse(s, obj)
  {
    if Exists(s, obj) {
      var h :| h in s.handles && s.handles[h].obj == obj;
      var path :| Owns(s, s.handles[h].pid, path, h) || Refused(s, s.handles[h].pid, path, h);
      assert ObjectOf(s, s.handles[h].pid, path) == obj;
    }
    if InUse(s, obj) {
      var pid, path, h :| (Owns(s, pid, path, h) || Refused(s, pid, path, h)) && ObjectOf(s, pid, path) == obj;
      assert s.handles[h].obj == obj;
    }
  }

  /**
   A lock call that reaches the kernel is refused with EAGAIN exactly if some process of the
   session holds the name, is about to be granted it, or is itself being refused on it; in
   every other state it is granted.
   */
  lemma RefusedIffInUse(s: State, pid: Pid, fd: I32)
    requires Safe(s) && Enabled(s, Lock(pid, fd, None)) && PlanLock(s.procs[pid].table, fd).Create?
    ensures var path := PlanLock(s.procs[pid].table, fd).path;
            var asked := Apply(s, Lock(pid, fd, None));
            && Enabled(asked, Return(pid))
            && (if InUse(s, ObjectOf(s, pid, path)) then Reply(asked, pid) == -EAGAIN
                else Reply(asked, pid) == 0 && Holds(Apply(asked, Return(pid)), pid, path))
  {
    ExistsIffInUse(s, ObjectOf(s, pid, PlanLock(s.procs[pid].table, fd).path));
  }

  /** So while a name is held, every other attempt on it in the session is refused. */
  lemma HeldNameRefuses(s: State, pid: Pid, path: LockPath, other: Pid, fd: I32)
    requires Safe(s) && Holds(s, pid, path) && Enabled(s, Lock(other, fd, None)) && SameSession(s, pid, other)
    requires PlanLock(s.procs[other].table, fd).Create?
    requires PlanLock(s.procs[other].table, fd).path.Name() == path.Name()
    ensures var asked := Apply(s, Lock(other, fd, None));
            Enabled(asked, Return(other)) && Reply(asked, other) == -EAGAIN
  {
    assert Owns(s, pid, path, s.procs[pid].table.locks[path]);
    RefusedIffInUse(s, other, fd);
  }

  /** What a lock call will return is settled when it created the object, whatever happens meanwhile. */
  lemma {:induction false} ReplyIsSettled(s: State, run: seq<Event>, pid: Pid)
    requires Possible(s, run) && Enabled(s, Return(pid)) && StaysAlive(pid, run)
    requires forall i :: 0 <= i < |run| ==> run[i] != Return(pid)
    ensures Enabled(After(s, run), Return(pid)) && Reply(After(s, run), pid) == Reply(s, pid)
    decreases |run|
  {
    if run == [] {
    } else {
      assert run[0] != Exit(pid) && run[0] != Return(pid);
      ReplyIsSettled(Apply(s, run[0]), run[1..], pid);
    }
  }

  /** When the last process is gone, so is every handle. */
  lemma NoProcessesNoHandles(run: seq<Event>)
    requires Possible(INIT, run) && After(INIT, run).procs == map[]
    ensures After(INIT, run).handles == map[]
  {
    var s := After(INIT, run);
    RunSafe(INIT, run);
    if h :| h in s.handles {
      var path :| Owns(s, s.handles[h].pid, path, h) || Refused(s, s.handles[h].pid, path, h);
    }
  }

  // ---------- what a lock call answers ----------

  lemma {:induction false} Extend(s: State, run: seq<Event>, e: Event)
    requires Possible(s, run) && Enabled(After(s, run), e)
    ensures Possible(s, run + [e]) && After(s, run + [e]) == Apply(After(s, run), e)
    decreases |run|
  {
    if run == [] {
      assert ([] + [e])[1..] == [];
    } else {
      Extend(Apply(s, run[0]), run[1..], e);
      assert (run + [e])[1..] == run[1..] + [e];
    }
  }

  /** The last step of a run. */
  lemma {:induction false} LastStep(s: State, run: seq<Event>)
    requires Possible(s, run) && run != []
    ensures var init := run[..|run| - 1];
            && Possible(s, init) && Enabled(After(s, init), run[|run| - 1])
            && After(s, run) == Apply(After(s, init), run[|run| - 1])
    decreases |run|
  {
    var init := run[..|run| - 1];
    if |run| == 1 {
      assert init == [] && run[1..] == [];
    } else {
      LastStep(Apply(s, run[0]), run[1..]);
      assert run[1..][..|run| - 2] == init[1..];
    }
  }

  /** The session of a process that has started and not exited since, by the events alone. */
  function Running(run: seq<Event>, pid: Pid): (r: Option<Session>)
    decreases |run|
  {
    if run == [] then None
    else
      match run[|run| - 1]
      case Start(p, session) => if p == pid then Some(session) else Running(run[..|run| - 1], pid)
      case Exit(p) => if p == pid then None else Running(run[..|run| - 1], pid)
      case _ => Running(run[..|run| - 1], pid)
  }

  /** How many files the process has opened since it started. */
  function OpensOf(run: seq<Event>, pid: Pid): (n: nat)
    decreases |run|
  {
    if run == [] then 0
    else
      var e, init := run[|run| - 1], run[..|run| - 1];
      if e.Start? && e.pid == pid then 0 else OpensOf(init, pid) + if e.Open? && e.pid == pid then 1 else 0
  }

  /** The path a descriptor of the process was opened on, unless it was closed since. */
  function OpenedOn(run: seq<Event>, pid: Pid, fd: I32): (r: Option<LockPath>)
    decreases |run|
  {
    if run == [] then None
    else
      var init := run[..|run| - 1];
      match run[|run| - 1]
      case Start(p, _) => if p == pid then None else OpenedOn(init, pid, fd)
      case Open(p, _, path) => if p == pid && NumberOf(OpensOf(init, pid)) == fd then Some(path) else OpenedOn(init, pid, fd)
      case Close(p, gone) => if p == pid && gone == fd then None else OpenedOn(init, pid, fd)
      case _ => OpenedOn(init, pid, fd)
  }

  /** Which processes run, and the number each hands out next, is what the events say. */
  lemma {:induction false} RunningReflectsHistory(run: seq<Event>, pid: Pid)
    requires Possible(INIT, run)
    ensures var s := After(INIT, run);
            && (pid in s.procs <==> Running(run, pid).Some?)
            && (pid in s.procs ==>
                  && s.procs[pid].session == Running(run, pid).value
                  && s.procs[pid].table.nextFd == NumberOf(OpensOf(run, pid)))
    decreases |run|
  {
    if run == [] {
    } else {
      LastStep(INIT, run);
      RunningReflectsHistory(run[..|run| - 1], pid);
    }
  }

  /** And so is what its descriptors stand for. */
  lemma {:induction false} ProcessReflectsHistory(run: seq<Event>, pid: Pid, fd: I32)
    requires Possible(INIT, run) && pid in After(INIT, run).procs
    ensures Shows(After(INIT, run).procs[pid].table.lockPaths, fd, OpenedOn(run, pid, fd))
    decreases |run|
  {
    if run == [] {
      assert false;
    } else {
      var init, last := run[..|run| - 1], run[|run| - 1];
      LastStep(INIT, run);
      var s := After(INIT, init);
      if last.Start? && last.pid == pid {
        assert After(INIT, run).procs[pid].table == EMPTY_TABLE;
      } else {
        ProcessReflectsHistory(init, pid, fd);
        if last.Open? && last.pid == pid {
          RunningReflectsHistory(init, pid);
        } else if last.Close? && last.pid == pid {
          RunSafe(INIT, init);
        } else {
          assert After(INIT, run).procs[pid].table.lockPaths == s.procs[pid].table.lockPaths;
        }
      }
    }
  }

  /** A call that waits for its answer was made on a descriptor of the path it waits for. */
  lemma {:induction false} PendingReflectsHistory(run: seq<Event>, pid: Pid)
    requires Possible(INIT, run) && Enabled(After(INIT, run), Return(pid))
    ensures var call := After(INIT, run).procs[pid].pending.value; OpenedOn(run, pid, call.fd) == Some(call.path)
    decreases |run|
  {
    if run == [] {
      assert false;
    } else {
      var init, last := run[..|run| - 1], run[|run| - 1];
      LastStep(INIT, run);
      if last.Lock? && last.pid == pid {
        ProcessReflectsHistory(init, pid, last.fd);
      } else {
        PendingReflectsHistory(init, pid);
      }
    }
  }

  /** What a step answers to a lock call of its process; nothing while the kernel is being asked. */
  function LockAnswer(s: State, e: Event): (rc: Option<int>)
    requires Enabled(s, e)
  {
    match e
    case Lock(pid, fd, fault) =>
      (match PlanLock(s.procs[pid].table, fd)
       case Refuse(errno) => Some(-errno)
       case AlreadyHeld => Some(0)
       case Create(_) => if fault.Some? then Some(-fault.value) else None)
    case Return(pid) => Some(Reply(s, pid))
    case _ => None
  }

  /**
   A lock call, exactly, over every run: EBADF for a descriptor that is not open; 0 at once if
   the process already holds the path the descriptor was opened on; otherwise the kernel's own
   error, or a call that waits, marked as refused exactly if the object is in use.
   */
  lemma LockCallExactly(run: seq<Event>, pid: Pid, fd: I32, fault: Option<int>)
    requires Possible(INIT, run) && Enabled(After(INIT, run), Lock(pid, fd, fault))
    ensures var s := After(INIT, run); var e := Lock(pid, fd, fault); var r := Apply(s, e);
            match OpenedOn(run, pid, fd)
            case None => LockAnswer(s, e) == Some(-EBADF) && r == s
            case Some(path) =>
              if Holds(s, pid, path) then LockAnswer(s, e) == Some(0) && r == s
              else if fault.Some? then LockAnswer(s, e) == Some(-fault.value) && r == s
              else
                && LockAnswer(s, e) == None && Enabled(r, Return(pid))
                && var call := r.procs[pid].pending.value;
                && call.fd == fd && call.path == path && (call.existed <==> InUse(s, ObjectOf(s, pid, path)))
  {
    var s := After(INIT, run);
    RunSafe(INIT, run);
    ProcessReflectsHistory(run, pid, fd);
    if OpenedOn(run, pid, fd).Some? {
      ExistsIffInUse(s, ObjectOf(s, pid, OpenedOn(run, pid, fd).value));
    }
  }

  /**
   The end of a waiting call, exactly: a refused one answers EAGAIN, closes its handle and holds
   nothing more; any other answers 0 and holds its path.
   */
  lemma ReturnExactly(run: seq<Event>, pid: Pid, path: LockPath)
    requires Possible(INIT, run) && Enabled(After(INIT, run), Return(pid))
    ensures var s := After(INIT, run); var r := Apply(s, Return(pid)); var call := s.procs[pid].pending.value;
            && pid in r.procs && r.procs[pid].pending.None?
            && LockAnswer(s, Return(pid)) == Some(if call.existed then -EAGAIN else 0)
            && (Holds(r, pid, path) <==> Holds(s, pid, path) || (path == call.path && !call.existed))
            && (call.handle in r.handles <==> !call.existed)
  {
    var s := After(INIT, run);
    RunSafe(INIT, run);
    var call := s.procs[pid].pending.value;
    assert if call.existed then Refused(s, pid, call.path, call.handle) else Owns(s, pid, call.path, call.handle);
  }

  /** Over every run, a lock call answered 0 leaves its process holding the path its descriptor was opened on. */
  lemma ZeroMeansHeld(run: seq<Event>, e: Event)
    requires Possible(INIT, run) && Enabled(After(INIT, run), e) && LockAnswer(After(INIT, run), e) == Some(0)
    ensures var s := After(INIT, run);
            var fd := if e.Lock? then e.fd else s.procs[e.pid].pending.value.fd;
            OpenedOn(run, e.pid, fd).Some? && Holds(Apply(s, e), e.pid, OpenedOn(run, e.pid, fd).value)
  {
    if e.Lock? {
      LockCallExactly(run, e.pid, e.fd, e.fault);
    } else {
      PendingReflectsHistory(run, e.pid);
      ReturnExactly(run, e.pid, After(INIT, run).procs[e.pid].pending.value.path);
    }
  }

  // ---------- two runs ----------

  /** A process that has opened the path once. */
  function Ready(session: Session, file: File, path: LockPath): (p: Proc)
  {
    Proc(Opened(EMPTY_TABLE, file, path), None, session)
  }

  lemma Enter(run: seq<Event>, pid: Pid, session: Session, file: File, path: LockPath) returns (more: seq<Event>)
    requires Possible(INIT, run) && pid !in After(INIT, run).procs
    ensures Possible(INIT, more) && After(INIT, more) == WithProc(After(INIT, run), pid, Ready(session, file, path))
  {
    Extend(INIT, run, Start(pid, session));
    Extend(INIT, run + [Start(pid, session)], Open(pid, file, path));
    more := run + [Start(pid, session)] + [Open(pid, file, path)];
  }

  /** A process asks for the lock on its descriptor, and the call returns. */
  lemma TakeLock(run: seq<Event>, pid: Pid, session: Session, file: File, path: LockPath) returns (more: seq<Event>)
    requires Possible(INIT, run) && pid in After(INIT, run).procs
    requires After(INIT, run).procs[pid] == Ready(session, file, path)
    requires !Exists(After(INIT, run), Object(session, path.Name()))
    ensures Possible(INIT, more)
    ensures var s := After(INIT, run);
            var held := Ready(session, file, path).(table := Granted(Opened(EMPTY_TABLE, file, path), path, s.nextHandle));
            After(INIT, more) == State(s.procs[pid := held],
                                       s.handles[s.nextHandle := OpenHandle(pid, Object(session, path.Name()))],
                                       s.nextHandle + 1)
  {
    Extend(INIT, run, Lock(pid, GUEST_FD_BASE, None));
    Extend(INIT, run + [Lock(pid, GUEST_FD_BASE, None)], Return(pid));
    more := run + [Lock(pid, GUEST_FD_BASE, None)] + [Return(pid)];
  }

  /** A lock nobody holds can still be refused: another caller is being refused at that moment. */
  lemma RefusedThoughNobodyHolds(session: Session, file: File, path: LockPath) returns (run: seq<Event>)
    ensures Possible(INIT, run)
    ensures var s := After(INIT, run);
            && (forall p, q :: !Holds(s, p, q))
            && Enabled(s, Lock(2, GUEST_FD_BASE, None))
            && var asked := Apply(s, Lock(2, GUEST_FD_BASE, None));
            && Enabled(asked, Return(2)) && Reply(asked, 2) == -EAGAIN
  {
    run := Enter([], 0, session, file, path);
    run := Enter(run, 1, session, file, path);
    run := Enter(run, 2, session, file, path);
    run := TakeLock(run, 0, session, file, path);
    assert After(INIT, run).handles[0].obj == Object(session, path.Name());
    Extend(INIT, run, Lock(1, GUEST_FD_BASE, None));
    run := run + [Lock(1, GUEST_FD_BASE, None)];
    Extend(INIT, run, Exit(0));
    run := run + [Exit(0)];
    assert After(INIT, run).handles[1].obj == Object(session, path.Name());
  }

  /** Sessions do matter: two processes in different sessions can hold one path at once. */
  lemma OtherSessionHoldsToo(file: File, path: LockPath) returns (run: seq<Event>)
    ensures Possible(INIT, run) && Holds(After(INIT, run), 0, path) && Holds(After(INIT, run), 1, path)
  {
    run := Enter([], 0, 0, file, path);
    run := Enter(run, 1, 1, file, path);
    run := TakeLock(run, 0, 0, file, path);
    run := TakeLock(run, 1, 1, file, path);
  }
}
