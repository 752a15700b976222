/**
 The guest file descriptor table (src/host_files.rs), with the Windows lock tables.
 Every operation runs under one mutex, so each is one step.
 */
module FileTable {
  import opened Common
  import LockName

  const GUEST_FD_BASE: I32 := 20_000
  /** How many opens get a number of their own before the counter saturates. */
  const FRESH_OPENS: nat := 2_147_463_648

  /** A canonical path with the UTF-16 units of its upper-cased text. */
  datatype LockPath = LockPath(path: string, upper: seq<LockName.Unit>)
  {
    function Name(): string { LockName.Name(upper) }
  }

  /** Identities of open host files and of kernel handles. */
  type File = nat
  type Handle = nat

  datatype Table = Table(
    nextFd: I32,
    files: map<I32, File>,
    lockPaths: map<I32, LockPath>,
    locks: map<LockPath, Handle>)

  const EMPTY_TABLE := Table(GUEST_FD_BASE, map[], map[], map[])

  /** What every operation keeps: equal key sets, and numbers only below the counter. */
  ghost predicate Inv(t: Table)
  {
    && t.nextFd >= GUEST_FD_BASE
    && t.files.Keys == t.lockPaths.Keys
    && forall fd :: fd in t.files ==> GUEST_FD_BASE <= fd && (fd < t.nextFd || fd == I32_MAX)
  }

  function Opened(t: Table, file: File, path: LockPath): (r: Table)
  {
    t.(nextFd := SaturatingNext(t.nextFd),
       files := t.files[t.nextFd := file],
       lockPaths := t.lockPaths[t.nextFd := path])
  }

  function Closed(t: Table, fd: I32): (r: Table)
  {
    if fd in t.files then t.(files := t.files - {fd}, lockPaths := t.lockPaths - {fd}) else t
  }

  /** What `lock_exclusive` decides before it asks the kernel. */
  datatype Plan = Refuse(errno: int) | AlreadyHeld | Create(path: LockPath)

  function PlanLock(t: Table, fd: I32): (p: Plan)
    ensures p.Create? ==> p.path !in t.locks
  {
    if fd !in t.lockPaths then Refuse(EBADF)
    else if t.lockPaths[fd] in t.locks then AlreadyHeld
    else if fd !in t.files then Refuse(EBADF)
    else Create(t.lockPaths[fd])
  }

  /** The kernel's answer to creating the named object. */
  datatype Answer = Failed(errno: int) | Existing(handle: Handle) | Fresh(handle: Handle)

  function Granted(t: Table, path: LockPath, handle: Handle): (r: Table)
  {
    t.(locks := t.locks[path := handle])
  }

  /** The table as the source keeps it. */
  class HostFiles {
    var nextFd: I32
    var files: map<I32, File>
    var lockPaths: map<I32, LockPath>
    var locks: map<LockPath, Handle>

    ghost function State(): (t: Table)
      reads this
    {
      Table(nextFd, files, lockPaths, locks)
    }

    constructor ()
      ensures State() == EMPTY_TABLE && Inv(State())
      ensures nextFd == 20_000 && files == map[] && lockPaths == map[] && locks == map[]
    {
      nextFd, files, lockPaths, locks := GUEST_FD_BASE, map[], map[], map[];
    }

    /** The end of `open`, once the host file is open and its path canonical. */
    method Open(file: File, lockPath: LockPath) returns (fd: I32)
      requires Inv(State())
      modifies this
      ensures Inv(State()) && State() == Opened(old(State()), file, lockPath)
      ensures fd == old(nextFd) && files[fd] == file && lockPaths[fd] == lockPath
      ensures files == old(files)[fd := file] && lockPaths == old(lockPaths)[fd := lockPath] && locks == old(locks)
      ensures nextFd as int == if fd == 0x7fff_ffff then 0x7fff_ffff else fd + 1
      ensures fd in old(files) ==> fd == 0x7fff_ffff
    {
      fd := nextFd;
      nextFd := SaturatingNext(nextFd);
      files := files[fd := file];
      lockPaths := lockPaths[fd := lockPath];
    }

    method Close(fd: I32) returns (rc: int)
      requires Inv(State())
      modifies this
      ensures Inv(State()) && State() == Closed(old(State()), fd)
      ensures rc == if fd in old(files) then 0 else -EBADF
      ensures fd !in files && fd !in lockPaths
      ensures forall other :: other != fd ==> (other in files <==> other in old(files))
      ensures forall other :: other in files ==>
                && other in lockPaths && other in old(lockPaths)
                && files[other] == old(files)[other] && lockPaths[other] == old(lockPaths)[other]
      ensures locks == old(locks) && nextFd == old(nextFd)
    {
      if fd in files {
        files := files - {fd};
        lockPaths := lockPaths - {fd};
        rc := 0;
      } else {
        rc := -EBADF;
      }
    }

    /**
     `lock_exclusive`; `closed` is the handle passed back to the kernel, if any. The source
     tests the open-file table a second time; the invariant makes that test pass always,
     which the assertion in its place states.
     */
    method LockExclusive(fd: I32, answer: Answer) returns (rc: int, closed: Option<Handle>)
      requires Inv(State())
      modifies this
      ensures Inv(State())
      ensures match PlanLock(old(State()), fd)
              case Refuse(e) => rc == -e && fd !in old(files) && closed == None && State() == old(State())
              case AlreadyHeld => rc == 0 && closed == None && State() == old(State())
              case Create(path) =>
                match answer
                case Failed(e) => rc == -e && closed == None && State() == old(State())
                case Existing(h) => rc == -EAGAIN && closed == Some(h) && State() == old(State())
                case Fresh(h) => rc == 0 && closed == None && State() == Granted(old(State()), path, h)
      // The same without the plan: which table decides, and what the kernel's answer does.
      ensures files == old(files) && lockPaths == old(lockPaths) && nextFd == old(nextFd)
      ensures fd !in old(files) ==> rc == -EBADF && closed == None && locks == old(locks)
      ensures fd in old(files) && old(lockPaths)[fd] in old(locks) ==>
                rc == 0 && closed == None && locks == old(locks)
      ensures fd in old(files) && old(lockPaths)[fd] !in old(locks) ==>
                match answer
                case Failed(e) => rc == -e && closed == None && locks == old(locks)
                case Existing(h) => rc == -EAGAIN && closed == Some(h) && locks == old(locks)
                case Fresh(h) => rc == 0 && closed == None && locks == old(locks)[old(lockPaths)[fd] := h]
      ensures rc == 0 && (answer.Failed? ==> answer.errno != 0) ==> fd in lockPaths && lockPaths[fd] in locks
    {
      closed := None;
      if fd !in lockPaths {
        return -EBADF, None;
      }
      var lockPath := lockPaths[fd];
      if lockPath in locks {
        return 0, None;
      }
      assert fd in files;
      match answer
      case Failed(e) => rc := -e;
      case Existing(h) =>
        closed := Some(h);
        rc := -EAGAIN;
      case Fresh(h) =>
        locks := locks[lockPath := h];
        rc := 0;
    }
  }

  // ---------- descriptor numbers over whole runs ----------

  datatype Op = OpenOp(file: File, path: LockPath) | CloseOp(fd: I32) | LockOp(path: LockPath, handle: Handle)

  function Step(t: Table, op: Op): (r: Table)
  {
    match op
    case OpenOp(file, path) => Opened(t, file, path)
    case CloseOp(fd) => Closed(t, fd)
    case LockOp(path, h) => Granted(t, path, h)
  }

  function Run(t: Table, ops: seq<Op>): (r: Table)
    decreases |ops|
  {
    if ops == [] then t else Run(Step(t, ops[0]), ops[1..])
  }

  /** The numbers handed out by the opens of a run, in order. */
  function Issued(t: Table, ops: seq<Op>): (fds: seq<I32>)
    decreases |ops|
  {
    if ops == [] then []
    else (if ops[0].OpenOp? then [t.nextFd] else []) + Issued(Step(t, ops[0]), ops[1..])
  }

  lemma {:induction false} RunKeepsInv(t: Table, ops: seq<Op>)
    requires Inv(t)
    ensures Inv(Run(t, ops))
    decreases |ops|
  {
    if ops == [] {
    } else {
      RunKeepsInv(Step(t, ops[0]), ops[1..]);
    }
  }

  lemma {:induction false} IssuedCountsUp(t: Table, ops: seq<Op>)
    ensures var fds := Issued(t, ops);
            && (forall k :: 0 <= k < |fds| ==> fds[k] as int == if t.nextFd + k <= I32_MAX then t.nextFd + k else I32_MAX)
            && Run(t, ops).nextFd as int ==
               if t.nextFd + |fds| <= I32_MAX then t.nextFd + |fds| else I32_MAX
    decreases |ops|
  {
    if ops == [] {
    } else {
      IssuedCountsUp(Step(t, ops[0]), ops[1..]);
    }
  }

  /** Two opens of a run share a number exactly when both come after the counter saturated. */
  lemma NumbersDistinctUntilSaturation(ops: seq<Op>, j: nat, k: nat)
    requires j < k < |Issued(EMPTY_TABLE, ops)|
    ensures var fds := Issued(EMPTY_TABLE, ops);
            fds[j] == fds[k] <==> j >= FRESH_OPENS - 1
  {
    IssuedCountsUp(EMPTY_TABLE, ops);
  }

  /** A number the counter has passed is never handed out again. */
  lemma {:induction false} PassedNumberStaysClosed(t: Table, ops: seq<Op>, fd: I32)
    requires fd < t.nextFd && fd !in t.files
    ensures fd !in Run(t, ops).files
    decreases |ops|
  {
    if ops == [] {
    } else {
      PassedNumberStaysClosed(Step(t, ops[0]), ops[1..], fd);
    }
  }

  lemma {:induction false} NoOpensNoNewNumbers(t: Table, ops: seq<Op>, fd: I32)
    requires Issued(t, ops) == [] && fd !in t.files
    ensures fd !in Run(t, ops).files
    decreases |ops|
  {
    if ops == [] {
    } else {
      NoOpensNoNewNumbers(Step(t, ops[0]), ops[1..], fd);
    }
  }

  lemma {:induction false} RunConcat(t: Table, p: seq<Op>, q: seq<Op>)
    ensures Run(t, p + q) == Run(Run(t, p), q)
    ensures Issued(t, p + q) == Issued(t, p) + Issued(Run(t, p), q)
    decreases |p|
  {
    if p == [] {
      assert p + q == q;
    } else {
      assert (p + q)[1..] == p[1..] + q;
      RunConcat(Step(t, p[0]), p[1..], q);
    }
  }

  lemma {:induction false} HeldNumberWasIssued(t: Table, ops: seq<Op>, fd: I32)
    requires fd in Run(t, ops).files
    ensures fd in t.files || fd in Issued(t, ops)
    decreases |ops|
  {
    if ops == [] {
    } else {
      HeldNumberWasIssued(Step(t, ops[0]), ops[1..], fd);
    }
  }

  /**
   Once closed, a descriptor answers EBADF for the rest of the run, as long as the run makes
   no more opens than there are fresh numbers.
   */
  lemma ClosedStaysClosed(before: seq<Op>, fd: I32, after: seq<Op>)
    requires fd in Run(EMPTY_TABLE, before).files
    requires |Issued(EMPTY_TABLE, before + [CloseOp(fd)] + after)| <= FRESH_OPENS
    ensures fd !in Run(EMPTY_TABLE, before + [CloseOp(fd)] + after).files
  {
    var mid := Run(EMPTY_TABLE, before);
    var closed := Closed(mid, fd);
    RunConcat(EMPTY_TABLE, before + [CloseOp(fd)], after);
    RunConcat(EMPTY_TABLE, before, [CloseOp(fd)]);
    assert [CloseOp(fd)][1..] == [];
    assert Run(mid, [CloseOp(fd)]) == closed && Issued(mid, [CloseOp(fd)]) == [];
    RunKeepsInv(EMPTY_TABLE, before);
    IssuedCountsUp(EMPTY_TABLE, before);
    if fd < mid.nextFd {
      PassedNumberStaysClosed(closed, after, fd);
    } else {
      HeldNumberWasIssued(EMPTY_TABLE, before, fd);
      assert |Issued(EMPTY_TABLE, before)| >= FRESH_OPENS;
      NoOpensNoNewNumbers(closed, after, fd);
    }
  }

  // ---------- what the tables mean ----------

  /** What an open recorded. */
  datatype OpenFile = OpenFile(file: File, path: LockPath)

  function OpenCount(ops: seq<Op>): (n: nat)
    decreases |ops|
  {
    if ops == [] then 0 else OpenCount(ops[..|ops| - 1]) + if ops[|ops| - 1].OpenOp? then 1 else 0
  }

  /** The number the k-th open hands out. */
  function NumberOf(k: nat): (fd: I32)
  {
    if 20_000 + k <= 0x7fff_ffff then 20_000 + k else 0x7fff_ffff
  }

  /** What the history says about a number: the last open that was handed it, unless closed since. */
  function LatestOpen(ops: seq<Op>, fd: I32): (r: Option<OpenFile>)
    decreases |ops|
  {
    if ops == [] then None
    else
      var init := ops[..|ops| - 1];
      match ops[|ops| - 1]
      case OpenOp(file, path) => if NumberOf(OpenCount(init)) == fd then Some(OpenFile(file, path)) else LatestOpen(init, fd)
      case CloseOp(gone) => if gone == fd then None else LatestOpen(init, fd)
      case LockOp(_, _) => LatestOpen(init, fd)
  }

  /** What it says about a path: the handle of the last grant. */
  function LatestGrant(ops: seq<Op>, path: LockPath): (r: Option<Handle>)
    decreases |ops|
  {
    if ops == [] then None
    else if ops[|ops| - 1].LockOp? && ops[|ops| - 1].path == path then Some(ops[|ops| - 1].handle)
    else LatestGrant(ops[..|ops| - 1], path)
  }

  /** A key of a map holds the recorded value, and is absent without one. */
  predicate Shows<K, V(==)>(m: map<K, V>, k: K, v: Option<V>)
  {
    if v.Some? then k in m && m[k] == v.value else k !in m
  }

  /**
   After every history both tables hold, for every number, exactly what the last open that was
   handed the number recorded, unless it was closed since; and every granted lock is held.
   */
  lemma {:induction false} TablesReflectHistory(ops: seq<Op>, fd: I32, path: LockPath)
    ensures var t := Run(EMPTY_TABLE, ops); var o := LatestOpen(ops, fd);
            && t.nextFd == NumberOf(OpenCount(ops))
            && Shows(t.files, fd, if o.Some? then Some(o.value.file) else None)
            && Shows(t.lockPaths, fd, if o.Some? then Some(o.value.path) else None)
            && Shows(t.locks, path, LatestGrant(ops, path))
    decreases |ops|
  {
    if ops == [] {
    } else {
      var init, last := ops[..|ops| - 1], ops[|ops| - 1];
      TablesReflectHistory(init, fd, path);
      RunConcat(EMPTY_TABLE, init, [last]);
      assert ops == init + [last] && [last][1..] == [];
      assert Run(EMPTY_TABLE, ops) == Step(Run(EMPTY_TABLE, init), last);
    }
  }
}
