/**
 The Windows non-blocking cache when guest calls overlap (src/host_sockets_windows.rs).

 F_SETFL sets the kernel's mode and then the cache; `accept` copies the listener's entry, then
 the kernel accepts, then the copied flags are inserted. Threads interleave between these
 steps. A new socket is not visible to other threads before it is inserted, so `socket` is one
 step; host calls that fail change nothing. A mode is a property of the raw socket, the cached
 flags of the table entry.
 */
module FlagOverlap {
  import opened Common
  import opened SocketTable
  import opened StatusFlags

  type Tid = nat

  /** What a thread's current call carries between its steps. */
  datatype Call =
    | Setting(fd: I32, arg: Mask)
    | Looked(listener: HostSocket)
    | Taken(raw: Raw, cached: I32)

  datatype State = State(w: WindowsState, calls: map<Tid, Call>)

  const INIT := State(WindowsState(EMPTY_TABLE, map[], 0), map[])

  datatype Event =
    | Make(ty: Mask)
    | Ioctl(t: Tid, fd: I32, arg: Mask)
    | Cache(t: Tid, fd: I32, arg: Mask)
    | Look(t: Tid, fd: I32)
    | Take(t: Tid, ok: bool)
    | Finish(t: Tid, ok: bool)
    | CloseFd(fd: I32)

  predicate Enabled(s: State, e: Event)
  {
    match e
    case Make(ty) => NormalizeType(ty).Ok?
    case Ioctl(t, fd, _) => t !in s.calls && fd in s.w.table.sockets
    case Cache(t, fd, arg) => t in s.calls && s.calls[t] == Setting(fd, arg)
    case Look(t, fd) => t !in s.calls && fd in s.w.table.sockets
    case Take(t, _) => t in s.calls && s.calls[t].Looked?
    case Finish(t, _) => t in s.calls && s.calls[t].Taken?
    case CloseFd(_) => true
  }

  /** The kernel's mode of a raw socket. */
  function ModeOf(s: State, raw: Raw): (m: bool) { raw in s.w.nonblocking && s.w.nonblocking[raw] }

  function Apply(s: State, e: Event): (r: State)
    requires Enabled(s, e)
  {
    match e
    case Make(ty) =>
      var mode := NormalizeType(ty).value.nonblocking;
      s.(w := WindowsAdd(s.w, mode, FlagsFor(mode)))
    case Ioctl(t, fd, arg) => State(WindowsIoctl(s.w, fd, arg), s.calls[t := Setting(fd, arg)])
    case Cache(t, fd, arg) => State(WindowsCache(s.w, fd, arg), s.calls - {t})
    case Look(t, fd) => s.(calls := s.calls[t := Looked(s.w.table.sockets[fd])])
    case Take(t, ok) =>
      var listener := s.calls[t].listener;
      if ok then
        State(WindowsObtain(s.w, ModeOf(s, listener.raw)), s.calls[t := Taken(s.w.nextRaw, listener.statusFlags)])
      else s.(calls := s.calls - {t})
    case Finish(t, ok) =>
      var w := if ok then WindowsInsert(s.w, s.calls[t].raw, s.calls[t].cached) else s.w;
      State(w, s.calls - {t})
    case CloseFd(fd) => s.(w := s.w.(table := Removed(s.w.table, fd)))
  }

  predicate Possible(s: State, run: seq<Event>)
    decreases |run|
  {
    run == [] || (Enabled(s, run[0]) && Possible(Apply(s, run[0]), run[1..]))
  }

  function After(s: State, run: seq<Event>): (r: State)
    requires Possible(s, run)
    decreases |run|
  {
    if run == [] then s else After(Apply(s, run[0]), run[1..])
  }

  /** Who refers to a raw socket: a table entry, or an accept that has not inserted it yet. */
  datatype Place = Entry(fd: I32) | Held(t: Tid)

  predicate At(s: State, p: Place, raw: Raw)
  {
    match p
    case Entry(fd) => fd in s.w.table.sockets && s.w.table.sockets[fd].raw == raw
    case Held(t) => t in s.calls && s.calls[t].Taken? && s.calls[t].raw == raw
  }

  /** No raw socket is in two places, and the kernel hands out only new ones. */
  ghost predicate Sound(s: State)
  {
    && (forall p, raw: Raw :: At(s, p, raw) ==> raw < s.w.nextRaw)
    && (forall p, q, raw: Raw :: At(s, p, raw) && At(s, q, raw) ==> p == q)
    && (forall t :: t in s.calls && s.calls[t].Looked? ==> s.calls[t].listener.raw < s.w.nextRaw)
  }

  lemma StepSound(s: State, e: Event)
    requires Sound(s) && Enabled(s, e)
    ensures Sound(Apply(s, e))
  {
    var r := Apply(s, e);
    match e
    case Make(_) =>
      forall p: Place, raw: Raw | At(r, p, raw)
        ensures if raw == s.w.nextRaw then p == Entry(s.w.table.nextFd) else At(s, p, raw)
      {
        if p != Entry(s.w.table.nextFd) {
          assert At(s, p, raw);
        }
      }
    case Take(t, ok) =>
      forall p: Place, raw: Raw | At(r, p, raw)
        ensures if raw == s.w.nextRaw && ok then p == Held(t) else At(s, p, raw)
      {
        if p != Held(t) {
          assert At(s, p, raw);
        }
      }
    case Finish(t, _) =>
      forall p: Place, raw: Raw | At(r, p, raw)
        ensures (At(s, p, raw) && p != Held(t)) || (p == Entry(s.w.table.nextFd) && At(s, Held(t), raw))
      {
      }
    case Look(t, fd) =>
      assert At(s, Entry(fd), s.w.table.sockets[fd].raw);
      forall p: Place, raw: Raw | At(r, p, raw) ensures At(s, p, raw) {
      }
    case _ =>
      forall p: Place, raw: Raw | At(r, p, raw) ensures At(s, p, raw) {
      }
  }

  lemma {:induction false} RunSound(s: State, run: seq<Event>)
    requires Sound(s) && Possible(s, run)
    ensures Sound(After(s, run))
    decreases |run|
  {
    if run == [] {
    } else {
      StepSound(s, run[0]);
      RunSound(Apply(s, run[0]), run[1..]);
    }
  }

  // ---------- the exact law ----------

  /** The kernel's mode of the socket under a number, and what the bridge reports for it. */
  function KernelMode(s: State, fd: I32): (m: bool)
    requires fd in s.w.table.sockets
  {
    ModeOf(s, s.w.table.sockets[fd].raw)
  }

  function CachedFlags(s: State, fd: I32): (flags: I32)
    requires fd in s.w.table.sockets
  {
    s.w.table.sockets[fd].statusFlags
  }

  predicate Agrees(s: State, fd: I32)
  {
    fd in s.w.table.sockets && CachedFlags(s, fd) == FlagsFor(KernelMode(s, fd))
  }

  /** The bit carried by the last kernel half on the number, or `mode` if there is none. */
  function LastIoctl(run: seq<Event>, fd: I32, mode: bool): (m: bool)
    decreases |run|
  {
    if run == [] then mode
    else
      LastIoctl(run[1..], fd, if IsIoctl(run[0], fd) then GUEST_NONBLOCK_BIT in run[0].arg else mode)
  }

  /** The flags stored by the last cache half on the number, or `flags` if there is none. */
  function LastCache(run: seq<Event>, fd: I32, flags: I32): (f: I32)
    decreases |run|
  {
    if run == [] then flags
    else
      LastCache(run[1..], fd,
                if IsCache(run[0], fd) then FlagsFor(GUEST_NONBLOCK_BIT in run[0].arg) else flags)
  }

  predicate IsIoctl(e: Event, fd: I32) { e.Ioctl? && e.fd == fd }

  predicate IsCache(e: Event, fd: I32) { e.Cache? && e.fd == fd }

  /** It is the last: step `i` is a kernel half on the number and no later step is (-1 if none is). */
  lemma {:induction false} LastIoctlIs(run: seq<Event>, fd: I32, mode: bool, i: int)
    requires -1 <= i < |run| && (i >= 0 ==> IsIoctl(run[i], fd))
    requires forall k :: i < k < |run| ==> !IsIoctl(run[k], fd)
    ensures LastIoctl(run, fd, mode) == if i < 0 then mode else GUEST_NONBLOCK_BIT in run[i].arg
    decreases |run|
  {
    if run == [] {
    } else {
      LastIoctlIs(run[1..], fd, if IsIoctl(run[0], fd) then GUEST_NONBLOCK_BIT in run[0].arg else mode,
                  if i <= 0 then -1 else i - 1);
    }
  }

  lemma {:induction false} LastCacheIs(run: seq<Event>, fd: I32, flags: I32, i: int)
    requires -1 <= i < |run| && (i >= 0 ==> IsCache(run[i], fd))
    requires forall k :: i < k < |run| ==> !IsCache(run[k], fd)
    ensures LastCache(run, fd, flags) == if i < 0 then flags else FlagsFor(GUEST_NONBLOCK_BIT in run[i].arg)
    decreases |run|
  {
    if run == [] {
    } else {
      LastCacheIs(run[1..], fd, if IsCache(run[0], fd) then FlagsFor(GUEST_NONBLOCK_BIT in run[0].arg) else flags,
                  if i <= 0 then -1 else i - 1);
    }
  }

  /** Only an F_SETFL through its own entry changes the mode of a socket. */
  lemma ModeKept(s: State, e: Event, p: Place, raw: Raw)
    requires Sound(s) && Enabled(s, e) && At(s, p, raw) && !(e.Ioctl? && p == Entry(e.fd))
    ensures ModeOf(Apply(s, e), raw) == ModeOf(s, raw)
  {
    if e.Ioctl? {
      assert At(s, Entry(e.fd), s.w.table.sockets[e.fd].raw);
    }
  }

  /** The step leaves the socket under an open number in place. */
  predicate Spares(s: State, e: Event, fd: I32)
  {
    && fd in s.w.table.sockets && e != CloseFd(fd)
    && ((e.Make? || (e.Finish? && e.ok)) ==> fd != s.w.table.nextFd)
  }

  /** Every step of the run does: the number is neither closed nor handed out again. */
  ghost predicate StaysOpen(s: State, run: seq<Event>, fd: I32)
    requires Possible(s, run)
    decreases |run|
  {
    && fd in s.w.table.sockets
    && (run != [] ==> Spares(s, run[0], fd) && StaysOpen(Apply(s, run[0]), run[1..], fd))
  }

  /** Numbers below the counter are never handed out again, so these stay open until closed. */
  lemma {:induction false} OpenUntilClosed(s: State, run: seq<Event>, fd: I32)
    requires Possible(s, run) && fd in s.w.table.sockets && fd < s.w.table.nextFd
    requires forall i :: 0 <= i < |run| ==> run[i] != CloseFd(fd)
    ensures StaysOpen(s, run, fd)
    decreases |run|
  {
    if run == [] {
    } else {
      assert run[0] != CloseFd(fd);
      OpenUntilClosed(Apply(s, run[0]), run[1..], fd);
    }
  }

  /** What one step does to the socket under a number that stays open. */
  lemma StepKeepsSocket(s: State, e: Event, fd: I32)
    requires Sound(s) && Enabled(s, e) && Spares(s, e, fd)
    ensures var r := Apply(s, e);
            && fd in r.w.table.sockets && r.w.table.sockets[fd].raw == s.w.table.sockets[fd].raw
            && KernelMode(r, fd) == LastIoctl([e], fd, KernelMode(s, fd))
            && CachedFlags(r, fd) == LastCache([e], fd, CachedFlags(s, fd))
  {
    assert [e][1..] == [];
    assert At(s, Entry(fd), s.w.table.sockets[fd].raw);
    if !(e.Ioctl? && e.fd == fd) {
      ModeKept(s, e, Entry(fd), s.w.table.sockets[fd].raw);
    }
  }

  /**
   In every interleaving the kernel's mode is the bit of the last kernel half on that number and
   the cached flag that of the last cache half; they agree exactly when those bits are the same.
   */
  lemma {:induction false} LastHalvesDecide(s: State, run: seq<Event>, fd: I32)
    requires Sound(s) && Possible(s, run) && StaysOpen(s, run, fd)
    ensures fd in After(s, run).w.table.sockets
    ensures After(s, run).w.table.sockets[fd].raw == s.w.table.sockets[fd].raw
    ensures KernelMode(After(s, run), fd) == LastIoctl(run, fd, KernelMode(s, fd))
    ensures CachedFlags(After(s, run), fd) == LastCache(run, fd, CachedFlags(s, fd))
    ensures Agrees(After(s, run), fd) <==>
            LastCache(run, fd, CachedFlags(s, fd)) == FlagsFor(LastIoctl(run, fd, KernelMode(s, fd)))
    decreases |run|
  {
    if run == [] {
    } else {
      var r := Apply(s, run[0]);
      StepKeepsSocket(s, run[0], fd);
      StepSound(s, run[0]);
      assert [run[0]][1..] == [];
      LastHalvesDecide(r, run[1..], fd);
    }
  }

  /** A socket made by `socket` is open under the number handed out, in the mode asked for, and agrees. */
  lemma MadeSocketAgrees(s: State, ty: Mask)
    requires Sound(s) && Enabled(s, Event.Make(ty))
    ensures var r := Apply(s, Event.Make(ty));
            && s.w.table.nextFd in r.w.table.sockets && Agrees(r, s.w.table.nextFd)
            && KernelMode(r, s.w.table.nextFd) == (11 in ty || 14 in ty)
            && CachedFlags(r, s.w.table.nextFd) == if 11 in ty || 14 in ty then 4 else 0
  {
  }

  /** A closed number is free, and every other keeps its socket, flags and mode. */
  lemma ClosedNumberIsFree(s: State, fd: I32, other: I32)
    requires Sound(s) && other != fd
    ensures var r := Apply(s, CloseFd(fd));
            && fd !in r.w.table.sockets && r.calls == s.calls
            && (other in s.w.table.sockets <==> other in r.w.table.sockets)
            && (other in s.w.table.sockets ==>
                  KernelMode(r, other) == KernelMode(s, other) && CachedFlags(r, other) == CachedFlags(s, other))
  {
  }

  /** F_SETFL makes its kernel half and then its cache half, and no thread is left behind. */
  lemma {:induction false} CacheHalfFollows(s: State, run: seq<Event>, t: Tid, fd: I32, arg: Mask)
    requires Possible(s, run) && t in s.calls && s.calls[t] == Setting(fd, arg)
    requires forall i :: 0 <= i < |run| ==> run[i] != Cache(t, fd, arg)
    ensures Enabled(After(s, run), Cache(t, fd, arg)) && t !in Apply(After(s, run), Cache(t, fd, arg)).calls
    decreases |run|
  {
    if run == [] {
    } else {
      assert run[0] != Cache(t, fd, arg);
      CacheHalfFollows(Apply(s, run[0]), run[1..], t, fd, arg);
    }
  }

  // ---------- calls that do not overlap on one socket ----------

  /** The thread is between the two halves of an F_SETFL on the number. */
  predicate Sets(s: State, t: Tid, fd: I32)
  {
    t in s.calls && s.calls[t].Setting? && s.calls[t].fd == fd
  }

  /** The thread whose call a step belongs to, if it matters between steps. */
  function Actor(e: Event): Option<Tid>
  {
    if e.Make? || e.CloseFd? then None else Some(e.t)
  }

  ghost predicate Quiet(s: State, fd: I32) { forall t :: !Sets(s, t, fd) }

  /** No F_SETFL on the number sets the mode while another is between its halves. */
  ghost predicate Orderly(s: State, run: seq<Event>, fd: I32)
    requires Possible(s, run)
    decreases |run|
  {
    run != [] ==>
      && (run[0].Ioctl? && run[0].fd == fd ==> Quiet(s, fd))
      && Orderly(Apply(s, run[0]), run[1..], fd)
  }

  /** At most one call is between its halves, and then it has just set the mode. */
  ghost predicate OneWriter(s: State, fd: I32)
    requires fd in s.w.table.sockets
  {
    && (Quiet(s, fd) ==> Agrees(s, fd))
    && (forall t :: Sets(s, t, fd) ==> KernelMode(s, fd) == (GUEST_NONBLOCK_BIT in s.calls[t].arg))
    && (forall t, t' :: Sets(s, t, fd) && Sets(s, t', fd) ==> t == t')
  }

  lemma StepKeepsOneWriter(s: State, e: Event, fd: I32)
    requires Sound(s) && Enabled(s, e) && Spares(s, e, fd) && OneWriter(s, fd)
    requires e.Ioctl? && e.fd == fd ==> Quiet(s, fd)
    ensures fd in Apply(s, e).w.table.sockets && OneWriter(Apply(s, e), fd)
  {
    var r := Apply(s, e);
    StepKeepsSocket(s, e, fd);
    assert [e][1..] == [];
    forall u: Tid | Actor(e) != Some(u) ensures Sets(r, u, fd) <==> Sets(s, u, fd) {
    }
    match e
    case Ioctl(t, _, _) => assert Sets(r, t, e.fd);
    case Cache(t, _, _) => assert Sets(s, t, e.fd);
    case Look(t, _) => assert !Sets(r, t, fd) && !Sets(s, t, fd);
    case Take(t, _) => assert !Sets(r, t, fd) && !Sets(s, t, fd);
    case Finish(t, _) => assert !Sets(r, t, fd) && !Sets(s, t, fd);
    case _ => assert r.calls == s.calls;
  }

  /**
   If F_SETFL calls on a socket do not overlap each other, the cache agrees with the kernel
   whenever none of them is under way, whatever happens on other sockets.
   */
  lemma {:induction false} OrderlySocketAgrees(s: State, run: seq<Event>, fd: I32)
    requires Sound(s) && Possible(s, run) && StaysOpen(s, run, fd)
    requires OneWriter(s, fd) && Orderly(s, run, fd)
    ensures fd in After(s, run).w.table.sockets && OneWriter(After(s, run), fd)
    ensures Quiet(After(s, run), fd) ==> Agrees(After(s, run), fd)
    decreases |run|
  {
    if run == [] {
    } else {
      StepKeepsOneWriter(s, run[0], fd);
      StepKeepsSocket(s, run[0], fd);
      StepSound(s, run[0]);
      OrderlySocketAgrees(Apply(s, run[0]), run[1..], fd);
    }
  }

  // ---------- accept ----------

  lemma {:induction false} LookedKept(s: State, run: seq<Event>, t: Tid)
    requires Possible(s, run) && t in s.calls && s.calls[t].Looked?
    requires forall i :: 0 <= i < |run| ==> !(run[i].Take? && run[i].t == t)
    ensures t in After(s, run).calls && After(s, run).calls[t] == s.calls[t]
    decreases |run|
  {
    if run == [] {
    } else {
      assert !(run[0].Take? && run[0].t == t);
      LookedKept(Apply(s, run[0]), run[1..], t);
    }
  }

  /** Nobody else can change the mode of a socket that is not in the table yet. */
  lemma {:induction false} TakenKept(s: State, run: seq<Event>, t: Tid)
    requires Sound(s) && Possible(s, run) && t in s.calls && s.calls[t].Taken?
    requires forall i :: 0 <= i < |run| ==> !(run[i].Finish? && run[i].t == t)
    ensures t in After(s, run).calls && After(s, run).calls[t] == s.calls[t]
    ensures ModeOf(After(s, run), s.calls[t].raw) == ModeOf(s, s.calls[t].raw)
    decreases |run|
  {
    if run == [] {
    } else {
      assert !(run[0].Finish? && run[0].t == t);
      StepSound(s, run[0]);
      assert At(s, Held(t), s.calls[t].raw);
      ModeKept(s, run[0], Held(t), s.calls[t].raw);
      TakenKept(Apply(s, run[0]), run[1..], t);
    }
  }

  /** The three steps of one `accept`, with any steps of other threads in between. */
  ghost predicate AcceptRun(s: State, t: Tid, fd: I32, early: seq<Event>, late: seq<Event>)
  {
    && Enabled(s, Look(t, fd)) && Possible(Apply(s, Look(t, fd)), early)
    && (forall i :: 0 <= i < |early| ==> !(early[i].Take? && early[i].t == t))
    && var taking := After(Apply(s, Look(t, fd)), early);
    && Enabled(taking, Take(t, true)) && Possible(Apply(taking, Take(t, true)), late)
    && (forall i :: 0 <= i < |late| ==> !(late[i].Finish? && late[i].t == t))
  }

  /**
   An accepted socket gets the flag the bridge had cached for the listener at its look-up and the
   mode the listener had when the kernel accepted; it agrees exactly when these are the same.
   */
  lemma AcceptedAgreesIff(s: State, t: Tid, fd: I32, early: seq<Event>, late: seq<Event>)
    requires Sound(s) && AcceptRun(s, t, fd, early, late)
    ensures var taking := After(Apply(s, Look(t, fd)), early);
            var ready := After(Apply(taking, Take(t, true)), late);
            && Enabled(ready, Finish(t, true))
            && var done, number := Apply(ready, Finish(t, true)), ready.w.table.nextFd;
            && number in done.w.table.sockets && t !in done.calls
            && CachedFlags(done, number) == CachedFlags(s, fd)
            && KernelMode(done, number) == ModeOf(taking, s.w.table.sockets[fd].raw)
            && (Agrees(done, number) <==> CachedFlags(s, fd) == FlagsFor(ModeOf(taking, s.w.table.sockets[fd].raw)))
  {
    var looked := Apply(s, Look(t, fd));
    StepSound(s, Look(t, fd));
    RunSound(looked, early);
    LookedKept(looked, early, t);
    var taking := After(looked, early);
    StepSound(taking, Take(t, true));
    var taken := Apply(taking, Take(t, true));
    TakenKept(taken, late, t);
  }

  // ---------- whole runs ----------

  /** No step touches a socket on which another call is in the middle. */
  ghost predicate Apart(s: State, e: Event)
  {
    match e
    case Ioctl(_, fd, _) =>
      && Quiet(s, fd)
      && forall t :: t in s.calls && s.calls[t].Looked? && fd in s.w.table.sockets ==>
           s.calls[t].listener.raw != s.w.table.sockets[fd].raw
    case Look(_, fd) => Quiet(s, fd)
    // Only the last number can be handed out while a call on it is under way.
    case Make(_) => Quiet(s, s.w.table.nextFd)
    case Finish(_, _) => Quiet(s, s.w.table.nextFd)
    case _ => true
  }

  ghost predicate AllApart(s: State, run: seq<Event>)
    requires Possible(s, run)
    decreases |run|
  {
    run != [] ==> Apart(s, run[0]) && AllApart(Apply(s, run[0]), run[1..])
  }

  /** Every entry, and every copy of flags a call carries, is in step with the kernel. */
  ghost predicate InStep(s: State)
  {
    && Sound(s)
    && (forall fd :: fd in s.w.table.sockets ==> OneWriter(s, fd))
    && (forall t :: t in s.calls && s.calls[t].Looked? ==>
          s.calls[t].listener.statusFlags == FlagsFor(ModeOf(s, s.calls[t].listener.raw)))
    && (forall t :: t in s.calls && s.calls[t].Taken? ==>
          s.calls[t].cached == FlagsFor(ModeOf(s, s.calls[t].raw)))
  }

  /** An entry that a step adds is in step, and no F_SETFL on its number is under way. */
  lemma NewEntryInStep(s: State, e: Event)
    requires InStep(s) && Enabled(s, e) && Apart(s, e) && (e.Make? || (e.Finish? && e.ok))
    ensures OneWriter(Apply(s, e), s.w.table.nextFd)
  {
    var r, fd := Apply(s, e), s.w.table.nextFd;
    assert Agrees(r, fd);
    forall t ensures !Sets(r, t, fd) {
      assert !Sets(s, t, fd);
    }
  }

  lemma CopiesInStep(s: State, e: Event, t: Tid)
    requires InStep(s) && Enabled(s, e) && Apart(s, e) && t in Apply(s, e).calls
    ensures var r := Apply(s, e);
            && (r.calls[t].Looked? ==>
                  r.calls[t].listener.statusFlags == FlagsFor(ModeOf(r, r.calls[t].listener.raw)))
            && (r.calls[t].Taken? ==> r.calls[t].cached == FlagsFor(ModeOf(r, r.calls[t].raw)))
  {
    var r := Apply(s, e);
    if e.Look? && e.t == t {
      assert Agrees(s, e.fd);
    } else if r.calls[t].Taken? && !e.Take? {
      assert At(s, Held(t), s.calls[t].raw);
      ModeKept(s, e, Held(t), s.calls[t].raw);
    } else if r.calls[t].Taken? && t in s.calls && s.calls[t].Taken? {
      assert At(s, Held(t), s.calls[t].raw);
    }
  }

  lemma StepInStep(s: State, e: Event)
    requires InStep(s) && Enabled(s, e) && Apart(s, e)
    ensures InStep(Apply(s, e))
  {
    var r := Apply(s, e);
    StepSound(s, e);
    forall fd | fd in r.w.table.sockets ensures OneWriter(r, fd) {
      if Spares(s, e, fd) {
        StepKeepsOneWriter(s, e, fd);
      } else {
        NewEntryInStep(s, e);
      }
    }
    forall t | t in r.calls
      ensures r.calls[t].Looked? ==> r.calls[t].listener.statusFlags == FlagsFor(ModeOf(r, r.calls[t].listener.raw))
      ensures r.calls[t].Taken? ==> r.calls[t].cached == FlagsFor(ModeOf(r, r.calls[t].raw))
    {
      CopiesInStep(s, e, t);
    }
  }

  lemma {:induction false} RunInStep(s: State, run: seq<Event>)
    requires InStep(s) && Possible(s, run) && AllApart(s, run)
    ensures InStep(After(s, run))
    decreases |run|
  {
    if run == [] {
    } else {
      StepInStep(s, run[0]);
      RunInStep(Apply(s, run[0]), run[1..]);
    }
  }

  /**
   Over every interleaving in which no step touches a socket on which another call is in the
   middle, the cache agrees with the kernel for every open socket no F_SETFL is working on,
   accepted sockets included.
   */
  lemma ApartRunsAgree(run: seq<Event>, fd: I32)
    requires Possible(INIT, run) && AllApart(INIT, run)
    requires fd in After(INIT, run).w.table.sockets && Quiet(After(INIT, run), fd)
    ensures Agrees(After(INIT, run), fd)
  {
    RunInStep(INIT, run);
  }

  // ---------- overlaps that break agreement ----------

  /** One more step in front of a run. */
  lemma Unfold(s: State, run: seq<Event>, fd: I32, rest: seq<Event>)
    requires run != [] && rest == run[1..] && Enabled(s, run[0]) && Spares(s, run[0], fd)
    requires Possible(Apply(s, run[0]), rest) && StaysOpen(Apply(s, run[0]), rest, fd)
    ensures Possible(s, run) && StaysOpen(s, run, fd)
  {
  }

  /** Two F_SETFL calls whose cache halves come in the other order than their kernel halves. */
  lemma CrossedSetFlDisagrees(s: State, fd: I32, t: Tid, u: Tid, on: Mask, off: Mask)
    requires Sound(s) && fd in s.w.table.sockets
    requires t != u && t !in s.calls && u !in s.calls
    requires GUEST_NONBLOCK_BIT in on && GUEST_NONBLOCK_BIT !in off
    ensures var run := [Ioctl(t, fd, on), Ioctl(u, fd, off), Cache(u, fd, off), Cache(t, fd, on)];
            Possible(s, run) && !Agrees(After(s, run), fd)
  {
    var run := [Ioctl(t, fd, on), Ioctl(u, fd, off), Cache(u, fd, off), Cache(t, fd, on)];
    var s1 := Apply(s, run[0]);
    var s2 := Apply(s1, run[1]);
    var s3 := Apply(s2, run[2]);
    Unfold(s3, run[3..], fd, []);
    Unfold(s2, run[2..], fd, run[3..]);
    Unfold(s1, run[1..], fd, run[2..]);
    Unfold(s, run, fd, run[1..]);
    LastHalvesDecide(s, run, fd);
    LastIoctlIs(run, fd, KernelMode(s, fd), 1);
    LastCacheIs(run, fd, CachedFlags(s, fd), 3);
  }

  /** An `accept` that looks the listener up before an F_SETFL and accepts after it. */
  lemma AcceptAcrossSetFlDisagrees(s: State, fd: I32, t: Tid, u: Tid)
    requires Sound(s) && Agrees(s, fd)
    requires t != u && t !in s.calls && u !in s.calls
    ensures var arg := if KernelMode(s, fd) then {} else {GUEST_NONBLOCK_BIT};
            var run := [Ioctl(u, fd, arg), Cache(u, fd, arg)];
            && AcceptRun(s, t, fd, run, [])
            && var taken := Apply(After(Apply(s, Look(t, fd)), run), Take(t, true));
            && Enabled(taken, Finish(t, true))
            && !Agrees(Apply(taken, Finish(t, true)), taken.w.table.nextFd)
  {
    var arg := if KernelMode(s, fd) then {} else {GUEST_NONBLOCK_BIT};
    var run := [Ioctl(u, fd, arg), Cache(u, fd, arg)];
    var looked := Apply(s, Look(t, fd));
    StepSound(s, Look(t, fd));
    var s1 := Apply(looked, run[0]);
    assert run[1..][1..] == [] && Possible(s1, run[1..]) && StaysOpen(s1, run[1..], fd);
    LastHalvesDecide(looked, run, fd);
    LastIoctlIs(run, fd, KernelMode(looked, fd), 0);
    LookedKept(looked, run, t);
    var taken := Apply(After(looked, run), Take(t, true));
    assert After(taken, []) == taken;
    AcceptedAgreesIff(s, t, fd, run, []);
  }
}
