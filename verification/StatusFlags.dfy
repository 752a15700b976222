/**
 Non-blocking mode on both socket bridges (src/host_sockets.rs, src/host_sockets_windows.rs).

 Windows has no call that reads the mode back, so the bridge caches it; Linux keeps it in the
 file status flags. A mask is the set of its bit positions. Runs are sequential here: each
 guest call finishes before the next (`FlagOverlap` has the rest). Accepted sockets inherit
 the listener's mode on Windows and start blocking on Linux.
 */
module StatusFlags {
  import opened Common
  import opened SocketTable

  type Mask = set<nat>

  /** WASI_O_NONBLOCK is 0x4, Linux O_NONBLOCK is 0x800. */
  const GUEST_NONBLOCK_BIT: nat := 2
  const HOST_NONBLOCK_BIT: nat := 11
  const GUEST_NONBLOCK: I32 := 4

  /** The flags of a guest socket type: 0x800 and 0x4000 non-blocking, 0x80000 and 0x2000 close-on-exec. */
  const TYPE_FLAGS: Mask := {11, 19, 13, 14}

  datatype Kind = Stream | Datagram
  datatype SocketType = SocketType(kind: Kind, closeOnExec: bool, nonblocking: bool)

  /** `normalize_socket_type`: 1 and 6 are streams, 2 and 5 datagrams, with any flags. */
  function NormalizeType(ty: Mask): (r: Result<SocketType>)
  {
    var base := ty - TYPE_FLAGS;
    var closeOnExec, nonblocking := 19 in ty || 13 in ty, 11 in ty || 14 in ty;
    if base == {0} || base == {1, 2} then Ok(SocketType(Stream, closeOnExec, nonblocking))
    else if base == {1} || base == {0, 2} then Ok(SocketType(Datagram, closeOnExec, nonblocking))
    else Err(ENOTSUP)
  }

  /**
   The numbers 1 and 6 mean a stream, 2 and 5 a datagram, nothing else is supported; flag bits
   never change that, and each flag is read from either of its encodings.
   */
  lemma FlagsDoNotChangeKind(base: Mask, flags: Mask)
    requires base !! TYPE_FLAGS && flags <= TYPE_FLAGS
    ensures NormalizeType(base + flags) ==
            if base == {0} || base == {1, 2} then Ok(SocketType(Stream, flags * {13, 19} != {}, flags * {11, 14} != {}))
            else if base == {1} || base == {0, 2} then Ok(SocketType(Datagram, flags * {13, 19} != {}, flags * {11, 14} != {}))
            else Err(ENOTSUP)
  {
    assert base + flags - TYPE_FLAGS == base - TYPE_FLAGS == base;
    assert 13 in flags * {13, 19} || 19 in flags * {13, 19} || flags * {13, 19} == {};
    assert 11 in flags * {11, 14} || 14 in flags * {11, 14} || flags * {11, 14} == {};
  }

  /** Guest calls; `ok` says whether the host calls behind them succeed. */
  datatype Op =
    | Make(ty: Mask, initial: Mask, ok: bool)
    | Accept(fd: I32, initial: Mask, ok: bool)
    | SetFl(fd: I32, arg: Mask, ok: bool)
    | Close(fd: I32)

  // ---------- the Windows bridge ----------

  datatype WindowsState = WindowsState(table: Table, nonblocking: map<Raw, bool>, nextRaw: Raw)

  function FlagsFor(nonblocking: bool): I32 { if nonblocking then GUEST_NONBLOCK else 0 }

  /** The kernel hands out a socket in the given mode. */
  function WindowsObtain(w: WindowsState, mode: bool): (r: WindowsState)
  {
    w.(nonblocking := w.nonblocking[w.nextRaw := mode], nextRaw := w.nextRaw + 1)
  }

  /** The bridge inserts a socket with the given cached flags. */
  function WindowsInsert(w: WindowsState, raw: Raw, cached: I32): (r: WindowsState)
  {
    w.(table := Inserted(w.table, HostSocket(raw, 0, 0, cached)))
  }

  function WindowsAdd(w: WindowsState, mode: bool, cached: I32): (r: WindowsState)
  {
    WindowsInsert(WindowsObtain(w, mode), w.nextRaw, cached)
  }

  /** The two halves of F_SETFL: the kernel's mode, then the cache. */
  function WindowsIoctl(w: WindowsState, fd: I32, arg: Mask): (r: WindowsState)
  {
    if fd in w.table.sockets then
      w.(nonblocking := w.nonblocking[w.table.sockets[fd].raw := GUEST_NONBLOCK_BIT in arg])
    else w
  }

  function WindowsCache(w: WindowsState, fd: I32, arg: Mask): (r: WindowsState)
  {
    w.(table := Flagged(w.table, fd, FlagsFor(GUEST_NONBLOCK_BIT in arg)))
  }

  function WindowsStep(w: WindowsState, op: Op): (r: WindowsState)
  {
    match op
    case Make(ty, _, ok) =>
      var t := NormalizeType(ty);
      if t.Err? || !ok then w else WindowsAdd(w, t.value.nonblocking, FlagsFor(t.value.nonblocking))
    case Accept(fd, _, ok) =>
      if fd !in w.table.sockets || !ok then w
      else
        var listener := w.table.sockets[fd];
        // The kernel copies the listener's mode, the bridge copies the cached flags.
        WindowsAdd(w, listener.raw in w.nonblocking && w.nonblocking[listener.raw], listener.statusFlags)
    case SetFl(fd, arg, ok) =>
      if fd !in w.table.sockets || !ok then w else WindowsCache(WindowsIoctl(w, fd, arg), fd, arg)
    case Close(fd) => w.(table := Removed(w.table, fd))
  }

  function WindowsGetFl(w: WindowsState, fd: I32): (r: Result<I32>)
  {
    if fd in w.table.sockets then Ok(w.table.sockets[fd].statusFlags) else Err(EBADF)
  }

  /** The cache agrees with the kernel on every open socket, and no two entries share a socket. */
  ghost predicate CacheAgrees(w: WindowsState)
  {
    && (forall fd :: fd in w.table.sockets ==>
          && w.table.sockets[fd].raw < w.nextRaw && w.table.sockets[fd].raw in w.nonblocking
          && w.table.sockets[fd].statusFlags == FlagsFor(w.nonblocking[w.table.sockets[fd].raw]))
    && (forall fd, fd' :: fd in w.table.sockets && fd' in w.table.sockets && fd != fd' ==>
          w.table.sockets[fd].raw != w.table.sockets[fd'].raw)
  }

  function WindowsRun(w: WindowsState, ops: seq<Op>): (r: WindowsState)
    decreases |ops|
  {
    if ops == [] then w else WindowsRun(WindowsStep(w, ops[0]), ops[1..])
  }

  lemma WindowsStepAgrees(w: WindowsState, op: Op)
    requires CacheAgrees(w)
    ensures CacheAgrees(WindowsStep(w, op))
  {
  }

  /** In every sequential run the cached flag is the kernel's mode. */
  lemma {:induction false} CacheAgreesAlways(w: WindowsState, ops: seq<Op>)
    requires CacheAgrees(w)
    ensures CacheAgrees(WindowsRun(w, ops))
    decreases |ops|
  {
    if ops == [] {
    } else {
      WindowsStepAgrees(w, ops[0]);
      CacheAgreesAlways(WindowsStep(w, ops[0]), ops[1..]);
    }
  }

  /** So F_GETFL answers 4 for a socket in non-blocking mode and 0 for one that blocks. */
  lemma GetFlShowsMode(w: WindowsState, fd: I32)
    requires CacheAgrees(w) && fd in w.table.sockets
    ensures WindowsGetFl(w, fd) == Ok(if w.nonblocking[w.table.sockets[fd].raw] then 4 else 0)
  {
  }

  // ---------- the Linux bridge ----------

  datatype LinuxState = LinuxState(table: Table, flags: map<Raw, Mask>, nextRaw: Raw)

  function LinuxAdd(l: LinuxState, flags: Mask): (r: LinuxState)
  {
    LinuxState(Inserted(l.table, HostSocket(l.nextRaw, 0, 0, 0)), l.flags[l.nextRaw := flags], l.nextRaw + 1)
  }

  /** The new status flags of F_SETFL: only the non-blocking bit changes. */
  function WithMode(flags: Mask, nonblocking: bool): (r: Mask)
    ensures HOST_NONBLOCK_BIT in r <==> nonblocking
    ensures forall b :: b != HOST_NONBLOCK_BIT ==> (b in r <==> b in flags)
  {
    if nonblocking then flags + {HOST_NONBLOCK_BIT} else flags - {HOST_NONBLOCK_BIT}
  }

  function LinuxFlags(l: LinuxState, fd: I32): Mask
  {
    if fd in l.table.sockets && l.table.sockets[fd].raw in l.flags then l.flags[l.table.sockets[fd].raw] else {}
  }

  /** New sockets start with the host's flags, which do not include the non-blocking bit. */
  function LinuxStep(l: LinuxState, op: Op): (r: LinuxState)
  {
    match op
    case Make(ty, initial, ok) =>
      var t := NormalizeType(ty);
      if t.Err? || !ok then l
      else if t.value.nonblocking then LinuxAdd(l, WithMode(initial, true))
      else LinuxAdd(l, initial - {HOST_NONBLOCK_BIT})
    case Accept(fd, initial, ok) =>
      if fd !in l.table.sockets || !ok then l else LinuxAdd(l, initial - {HOST_NONBLOCK_BIT})
    case SetFl(fd, arg, ok) =>
      if fd !in l.table.sockets || !ok then l
      else l.(flags := l.flags[l.table.sockets[fd].raw := WithMode(LinuxFlags(l, fd), GUEST_NONBLOCK_BIT in arg)])
    case Close(fd) => l.(table := Removed(l.table, fd))
  }

  function LinuxGetFl(l: LinuxState, fd: I32): (r: Result<I32>)
  {
    if fd in l.table.sockets then Ok(FlagsFor(HOST_NONBLOCK_BIT in LinuxFlags(l, fd))) else Err(EBADF)
  }

  function LinuxRun(l: LinuxState, ops: seq<Op>): (r: LinuxState)
    decreases |ops|
  {
    if ops == [] then l else LinuxRun(LinuxStep(l, ops[0]), ops[1..])
  }

  ghost predicate LinuxSane(l: LinuxState)
  {
    && (forall fd :: fd in l.table.sockets ==> l.table.sockets[fd].raw < l.nextRaw && l.table.sockets[fd].raw in l.flags)
    && (forall fd, fd' :: fd in l.table.sockets && fd' in l.table.sockets && fd != fd' ==>
          l.table.sockets[fd].raw != l.table.sockets[fd'].raw)
  }

  /** F_SETFL keeps every other host flag of the socket, and every flag of all other sockets. */
  lemma SetFlKeepsOtherFlags(l: LinuxState, fd: I32, arg: Mask, ok: bool, other: I32)
    requires LinuxSane(l) && other in l.table.sockets
    ensures var r := LinuxStep(l, SetFl(fd, arg, ok));
            && (forall b :: b != HOST_NONBLOCK_BIT ==> (b in LinuxFlags(r, other) <==> b in LinuxFlags(l, other)))
            && (other != fd ==> LinuxFlags(r, other) == LinuxFlags(l, other))
  {
  }

  // ---------- one abstract bit ----------

  /** The specification: the numbers made by `socket` and still open, each with one bit. */
  datatype Abstract = Abstract(nextFd: I32, open: set<I32>, bits: map<I32, bool>)

  function AbstractStep(a: Abstract, op: Op): (r: Abstract)
  {
    match op
    case Make(ty, _, ok) =>
      var t := NormalizeType(ty);
      if t.Err? || !ok then a
      else Abstract(SaturatingNext(a.nextFd), a.open + {a.nextFd}, a.bits[a.nextFd := t.value.nonblocking])
    case Accept(fd, _, ok) =>
      if fd !in a.open || !ok then a
      else Abstract(SaturatingNext(a.nextFd), a.open + {a.nextFd}, a.bits - {a.nextFd})
    case SetFl(fd, arg, ok) =>
      if fd !in a.bits || !ok then a else a.(bits := a.bits[fd := GUEST_NONBLOCK_BIT in arg])
    case Close(fd) => a.(open := a.open - {fd}, bits := a.bits - {fd})
  }

  function AbstractRun(a: Abstract, ops: seq<Op>): (r: Abstract)
    decreases |ops|
  {
    if ops == [] then a else AbstractRun(AbstractStep(a, ops[0]), ops[1..])
  }

  ghost predicate WindowsRefines(w: WindowsState, a: Abstract)
  {
    && w.table.nextFd == a.nextFd && w.table.sockets.Keys == a.open && a.bits.Keys <= a.open
    && forall fd :: fd in a.bits ==> WindowsGetFl(w, fd) == Ok(FlagsFor(a.bits[fd]))
  }

  ghost predicate LinuxRefines(l: LinuxState, a: Abstract)
  {
    && l.table.nextFd == a.nextFd && l.table.sockets.Keys == a.open && a.bits.Keys <= a.open
    && forall fd :: fd in a.bits ==> LinuxGetFl(l, fd) == Ok(FlagsFor(a.bits[fd]))
  }

  lemma WindowsStepRefines(w: WindowsState, a: Abstract, op: Op)
    requires WindowsRefines(w, a)
    ensures WindowsRefines(WindowsStep(w, op), AbstractStep(a, op))
  {
  }

  lemma {:induction false} WindowsRefinesAlways(w: WindowsState, a: Abstract, ops: seq<Op>)
    requires WindowsRefines(w, a)
    ensures WindowsRefines(WindowsRun(w, ops), AbstractRun(a, ops))
    decreases |ops|
  {
    if ops == [] {
    } else {
      WindowsStepRefines(w, a, ops[0]);
      WindowsRefinesAlways(WindowsStep(w, ops[0]), AbstractStep(a, ops[0]), ops[1..]);
    }
  }

  lemma LinuxStepSane(l: LinuxState, op: Op)
    requires LinuxSane(l)
    ensures LinuxSane(LinuxStep(l, op))
  {
    var r := LinuxStep(l, op);
    match op
    case Make(_, _, _) =>
    case Accept(_, _, _) =>
    case SetFl(fd, _, _) => assert r.table == l.table;
    case Close(fd) => assert r.flags == l.flags;
  }

  /** A new entry changes no other entry's flags. */
  lemma LinuxAddKeeps(l: LinuxState, flags: Mask, fd: I32)
    requires LinuxSane(l)
    ensures LinuxFlags(LinuxAdd(l, flags), l.table.nextFd) == flags
    ensures fd in l.table.sockets && fd != l.table.nextFd ==> LinuxFlags(LinuxAdd(l, flags), fd) == LinuxFlags(l, fd)
  {
  }

  /** Adding a socket with the right bit, or one the specification does not follow. */
  lemma LinuxAddRefines(l: LinuxState, a: Abstract, flags: Mask, bits: map<I32, bool>)
    requires LinuxRefines(l, a) && LinuxSane(l)
    requires bits == a.bits[l.table.nextFd := HOST_NONBLOCK_BIT in flags] || bits == a.bits - {l.table.nextFd}
    ensures LinuxRefines(LinuxAdd(l, flags), Abstract(SaturatingNext(a.nextFd), a.open + {a.nextFd}, bits))
  {
    var r := LinuxAdd(l, flags);
    forall fd | fd in bits ensures LinuxGetFl(r, fd) == Ok(FlagsFor(bits[fd])) {
      LinuxAddKeeps(l, flags, fd);
    }
  }

  lemma LinuxStepRefines(l: LinuxState, a: Abstract, op: Op)
    requires LinuxRefines(l, a) && LinuxSane(l)
    ensures LinuxRefines(LinuxStep(l, op), AbstractStep(a, op))
  {
    match op
    case Make(ty, initial, ok) =>
      var t := NormalizeType(ty);
      if t.Ok? && ok {
        LinuxAddRefines(l, a, if t.value.nonblocking then WithMode(initial, true) else initial - {HOST_NONBLOCK_BIT},
                        a.bits[l.table.nextFd := t.value.nonblocking]);
      }
    case Accept(_, initial, _) =>
      LinuxAddRefines(l, a, initial - {HOST_NONBLOCK_BIT}, a.bits - {l.table.nextFd});
    case SetFl(at, arg, ok) =>
      forall fd | fd in a.bits ensures LinuxGetFl(LinuxStep(l, op), fd) == Ok(FlagsFor(AbstractStep(a, op).bits[fd])) {
        SetFlKeepsOtherFlags(l, at, arg, ok, fd);
      }
    case Close(_) =>
  }

  lemma {:induction false} LinuxRefinesAlways(l: LinuxState, a: Abstract, ops: seq<Op>)
    requires LinuxRefines(l, a) && LinuxSane(l)
    ensures LinuxRefines(LinuxRun(l, ops), AbstractRun(a, ops))
    decreases |ops|
  {
    if ops == [] {
    } else {
      LinuxStepRefines(l, a, ops[0]);
      LinuxStepSane(l, ops[0]);
      LinuxRefinesAlways(LinuxStep(l, ops[0]), AbstractStep(a, ops[0]), ops[1..]);
    }
  }

  /**
   After any sequential run of calls, both bridges report the same F_GETFL value for every
   open socket made by `socket`: that of the one abstract bit.
   */
  lemma BridgesAgree(ops: seq<Op>, fd: I32)
    requires fd in AbstractRun(Abstract(GUEST_FD_BASE, {}, map[]), ops).bits
    ensures var a := AbstractRun(Abstract(GUEST_FD_BASE, {}, map[]), ops);
            WindowsGetFl(WindowsRun(WINDOWS_INIT, ops), fd) == LinuxGetFl(LinuxRun(LINUX_INIT, ops), fd) ==
            Ok(if a.bits[fd] then 4 else 0)
  {
    var a := Abstract(GUEST_FD_BASE, {}, map[]);
    WindowsRefinesAlways(WINDOWS_INIT, a, ops);
    LinuxRefinesAlways(LINUX_INIT, a, ops);
  }

  // ---------- what F_GETFL answers, by the calls alone ----------

  const WINDOWS_INIT := WindowsState(EMPTY_TABLE, map[], 0)
  const LINUX_INIT := LinuxState(EMPTY_TABLE, map[], 0)

  /** How many sockets the calls have made. */
  function MadeCount(inherit: bool, ops: seq<Op>): (n: nat)
    decreases |ops|, 1
  {
    if ops == [] then 0
    else
      var init := ops[..|ops| - 1];
      MadeCount(inherit, init) +
      match ops[|ops| - 1]
      case Make(ty, _, ok) => if ok && NormalizeType(ty).Ok? then 1 else 0
      case Accept(fd, _, ok) => if ok && Reported(inherit, init, fd).Some? then 1 else 0
      case _ => 0
  }

  /**
   The non-blocking bit of an open number, by the calls alone: what `socket` asked for, or the
   listener's bit if accepted sockets inherit it, or the last F_SETFL since.
   */
  function Reported(inherit: bool, ops: seq<Op>, fd: I32): (r: Option<bool>)
    decreases |ops|, 0
  {
    if ops == [] then None
    else
      var init := ops[..|ops| - 1];
      match ops[|ops| - 1]
      case Make(ty, _, ok) =>
        if ok && NormalizeType(ty).Ok? && NumberOf(MadeCount(inherit, init)) == fd then Some(11 in ty || 14 in ty)
        else Reported(inherit, init, fd)
      case Accept(listener, _, ok) =>
        var bit := Reported(inherit, init, listener);
        if ok && bit.Some? && NumberOf(MadeCount(inherit, init)) == fd then Some(inherit && bit.value)
        else Reported(inherit, init, fd)
      case SetFl(at, arg, ok) =>
        var bit := Reported(inherit, init, fd);
        if at == fd && ok && bit.Some? then Some(2 in arg) else bit
      case Close(gone) => if gone == fd then None else Reported(inherit, init, fd)
  }

  /** EBADF for a number that is not open, and otherwise 4 or 0. */
  function GetFlOf(bit: Option<bool>): (r: Result<I32>)
  {
    if bit.None? then Err(EBADF) else Ok(if bit.value then 4 else 0)
  }

  lemma {:induction false} WindowsLastStep(w: WindowsState, ops: seq<Op>)
    requires ops != []
    ensures WindowsRun(w, ops) == WindowsStep(WindowsRun(w, ops[..|ops| - 1]), ops[|ops| - 1])
    decreases |ops|
  {
    if |ops| == 1 {
      assert ops[1..] == [] && ops[..0] == [];
    } else {
      WindowsLastStep(WindowsStep(w, ops[0]), ops[1..]);
      assert ops[1..][..|ops| - 2] == ops[..|ops| - 1][1..];
    }
  }

  lemma {:induction false} LinuxLastStep(l: LinuxState, ops: seq<Op>)
    requires ops != []
    ensures LinuxRun(l, ops) == LinuxStep(LinuxRun(l, ops[..|ops| - 1]), ops[|ops| - 1])
    decreases |ops|
  {
    if |ops| == 1 {
      assert ops[1..] == [] && ops[..0] == [];
    } else {
      LinuxLastStep(LinuxStep(l, ops[0]), ops[1..]);
      assert ops[1..][..|ops| - 2] == ops[..|ops| - 1][1..];
    }
  }

  /** On Windows, after every run, F_GETFL answers what the calls say, accepted sockets inheriting. */
  lemma {:induction false} WindowsReflectsCalls(ops: seq<Op>, fd: I32)
    ensures WindowsGetFl(WindowsRun(WINDOWS_INIT, ops), fd) == GetFlOf(Reported(true, ops, fd))
    ensures WindowsRun(WINDOWS_INIT, ops).table.nextFd == NumberOf(MadeCount(true, ops))
    decreases |ops|
  {
    if ops == [] {
    } else {
      var init, last := ops[..|ops| - 1], ops[|ops| - 1];
      WindowsLastStep(WINDOWS_INIT, ops);
      WindowsReflectsCalls(init, fd);
      if last.Accept? {
        WindowsReflectsCalls(init, last.fd);
      }
    }
  }

  lemma {:induction false} LinuxRunSane(ops: seq<Op>)
    ensures LinuxSane(LinuxRun(LINUX_INIT, ops))
    decreases |ops|
  {
    if ops == [] {
    } else {
      LinuxLastStep(LINUX_INIT, ops);
      LinuxRunSane(ops[..|ops| - 1]);
      LinuxStepSane(LinuxRun(LINUX_INIT, ops[..|ops| - 1]), ops[|ops| - 1]);
    }
  }

  /** What one call does to what F_GETFL answers. */
  lemma LinuxStepReports(l: LinuxState, op: Op, fd: I32)
    requires LinuxSane(l)
    ensures var was := LinuxGetFl(l, fd);
            LinuxGetFl(LinuxStep(l, op), fd) ==
            match op
            case Make(ty, _, ok) =>
              if ok && NormalizeType(ty).Ok? && fd == l.table.nextFd then Ok(if NormalizeType(ty).value.nonblocking then 4 else 0)
              else was
            case Accept(listener, _, ok) => if ok && listener in l.table.sockets && fd == l.table.nextFd then Ok(0) else was
            case SetFl(at, arg, ok) => if ok && at == fd && was.Ok? then Ok(if 2 in arg then 4 else 0) else was
            case Close(gone) => if gone == fd then Err(EBADF) else was
  {
    match op
    case Make(ty, initial, _) =>
      LinuxAddKeeps(l, WithMode(initial, true), fd);
      LinuxAddKeeps(l, initial - {HOST_NONBLOCK_BIT}, fd);
    case Accept(_, initial, _) => LinuxAddKeeps(l, initial - {HOST_NONBLOCK_BIT}, fd);
    case SetFl(at, arg, ok) =>
      if fd in l.table.sockets {
        SetFlKeepsOtherFlags(l, at, arg, ok, fd);
      }
    case Close(_) =>
  }

  /** The same on Linux, where accepted sockets start blocking. */
  lemma {:induction false} LinuxReflectsCalls(ops: seq<Op>, fd: I32)
    ensures LinuxGetFl(LinuxRun(LINUX_INIT, ops), fd) == GetFlOf(Reported(false, ops, fd))
    ensures LinuxRun(LINUX_INIT, ops).table.nextFd == NumberOf(MadeCount(false, ops))
    decreases |ops|
  {
    if ops == [] {
    } else {
      var init, last := ops[..|ops| - 1], ops[|ops| - 1];
      var l := LinuxRun(LINUX_INIT, init);
      LinuxLastStep(LINUX_INIT, ops);
      LinuxRunSane(init);
      LinuxReflectsCalls(init, fd);
      LinuxStepReports(l, last, fd);
      if last.Accept? {
        LinuxReflectsCalls(init, last.fd);
      }
    }
  }
}
