/** The guest socket table (src/host_sockets.rs); every operation runs under one mutex. */
module SocketTable {
  import opened Common

  const GUEST_FD_BASE: I32 := 10_000
  /** How many inserts get a number of their own before the counter saturates. */
  const FRESH_INSERTS: nat := 0x8000_0000 - 10_000

  /** A raw host socket, told apart from every other one ever obtained. */
  type Raw = nat

  datatype HostSocket = HostSocket(raw: Raw, guestDomain: I32, hostDomain: I32, statusFlags: I32)

  datatype Table = Table(nextFd: I32, sockets: map<I32, HostSocket>)

  const EMPTY_TABLE := Table(GUEST_FD_BASE, map[])

  function Inserted(t: Table, socket: HostSocket): (r: Table)
  {
    Table(SaturatingNext(t.nextFd), t.sockets[t.nextFd := socket])
  }

  function Removed(t: Table, fd: I32): (r: Table)
  {
    t.(sockets := t.sockets - {fd})
  }

  function Flagged(t: Table, fd: I32, flags: I32): (r: Table)
  {
    if fd in t.sockets then t.(sockets := t.sockets[fd := t.sockets[fd].(statusFlags := flags)]) else t
  }

  function Lookup(t: Table, fd: I32): (r: Result<HostSocket>)
  {
    if fd in t.sockets then Ok(t.sockets[fd]) else Err(EBADF)
  }

  class HostSockets {
    var nextFd: I32
    var sockets: map<I32, HostSocket>

    ghost function State(): (t: Table)
      reads this
    {
      Table(nextFd, sockets)
    }

    constructor ()
      ensures State() == EMPTY_TABLE && nextFd == 10_000 && sockets == map[]
    {
      nextFd, sockets := GUEST_FD_BASE, map[];
    }

    method Insert(socket: HostSocket) returns (guestFd: I32)
      modifies this
      ensures State() == Inserted(old(State()), socket)
      ensures guestFd == old(nextFd) && sockets[guestFd] == socket
    {
      guestFd := nextFd;
      nextFd := SaturatingNext(nextFd);
      sockets := sockets[guestFd := socket];
    }

    method Get(guestFd: I32) returns (r: Result<HostSocket>)
      ensures r == Lookup(State(), guestFd)
    {
      r := if guestFd in sockets then Ok(sockets[guestFd]) else Err(EBADF);
    }

    method Remove(guestFd: I32) returns (r: Result<HostSocket>)
      modifies this
      ensures State() == Removed(old(State()), guestFd) && guestFd !in sockets
      ensures r == Lookup(old(State()), guestFd)
    {
      if guestFd in sockets {
        r := Ok(sockets[guestFd]);
        sockets := sockets - {guestFd};
      } else {
        r := Err(EBADF);
      }
    }

    method SetStatusFlags(guestFd: I32, flags: I32) returns (r: Result<()>)
      modifies this
      ensures State() == Flagged(old(State()), guestFd, flags)
      ensures r == if guestFd in old(sockets) then Ok(()) else Err(EBADF)
    {
      if guestFd in sockets {
        sockets := sockets[guestFd := sockets[guestFd].(statusFlags := flags)];
        r := Ok(());
      } else {
        r := Err(EBADF);
      }
    }

    /** `Drop`: every entry is drained and its raw socket closed, once per entry. */
    method Drop() returns (closed: seq<(I32, Raw)>)
      modifies this
      ensures sockets == map[]
      ensures forall i :: 0 <= i < |closed| ==>
                closed[i].0 in old(sockets) && closed[i].1 == old(sockets)[closed[i].0].raw
      ensures forall fd :: fd in old(sockets) ==> exists i :: 0 <= i < |closed| && closed[i].0 == fd
      ensures forall i, j :: 0 <= i < j < |closed| ==> closed[i].0 != closed[j].0
    {
      closed := [];
      while sockets != map[]
        invariant forall fd :: fd in sockets ==> fd in old(sockets) && sockets[fd] == old(sockets)[fd]
        invariant forall i :: 0 <= i < |closed| ==>
                    && closed[i].0 in old(sockets) && closed[i].0 !in sockets
                    && closed[i].1 == old(sockets)[closed[i].0].raw
        invariant forall fd :: fd in old(sockets) && fd !in sockets ==> exists i :: 0 <= i < |closed| && closed[i].0 == fd
        invariant forall i, j :: 0 <= i < j < |closed| ==> closed[i].0 != closed[j].0
        decreases |sockets|
      {
        var fd :| fd in sockets;
        ghost var before := closed;
        closed := closed + [(fd, sockets[fd].raw)];
        assert closed[|before|].0 == fd;
        assert forall i :: 0 <= i < |before| ==> closed[i] == before[i];
        sockets := sockets - {fd};
      }
    }
  }

  // ---------- what a look-up means ----------

  /** The operations on the table, in the order in which they took the mutex. */
  datatype Op = InsertOp(socket: HostSocket) | RemoveOp(fd: I32) | FlagOp(fd: I32, flags: I32)

  function Step(t: Table, op: Op): (r: Table)
  {
    match op
    case InsertOp(socket) => Inserted(t, socket)
    case RemoveOp(fd) => Removed(t, fd)
    case FlagOp(fd, flags) => Flagged(t, fd, flags)
  }

  function TableAfter(ops: seq<Op>): (t: Table)
    decreases |ops|
  {
    if ops == [] then EMPTY_TABLE else Step(TableAfter(ops[..|ops| - 1]), ops[|ops| - 1])
  }

  function InsertCount(ops: seq<Op>): (n: nat)
    decreases |ops|
  {
    if ops == [] then 0 else InsertCount(ops[..|ops| - 1]) + if ops[|ops| - 1].InsertOp? then 1 else 0
  }

  /** The number the k-th insert hands out. */
  function NumberOf(k: nat): (fd: I32)
  {
    if 10_000 + k <= 0x7fff_ffff then 10_000 + k else 0x7fff_ffff
  }

  /**
   What the history says about a number, without a table: the socket of the last insert that was
   handed that number, with the flags last set since, unless it was removed since.
   */
  function Latest(ops: seq<Op>, fd: I32): (r: Result<HostSocket>)
    decreases |ops|
  {
    if ops == [] then Err(EBADF)
    else
      var init := ops[..|ops| - 1];
      match ops[|ops| - 1]
      case InsertOp(socket) => if NumberOf(InsertCount(init)) == fd then Ok(socket) else Latest(init, fd)
      case RemoveOp(gone) => if gone == fd then Err(EBADF) else Latest(init, fd)
      case FlagOp(at, flags) =>
        var was := Latest(init, fd);
        if at == fd && was.Ok? then Ok(was.value.(statusFlags := flags)) else was
  }

  lemma {:induction false} CounterCountsInserts(ops: seq<Op>)
    ensures TableAfter(ops).nextFd == NumberOf(InsertCount(ops))
    decreases |ops|
  {
    if ops == [] {
    } else {
      CounterCountsInserts(ops[..|ops| - 1]);
    }
  }

  /** After every history a look-up answers what that history says, EBADF included. */
  lemma {:induction false} LookupReflectsHistory(ops: seq<Op>, fd: I32)
    ensures Lookup(TableAfter(ops), fd) == Latest(ops, fd)
    decreases |ops|
  {
    if ops == [] {
    } else {
      CounterCountsInserts(ops[..|ops| - 1]);
      LookupReflectsHistory(ops[..|ops| - 1], fd);
    }
  }
}
