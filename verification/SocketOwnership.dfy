/**
 Ownership of raw host sockets over every interleaving of guest threads
 (src/host_sockets.rs, src/host_sockets_windows.rs).

 A raw socket is obtained by `socket` or `accept`, travels through one call, and is then
 inserted in the table or closed; `close` takes it out of the table and closes it; the
 final drop closes what the table still holds. Threads interleave between the steps of a
 call; the table operations are atomic. The table is dropped only when no call holds a
 reference to it.
 */
module SocketOwnership {
  import opened Common
  import opened SocketTable

  type Tid = nat

  datatype Platform = Unix | Windows

  /** What a thread's current call carries between its steps. */
  datatype Call =
    | Made(id: Raw)
    | Accepted(id: Raw, reported: int, buffer: nat)
    | Closing(id: Raw)

  datatype State = State(
    table: Table,
    inserts: nat,
    calls: map<Tid, Call>,
    obtained: nat,
    closes: map<Raw, nat>,
    leaked: set<Raw>,
    dropped: bool)

  const INIT := State(EMPTY_TABLE, 0, map[], 0, map[], {}, false)

  /** The table entry a successful call makes; the raw socket is the call's own. */
  datatype Entry = Entry(guestDomain: I32, hostDomain: I32, statusFlags: I32)

  datatype Event =
    | SocketOk(t: Tid)
    | ConfigureFailed(t: Tid)
    | Configured(t: Tid, entry: Entry)
    | AcceptOk(t: Tid, reported: int, buffer: nat)
    | AcceptDone(t: Tid, addressWritten: bool, lengthWritten: bool, entry: Entry)
    | Remove(t: Tid, fd: I32)
    | CloseRaw(t: Tid)
    | DropTable

  predicate Enabled(s: State, e: Event)
  {
    !s.dropped &&
    match e
    case SocketOk(t) => t !in s.calls
    case ConfigureFailed(t) => t in s.calls && s.calls[t].Made?
    case Configured(t, _) => t in s.calls && s.calls[t].Made?
    case AcceptOk(t, _, _) => t !in s.calls
    case AcceptDone(t, _, _, _) => t in s.calls && s.calls[t].Accepted?
    case Remove(t, _) => t !in s.calls
    case CloseRaw(t) => t in s.calls && s.calls[t].Closing?
    case DropTable => s.calls == map[]
  }

  /** How often a raw socket was passed to the host's close. */
  function CloseCount(s: State, id: Raw): nat { if id in s.closes then s.closes[id] else 0 }

  /** The table entries that refer to a raw socket. */
  function FdsOf(t: Table, id: Raw): set<I32> { set fd | fd in t.sockets && t.sockets[fd].raw == id }

  function RawsIn(t: Table): set<Raw> { set fd | fd in t.sockets :: t.sockets[fd].raw }

  function Begin(s: State, t: Tid, call: Call): State
  {
    s.(calls := s.calls[t := call], obtained := s.obtained + 1)
  }

  /** The call ends by closing its raw socket. */
  function CloseIn(s: State, t: Tid): State
    requires t in s.calls
  {
    s.(calls := s.calls - {t}, closes := s.closes[s.calls[t].id := CloseCount(s, s.calls[t].id) + 1])
  }

  /** The call ends by inserting; an entry still under the saturated number loses its socket. */
  function InsertIn(s: State, t: Tid, entry: Entry): State
    requires t in s.calls
  {
    var socket := HostSocket(s.calls[t].id, entry.guestDomain, entry.hostDomain, entry.statusFlags);
    s.(calls := s.calls - {t},
       inserts := s.inserts + 1,
       table := Inserted(s.table, socket),
       leaked := s.leaked + Overwritten(s))
  }

  function Overwritten(s: State): set<Raw>
  {
    if s.table.nextFd in s.table.sockets then {s.table.sockets[s.table.nextFd].raw} else {}
  }

  /** The call ends in a panic: nobody refers to the socket any more. */
  function LoseIn(s: State, t: Tid): State
    requires t in s.calls
  {
    s.(calls := s.calls - {t}, leaked := s.leaked + {s.calls[t].id})
  }

  /** The kernel reported an address longer than the buffer, or (on Windows) a negative length. */
  predicate BadLength(call: Call)
  {
    call.Accepted? && (call.reported < 0 || call.reported > call.buffer)
  }

  function Apply(os: Platform, s: State, e: Event): (r: State)
    requires Enabled(s, e)
  {
    match e
    case SocketOk(t) => Begin(s, t, Made(s.obtained))
    case ConfigureFailed(t) => CloseIn(s, t)
    case Configured(t, entry) => InsertIn(s, t, entry)
    case AcceptOk(t, reported, buffer) => Begin(s, t, Accepted(s.obtained, reported, buffer))
    case AcceptDone(t, addressWritten, lengthWritten, entry) =>
      // Windows checks the length itself; on Unix slicing the buffer panics.
      if BadLength(s.calls[t]) then (if os.Windows? then CloseIn(s, t) else LoseIn(s, t))
      else if !addressWritten || !lengthWritten then CloseIn(s, t)
      else InsertIn(s, t, entry)
    case Remove(t, fd) =>
      if fd in s.table.sockets then
        s.(table := Removed(s.table, fd), calls := s.calls[t := Closing(s.table.sockets[fd].raw)])
      else s
    case CloseRaw(t) => CloseIn(s, t)
    case DropTable =>
      s.(table := s.table.(sockets := map[]), dropped := true,
         closes := map id | id in s.closes.Keys + RawsIn(s.table) ::
           CloseCount(s, id) + |FdsOf(s.table, id)|)
  }

  predicate Possible(os: Platform, s: State, run: seq<Event>)
    decreases |run|
  {
    run == [] || (Enabled(s, run[0]) && Possible(os, Apply(os, s, run[0]), run[1..]))
  }

  function After(os: Platform, s: State, run: seq<Event>): (r: State)
    requires Possible(os, s, run)
    decreases |run|
  {
    if run == [] then s else After(os, Apply(os, s, run[0]), run[1..])
  }

  // ---------- conservation ----------

  /** The places a raw socket can be. */
  datatype Place = InCall(t: Tid) | InTable(fd: I32) | ClosedOnce | Lost

  predicate At(s: State, id: Raw, p: Place)
  {
    match p
    case InCall(t) => t in s.calls && s.calls[t].id == id
    case InTable(fd) => fd in s.table.sockets && s.table.sockets[fd].raw == id
    case ClosedOnce => CloseCount(s, id) > 0
    case Lost => id in s.leaked
  }

  ghost predicate Somewhere(s: State, id: Raw) { exists p :: At(s, id, p) }

  /** Every socket ever obtained is in exactly one place, and none was closed twice. */
  ghost predicate Conserved(s: State)
  {
    && (forall id: Raw, p :: At(s, id, p) ==> id < s.obtained)
    && (forall id: Raw :: id < s.obtained ==> Somewhere(s, id))
    && (forall id: Raw, p, q :: At(s, id, p) && At(s, id, q) ==> p == q)
    && (forall id: Raw :: id in s.closes ==> s.closes[id] <= 1)
  }

  lemma BeginConserves(s: State, t: Tid, call: Call)
    requires Conserved(s) && t !in s.calls && call.id == s.obtained
    ensures Conserved(Begin(s, t, call))
  {
    var r := Begin(s, t, call);
    forall id: Raw, p: Place ensures At(r, id, p) <==> At(s, id, p) || (id == s.obtained && p == InCall(t)) {
    }
    forall id: Raw | id < r.obtained ensures Somewhere(r, id) {
      if id == s.obtained {
        assert At(r, id, InCall(t));
      } else {
        assert Somewhere(s, id);
        var p :| At(s, id, p);
        assert At(r, id, p);
      }
    }
  }

  /** Moving one socket from a call to another place keeps every socket in one place. */
  lemma MoveConserves(s: State, r: State, moved: Raw, from: Place, to: Place)
    requires Conserved(s) && At(s, moved, from)
    requires r.obtained == s.obtained && forall id: Raw :: id in r.closes ==> r.closes[id] <= 1
    requires At(r, moved, to)
    requires forall id: Raw, p :: At(r, id, p) && p != to ==> At(s, id, p) && p != from
    requires forall id: Raw :: At(r, id, to) && id != moved ==> At(s, id, to)
    requires forall id: Raw, p :: At(s, id, p) && p != from ==> At(r, id, p) || id == moved
    requires forall id: Raw :: At(s, id, from) ==> id == moved
    ensures Conserved(r)
  {
    forall id: Raw | id < r.obtained ensures Somewhere(r, id) {
      if id == moved {
        assert At(r, id, to);
      } else {
        assert Somewhere(s, id);
        var p :| At(s, id, p);
        assert At(r, id, p);
      }
    }
  }

  lemma CloseConserves(s: State, t: Tid)
    requires Conserved(s) && t in s.calls
    ensures Conserved(CloseIn(s, t))
  {
    var id := s.calls[t].id;
    assert At(s, id, InCall(t));
    assert !At(s, id, ClosedOnce);
    MoveConserves(s, CloseIn(s, t), id, InCall(t), ClosedOnce);
  }

  lemma LoseConserves(s: State, t: Tid)
    requires Conserved(s) && t in s.calls
    ensures Conserved(LoseIn(s, t))
  {
    var id := s.calls[t].id;
    assert At(s, id, InCall(t));
    MoveConserves(s, LoseIn(s, t), id, InCall(t), Lost);
  }

  lemma InsertConserves(s: State, t: Tid, entry: Entry)
    requires Conserved(s) && t in s.calls
    ensures Conserved(InsertIn(s, t, entry))
  {
    var id, fd := s.calls[t].id, s.table.nextFd;
    assert At(s, id, InCall(t));
    var mid := s;
    if fd in s.table.sockets {
      var old' := s.table.sockets[fd].raw;
      assert At(s, old', InTable(fd));
      mid := s.(table := Removed(s.table, fd), leaked := s.leaked + {old'});
      MoveConserves(s, mid, old', InTable(fd), Lost);
    }
    assert At(mid, id, InCall(t));
    MoveConserves(mid, InsertIn(s, t, entry), id, InCall(t), InTable(fd));
  }

  lemma RemoveConserves(os: Platform, s: State, t: Tid, fd: I32)
    requires Conserved(s) && Enabled(s, Remove(t, fd))
    ensures Conserved(Apply(os, s, Remove(t, fd)))
  {
    if fd in s.table.sockets {
      var id := s.table.sockets[fd].raw;
      assert At(s, id, InTable(fd));
      MoveConserves(s, Apply(os, s, Remove(t, fd)), id, InTable(fd), InCall(t));
    }
  }

  lemma DropConserves(os: Platform, s: State)
    requires Conserved(s) && Enabled(s, DropTable)
    ensures Conserved(Apply(os, s, DropTable))
  {
    var r := Apply(os, s, DropTable);
    var held := RawsIn(s.table);
    forall id: Raw | id in held
      ensures !At(s, id, ClosedOnce) && !At(s, id, Lost) && id < s.obtained && |FdsOf(s.table, id)| == 1
    {
      var fd :| fd in s.table.sockets && s.table.sockets[fd].raw == id;
      assert At(s, id, InTable(fd));
      forall fd' | fd' in FdsOf(s.table, id) ensures fd' == fd {
        assert At(s, id, InTable(fd'));
      }
      assert FdsOf(s.table, id) == {fd};
    }
    forall id: Raw | id !in held ensures |FdsOf(s.table, id)| == 0 {
      assert FdsOf(s.table, id) == {};
    }
    forall id: Raw ensures CloseCount(r, id) == CloseCount(s, id) + if id in held then 1 else 0 {
    }
    forall id: Raw, p: Place ensures At(r, id, p) <==> (p == ClosedOnce && id in held) || (!p.InTable? && At(s, id, p)) {
    }
    forall id: Raw | id < r.obtained ensures Somewhere(r, id) {
      assert Somewhere(s, id);
      var p :| At(s, id, p);
      if p.InTable? {
        assert id in held;
        assert At(r, id, ClosedOnce);
      } else {
        assert At(r, id, p);
      }
    }
  }

  lemma StepConserves(os: Platform, s: State, e: Event)
    requires Conserved(s) && Enabled(s, e)
    ensures Conserved(Apply(os, s, e))
  {
    match e
    case SocketOk(t) => BeginConserves(s, t, Made(s.obtained));
    case ConfigureFailed(t) => CloseConserves(s, t);
    case Configured(t, entry) => InsertConserves(s, t, entry);
    case AcceptOk(t, reported, buffer) => BeginConserves(s, t, Accepted(s.obtained, reported, buffer));
    case AcceptDone(t, _, _, entry) =>
      CloseConserves(s, t);
      LoseConserves(s, t);
      InsertConserves(s, t, entry);
    case Remove(t, fd) => RemoveConserves(os, s, t, fd);
    case CloseRaw(t) => CloseConserves(s, t);
    case DropTable => DropConserves(os, s);
  }

  lemma {:induction false} RunConserves(os: Platform, s: State, run: seq<Event>)
    requires Conserved(s) && Possible(os, s, run)
    ensures Conserved(After(os, s, run))
    decreases |run|
  {
    if run == [] {
    } else {
      StepConserves(os, s, run[0]);
      RunConserves(os, Apply(os, s, run[0]), run[1..]);
    }
  }

  /** In every run each socket obtained is in one call, in one entry, closed once, or lost. */
  lemma OwnershipConserved(os: Platform, run: seq<Event>)
    requires Possible(os, INIT, run)
    ensures Conserved(After(os, INIT, run))
  {
    RunConserves(os, INIT, run);
  }

  // ---------- when a socket is lost ----------

  predicate Inserts(s: State, e: Event)
  {
    match e
    case Configured(_, _) => true
    case AcceptDone(t, a, l, _) => t in s.calls && !BadLength(s.calls[t]) && a && l
    case _ => false
  }

  /** The two steps that lose a socket. */
  predicate Loses(os: Platform, s: State, e: Event)
  {
    || (os.Unix? && e.AcceptDone? && e.t in s.calls && BadLength(s.calls[e.t]))
    || (Inserts(s, e) && s.table.nextFd in s.table.sockets)
  }

  /** A socket that is closed or lost stays so. */
  lemma {:induction false} SettledForGood(os: Platform, s: State, run: seq<Event>, id: Raw, p: Place)
    requires Possible(os, s, run) && At(s, id, p) && (p == ClosedOnce || p == Lost)
    ensures At(After(os, s, run), id, p)
    decreases |run|
  {
    if run == [] {
    } else {
      SettledForGood(os, Apply(os, s, run[0]), run[1..], id, p);
    }
  }

  /** Nobody removes the number, and the table is not dropped. */
  predicate KeepsNumber(run: seq<Event>, fd: I32)
  {
    forall i :: 0 <= i < |run| ==> run[i] != DropTable && !(run[i].Remove? && run[i].fd == fd)
  }

  lemma {:induction false} EntryStays(os: Platform, s: State, run: seq<Event>, id: Raw, fd: I32)
    requires Possible(os, s, run) && At(s, id, InTable(fd)) && fd < s.table.nextFd && KeepsNumber(run, fd)
    ensures At(After(os, s, run), id, InTable(fd))
    decreases |run|
  {
    if run == [] {
    } else {
      assert run[0] != DropTable && !(run[0].Remove? && run[0].fd == fd);
      EntryStays(os, Apply(os, s, run[0]), run[1..], id, fd);
    }
  }

  /** The ways a call can end. */
  datatype Ending = Handed | Dropped | Panicked

  /**
   Which way, by the step alone: `socket` succeeds or fails to configure; `accept` hands over only
   if the reported length fits the buffer and both write-backs to the guest succeed, and a length
   that does not fit panics on Unix; `close` closes.
   */
  function EndingOf(os: Platform, call: Call, e: Event): (r: Ending)
  {
    match e
    case Configured(_, _) => Handed
    case AcceptDone(_, addressWritten, lengthWritten, _) =>
      if call.Accepted? && 0 <= call.reported <= call.buffer then
        if addressWritten && lengthWritten then Handed else Dropped
      else if os.Unix? then Panicked else Dropped
    case _ => Dropped
  }

  /**
   How a call ends settles its socket for the rest of every run. If it hands a number over, that
   number owns the socket until the guest removes it or the table is dropped (unless it is the
   last number, which later inserts reuse); if it panics, the socket is lost; in every other
   ending it has been closed exactly once.
   */
  lemma EndedCallSettlesSocket(os: Platform, s: State, e: Event, run: seq<Event>)
    requires Conserved(s) && Enabled(s, e) && (e.ConfigureFailed? || e.Configured? || e.AcceptDone? || e.CloseRaw?)
    requires Possible(os, Apply(os, s, e), run)
    ensures var r := After(os, Apply(os, s, e), run); var id := s.calls[e.t].id; var fd := s.table.nextFd;
            match EndingOf(os, s.calls[e.t], e)
            case Handed => fd < I32_MAX && KeepsNumber(run, fd) ==> At(r, id, InTable(fd)) && CloseCount(r, id) == 0
            case Panicked => At(r, id, Lost) && CloseCount(r, id) == 0
            case Dropped => CloseCount(r, id) == 1
    ensures e.t !in Apply(os, s, e).calls
    ensures EndingOf(os, s.calls[e.t], e) == Handed ==>
              var mid, fd := Apply(os, s, e), s.table.nextFd;
              fd in mid.table.sockets &&
              mid.table.sockets[fd] == HostSocket(s.calls[e.t].id, e.entry.guestDomain, e.entry.hostDomain, e.entry.statusFlags)
  {
    var id, fd, mid := s.calls[e.t].id, s.table.nextFd, Apply(os, s, e);
    var r := After(os, mid, run);
    assert At(s, id, InCall(e.t));
    StepConserves(os, s, e);
    RunConserves(os, mid, run);
    match EndingOf(os, s.calls[e.t], e)
    case Handed =>
      assert At(mid, id, InTable(fd));
      if fd < I32_MAX && KeepsNumber(run, fd) {
        EntryStays(os, mid, run, id, fd);
        assert !At(r, id, ClosedOnce);
      }
    case Panicked =>
      SettledForGood(os, mid, run, id, Lost);
      assert !At(r, id, ClosedOnce);
    case Dropped =>
      SettledForGood(os, mid, run, id, ClosedOnce);
      assert At(r, id, ClosedOnce);
  }

  lemma {:induction false} CallWaits(os: Platform, s: State, run: seq<Event>, t: Tid)
    requires Possible(os, s, run) && !s.dropped && t in s.calls && s.calls[t].Closing?
    requires forall i :: 0 <= i < |run| ==> run[i] != CloseRaw(t)
    ensures t in After(os, s, run).calls && After(os, s, run).calls[t] == s.calls[t]
    ensures !After(os, s, run).dropped
    decreases |run|
  {
    if run == [] {
    } else {
      assert run[0] != CloseRaw(t);
      CallWaits(os, Apply(os, s, run[0]), run[1..], t);
    }
  }

  /**
   `close` on an open number: the number is free at once, and when the call gets to the host's
   close, whatever others did meanwhile, that number's socket has been closed exactly once.
   */
  lemma CloseReleasesSocket(os: Platform, s: State, t: Tid, fd: I32, run: seq<Event>)
    requires Conserved(s) && Enabled(s, Remove(t, fd)) && fd in s.table.sockets
    requires Possible(os, Apply(os, s, Remove(t, fd)), run)
    requires forall i :: 0 <= i < |run| ==> run[i] != CloseRaw(t)
    ensures var removed := Apply(os, s, Remove(t, fd)); var ready := After(os, removed, run);
            && fd !in removed.table.sockets
            && (forall other :: other != fd && other in s.table.sockets ==>
                  other in removed.table.sockets && removed.table.sockets[other] == s.table.sockets[other])
            && Enabled(ready, CloseRaw(t))
            && CloseCount(ready, s.table.sockets[fd].raw) == 0
            && CloseCount(Apply(os, ready, CloseRaw(t)), s.table.sockets[fd].raw) == 1
  {
    var removed := Apply(os, s, Remove(t, fd));
    var id := s.table.sockets[fd].raw;
    StepConserves(os, s, Remove(t, fd));
    CallWaits(os, removed, run, t);
    RunConserves(os, removed, run);
    var ready := After(os, removed, run);
    assert At(ready, id, InCall(t)) && !At(ready, id, ClosedOnce);
  }

  /** How many raw sockets the host handed out in a run. */
  function Obtained(run: seq<Event>): (n: nat)
    decreases |run|
  {
    if run == [] then 0 else (if run[0].SocketOk? || run[0].AcceptOk? then 1 else 0) + Obtained(run[1..])
  }

  /** Every socket the host hands out is accounted for, and the table is gone exactly after its drop. */
  lemma {:induction false} CountsFollowEvents(os: Platform, s: State, run: seq<Event>)
    requires Possible(os, s, run)
    ensures After(os, s, run).obtained == s.obtained + Obtained(run)
    ensures After(os, s, run).dropped <==> s.dropped || DropTable in run
    decreases |run|
  {
    if run == [] {
    } else {
      CountsFollowEvents(os, Apply(os, s, run[0]), run[1..]);
      assert run == [run[0]] + run[1..];
    }
  }

  /** Some step of the run loses a socket. */
  predicate SomeStepLoses(os: Platform, s: State, run: seq<Event>)
    requires Possible(os, s, run)
    decreases |run|
  {
    run != [] && (Loses(os, s, run[0]) || SomeStepLoses(os, Apply(os, s, run[0]), run[1..]))
  }

  /** Sockets are lost exactly by those steps. */
  lemma {:induction false} LostIffSomeStepLoses(os: Platform, s: State, run: seq<Event>)
    requires Possible(os, s, run)
    ensures After(os, s, run).leaked != {} <==> s.leaked != {} || SomeStepLoses(os, s, run)
    decreases |run|
  {
    if run == [] {
    } else {
      LostIffSomeStepLoses(os, Apply(os, s, run[0]), run[1..]);
    }
  }

  /** The counter and the numbers in use follow the count of inserts. */
  ghost predicate Numbered(s: State)
  {
    && s.table.nextFd as int == (if s.inserts < FRESH_INSERTS then GUEST_FD_BASE + s.inserts else I32_MAX)
    && forall fd :: fd in s.table.sockets ==> GUEST_FD_BASE <= fd < GUEST_FD_BASE + s.inserts
  }

  lemma {:induction false} RunNumbered(os: Platform, s: State, run: seq<Event>)
    requires Possible(os, s, run) && Numbered(s)
    ensures Numbered(After(os, s, run))
    decreases |run|
  {
    if run == [] {
    } else {
      RunNumbered(os, Apply(os, s, run[0]), run[1..]);
    }
  }

  /** Lengths stay within their buffers wherever nobody checks them. */
  predicate LengthsFit(os: Platform, run: seq<Event>)
  {
    os.Windows? || forall i :: 0 <= i < |run| && run[i].AcceptOk? ==> 0 <= run[i].reported <= run[i].buffer
  }

  /** No call of this state can end in the panic. */
  ghost predicate CallsFit(os: Platform, s: State)
  {
    os.Windows? || forall t :: t in s.calls ==> !BadLength(s.calls[t])
  }

  lemma StepKeepsNumbers(os: Platform, s: State, e: Event)
    requires Enabled(s, e) && Numbered(s) && CallsFit(os, s)
    requires os.Unix? && e.AcceptOk? ==> 0 <= e.reported <= e.buffer
    ensures Numbered(Apply(os, s, e)) && CallsFit(os, Apply(os, s, e))
    ensures Apply(os, s, e).inserts == s.inserts + if Inserts(s, e) then 1 else 0
    ensures Loses(os, s, e) ==> Inserts(s, e) && s.inserts >= FRESH_INSERTS
  {
  }

  lemma {:induction false} NothingLostFrom(os: Platform, s: State, run: seq<Event>)
    requires Possible(os, s, run) && Numbered(s) && LengthsFit(os, run) && CallsFit(os, s)
    requires After(os, s, run).inserts <= FRESH_INSERTS
    ensures !SomeStepLoses(os, s, run)
    decreases |run|
  {
    if run == [] {
    } else {
      StepKeepsNumbers(os, s, run[0]);
      InsertsOnlyGrow(os, Apply(os, s, run[0]), run[1..]);
      NothingLostFrom(os, Apply(os, s, run[0]), run[1..]);
    }
  }

  lemma {:induction false} InsertsOnlyGrow(os: Platform, s: State, run: seq<Event>)
    requires Possible(os, s, run)
    ensures s.inserts <= After(os, s, run).inserts
    decreases |run|
  {
    if run == [] {
    } else {
      InsertsOnlyGrow(os, Apply(os, s, run[0]), run[1..]);
    }
  }

  /**
   With at most 2^31 - 10,000 inserts, and reported lengths that fit their buffers on Unix, no
   socket is ever lost; and once the table is dropped every socket was closed exactly once.
   */
  lemma EverySocketClosedOnce(os: Platform, run: seq<Event>)
    requires Possible(os, INIT, run) && LengthsFit(os, run)
    requires After(os, INIT, run).inserts <= 2_147_473_648
    ensures After(os, INIT, run).leaked == {}
    ensures DropTable in run ==> forall id: Raw :: id < Obtained(run) ==> CloseCount(After(os, INIT, run), id) == 1
  {
    var s := After(os, INIT, run);
    NothingLostFrom(os, INIT, run);
    LostIffSomeStepLoses(os, INIT, run);
    RunConserves(os, INIT, run);
    CountsFollowEvents(os, INIT, run);
    if s.dropped {
      DroppedTableIsEmpty(os, INIT, run);
      forall id: Raw | id < s.obtained ensures CloseCount(s, id) == 1 {
        assert Somewhere(s, id);
        var p :| At(s, id, p);
        assert p == ClosedOnce;
      }
    }
  }

  lemma {:induction false} DroppedTableIsEmpty(os: Platform, s: State, run: seq<Event>)
    requires Possible(os, s, run) && (s.dropped ==> s.table.sockets == map[] && s.calls == map[])
    ensures var r := After(os, s, run); r.dropped ==> r.table.sockets == map[] && r.calls == map[]
    decreases |run|
  {
    if run == [] {
    } else {
      DroppedTableIsEmpty(os, Apply(os, s, run[0]), run[1..]);
    }
  }

  /** The length assumption is needed on Unix: one byte too many and the socket is lost. */
  lemma OversizedAddressLosesSocket(entry: Entry)
    ensures var run := [AcceptOk(0, 17, 16), AcceptDone(0, true, true, entry)];
            Possible(Unix, INIT, run) && After(Unix, INIT, run).leaked == {0} &&
            Possible(Windows, INIT, run) && After(Windows, INIT, run).leaked == {}
  {
    var run := [AcceptOk(0, 17, 16), AcceptDone(0, true, true, entry)];
    assert run[1..] == [run[1]] && run[1..][1..] == [];
    forall os: Platform
      ensures Possible(os, INIT, run)
      ensures After(os, INIT, run).leaked == if os.Windows? then {} else {0}
    {
      var s := Apply(os, INIT, run[0]);
      assert s.calls[0] == Accepted(0, 17, 16);
      var r := Apply(os, s, run[1]);
      assert Possible(os, r, []) && After(os, r, []) == r;
      assert Possible(os, s, run[1..]) && After(os, s, run[1..]) == r;
    }
  }
}
