/**
 Guest memory access and the `poll` bridge (src/host_sockets.rs, src/host_sockets_windows.rs).

 Guest memory is shared with other threads and may grow but never shrinks. While the host
 call blocks, and between two write-backs, other threads may write it or grow it; what they do
 is a parameter. So is the socket table each look-up finds: the mutex is taken once per entry.
 */
module Poll {
  import opened Common
  import opened Bytes
  import opened SocketTable

  const MAX_IO_LEN: nat := 16 * 1024 * 1024
  const MAX_POLL_FDS: nat := 16_384

  class Memory {
    var data: seq<Byte>

    constructor (bytes: seq<Byte>)
      ensures data == bytes
    {
      data := bytes;
    }
  }

  // ---------- checked access ----------

  function CheckedLen(len: int): (r: Result<nat>)
  {
    if len < 0 || len > MAX_IO_LEN then Err(EINVAL) else Ok(len)
  }

  /** The start of the range, if all of it lies in memory. */
  function CheckedRange(ptr: int, len: int, memoryLen: nat): (r: Result<nat>)
    ensures ptr < 0 ==> r == Err(EFAULT)
    ensures 0 <= ptr && (len < 0 || len > 16_777_216) ==> r == Err(EINVAL)
    ensures 0 <= ptr && 0 <= len <= 16_777_216 && ptr + len > memoryLen ==> r == Err(EFAULT)
    ensures 0 <= ptr && 0 <= len <= 16_777_216 && ptr + len <= memoryLen ==> r == Ok(ptr)
  {
    if ptr < 0 then Err(EFAULT)
    else
      match CheckedLen(len)
      case Err(e) => Err(e)
      case Ok(n) => if ptr + n > memoryLen then Err(EFAULT) else Ok(ptr)
  }

  method ReadGuest(mem: Memory, ptr: int, len: int) returns (r: Result<seq<Byte>>)
    ensures r == match CheckedRange(ptr, len, |mem.data|)
                 case Err(e) => Err(e)
                 case Ok(start) => Ok(mem.data[start..start + len])
  {
    match CheckedRange(ptr, len, |mem.data|)
    case Err(e) => r := Err(e);
    case Ok(start) => r := Ok(mem.data[start..start + len]);
  }

  method WriteGuest(mem: Memory, ptr: int, bytes: seq<Byte>) returns (r: Result<()>)
    modifies mem
    ensures match CheckedRange(ptr, |bytes|, |old(mem.data)|)
            case Err(e) => r == Err(e) && mem.data == old(mem.data)
            case Ok(start) =>
              r == Ok(()) && mem.data == old(mem.data)[..start] + bytes + old(mem.data)[start + |bytes|..]
  {
    match CheckedRange(ptr, |bytes|, |mem.data|)
    case Err(e) => r := Err(e);
    case Ok(start) =>
      mem.data := mem.data[..start] + bytes + mem.data[start + |bytes|..];
      r := Ok(());
  }

  // ---------- the poll array ----------

  /** A 16-bit event mask as its unsigned value. */
  type Events = x: nat | x < 0x1_0000

  datatype GuestEntry = GuestEntry(fd: I32, events: Events)

  function Decode(bytes: seq<Byte>, i: nat): (e: GuestEntry)
    requires 8 * i + 8 <= |bytes|
  {
    Widths();
    GuestEntry(Signed(FromLe(bytes[8 * i..8 * i + 4]), 4), FromLe(bytes[8 * i + 4..8 * i + 6]))
  }

  /** The guest's layout of an entry: the descriptor, the events, the revents. */
  function EncodeEntry(fd: I32, events: Events, revents: Events): (r: seq<Byte>)
  {
    Widths();
    ToLe(Unsigned(fd, 4), 4) + ToLe(events, 2) + ToLe(revents, 2)
  }

  lemma Middle(before: seq<Byte>, entry: seq<Byte>, after: seq<Byte>)
    ensures (before + entry + after)[|before|..|before| + |entry|] == entry
  {
  }

  /** The guest's layout, byte by byte: the descriptor in four bytes, signed, then the events in two. */
  lemma DecodeByteByByte(bytes: seq<Byte>, i: nat)
    requires 8 * i + 8 <= |bytes|
    ensures var at := 8 * i; var e := Decode(bytes, i);
            var low := bytes[at] as int + 256 * (bytes[at + 1] as int) +
                       0x1_0000 * (bytes[at + 2] as int) + 0x100_0000 * (bytes[at + 3] as int);
            && e.fd as int == (if low < 0x8000_0000 then low else low - 0x1_0000_0000)
            && e.events as int == bytes[at + 4] as int + 256 * (bytes[at + 5] as int)
  {
    Widths();
    LeastSignificantFirst(bytes[8 * i..8 * i + 4]);
    LeastSignificantFirst(bytes[8 * i + 4..8 * i + 6]);
  }

  /** Entries are read back from wherever they stand in the array, whatever their revents. */
  lemma DecodeUndoesEncode(before: seq<Byte>, fd: I32, events: Events, revents: Events, after: seq<Byte>)
    requires |before| % 8 == 0
    ensures Decode(before + EncodeEntry(fd, events, revents) + after, |before| / 8) == GuestEntry(fd, events)
  {
    Widths();
    var entry := EncodeEntry(fd, events, revents);
    var bytes, at := before + entry + after, |before|;
    Middle(before, entry, after);
    assert 8 * (at / 8) == at;
    assert bytes[at..at + 4] == bytes[at..at + 8][..4] == ToLe(Unsigned(fd, 4), 4);
    assert bytes[at + 4..at + 6] == bytes[at..at + 8][4..6] == ToLe(events, 2);
    DecodeEncode(Unsigned(fd, 4), 4);
    DecodeEncode(events, 2);
  }

  /** What one entry asks of the host; no socket for an ignored entry on Windows. */
  datatype HostFd = HostFd(target: Target, events: Events)
  datatype Target = Socket(raw: Raw) | Negative(fd: I32) | Invalid

  /** The platform's treatment of ignored entries and its event maps. */
  datatype Bridge = Unix | Windows(toHost: Events -> Events, toGuest: Events -> Events)

  /** The entry names no socket of the table. */
  predicate Unknown(e: GuestEntry, t: Table)
  {
    e.fd >= 0 && e.fd !in t.sockets
  }

  /**
   What the host is asked for an entry. Unix passes on the entry's events, for the socket the
   look-up found or for the negative number itself; Windows asks about no socket for a negative
   number, and otherwise for the mapped events.
   */
  predicate Asks(b: Bridge, e: GuestEntry, t: Table, h: HostFd)
  {
    !Unknown(e, t) &&
    match b
    case Unix => h.events == e.events && h.target == if e.fd < 0 then Negative(e.fd) else Socket(t.sockets[e.fd].raw)
    case Windows(toHost, _) =>
      if e.fd < 0 then h.target == Invalid && h.events == 0
      else h.target == Socket(t.sockets[e.fd].raw) && h.events == toHost(e.events)
  }

  /** What is reported for an entry. */
  function Report(b: Bridge, e: GuestEntry, revents: Events): (r: Events)
  {
    if b.Unix? then revents else if e.fd < 0 then 0 else b.toGuest(revents)
  }

  /** The host's answer: a count and the revents of each entry, or an error. */
  datatype Answer = Failed(errno: int) | Ready(count: nat, revents: nat -> Events)

  /** An `i32` addition that wraps. */
  function Wrap(x: int): (r: I32)
    requires I32_MIN <= x <= 2 * I32_MAX
    ensures x <= 0x7fff_ffff ==> r == x
    ensures x > 0x7fff_ffff ==> r == x - 0x1_0000_0000 && r < 0
  {
    if x <= I32_MAX then x else x - 0x1_0000_0000
  }

  /** The address of an entry's revents stays in the `i32` range. */
  predicate Addressable(ptr: nat, i: nat) { ptr + 8 * i + 6 <= I32_MAX }

  /** How many entries can be written back before an address leaves the `i32` range. */
  function Reachable(ptr: nat, n: nat): (m: nat)
    ensures m <= n
    ensures m == n <==> n == 0 || Addressable(ptr, n - 1)
    ensures forall i: nat :: i < n ==> (i < m <==> Addressable(ptr, i))
  {
    if n == 0 then 0
    else if Addressable(ptr, n - 1) then n
    else Reachable(ptr, n - 1)
  }

  /** Byte `j` is byte 6 or 7 of one of the first `m` entries. */
  predicate IsRevents(ptr: nat, m: nat, j: nat)
  {
    ptr <= j < ptr + 8 * m && (j - ptr) % 8 >= 6
  }

  /** What other threads do to memory after the i-th write-back; memory never shrinks. */
  type Others = (nat, seq<Byte>) -> seq<Byte>

  ghost predicate NeverShrinks(others: Others)
  {
    forall i: nat, m: seq<Byte> :: |m| <= |others(i, m)|
  }

  /** Other threads do not write byte `j`. */
  ghost predicate LeaveAlone(others: Others, j: nat)
  {
    forall i: nat, m: seq<Byte> :: j < |m| ==> j < |others(i, m)| && others(i, m)[j] == m[j]
  }

  function Spliced(m: seq<Byte>, at: nat, v: Events): (r: seq<Byte>)
    requires at + 2 <= |m|
    ensures |r| == |m| && r[at] == v % 256 && r[at + 1] == v / 256
    ensures forall j: nat :: j < |m| && j != at && j != at + 1 ==> r[j] == m[j]
  {
    assert ToLe(v / 256, 1) == [v / 256];
    assert ToLe(v, 2) == [v % 256, v / 256];
    m[..at] + ToLe(v, 2) + m[at + 2..]
  }

  /** Memory after the first `n` write-backs, each followed by whatever other threads do. */
  ghost function AfterWrites(others: Others, before: seq<Byte>, ptr: nat, n: nat, reports: seq<Events>): (r: seq<Byte>)
    requires NeverShrinks(others) && n <= |reports| && ptr + 8 * |reports| <= |before|
    ensures |before| <= |r|
    decreases n
  {
    if n == 0 then before
    else
      others(n - 1, Spliced(AfterWrites(others, before, ptr, n - 1, reports), ptr + 8 * (n - 1) + 6, reports[n - 1]))
  }

  /** Bytes 6 and 7 of the first `n` entries hold their reports, every other byte is as before. */
  ghost predicate WrittenBack(others: Others, after: seq<Byte>, before: seq<Byte>, ptr: nat, n: nat, reports: seq<Events>)
    requires n <= |reports| && ptr + 8 * |reports| <= |before| <= |after|
  {
    && (forall j: nat :: j < |before| && LeaveAlone(others, j) && !IsRevents(ptr, n, j) ==> after[j] == before[j])
    && (forall i: nat :: i < n && LeaveAlone(others, ptr + 8 * i + 6) ==> after[ptr + 8 * i + 6] == reports[i] % 256)
    && (forall i: nat :: i < n && LeaveAlone(others, ptr + 8 * i + 7) ==> after[ptr + 8 * i + 7] == reports[i] / 256)
  }

  /** What byte `j` holds in the end if other threads leave it alone. */
  function Expected(before: seq<Byte>, ptr: nat, n: nat, reports: seq<Events>, j: nat): (v: Byte)
    requires n <= |reports| && j < |before|
  {
    if !IsRevents(ptr, n, j) then before[j]
    else
      var report := reports[(j - ptr) / 8];
      if (j - ptr) % 8 == 6 then report % 256 else report / 256
  }

  /** One more entry changes what is expected of its own bytes 6 and 7 only. */
  lemma ExpectedStep(before: seq<Byte>, ptr: nat, n: nat, reports: seq<Events>, j: nat)
    requires n < |reports| && j < |before|
    ensures Expected(before, ptr, n + 1, reports, j) ==
            if j == ptr + 8 * n + 6 then reports[n] % 256
            else if j == ptr + 8 * n + 7 then reports[n] / 256
            else Expected(before, ptr, n, reports, j)
  {
    if j >= ptr {
      var k := j - ptr;
      assert k == 8 * (k / 8) + k % 8;
    }
  }

  lemma {:induction false} ByteAfterWrites(others: Others, before: seq<Byte>, ptr: nat, n: nat, reports: seq<Events>, j: nat)
    requires NeverShrinks(others) && n <= |reports| && ptr + 8 * |reports| <= |before|
    requires j < |before| && LeaveAlone(others, j)
    ensures AfterWrites(others, before, ptr, n, reports)[j] == Expected(before, ptr, n, reports, j)
    decreases n
  {
    if n == 0 {
    } else {
      ByteAfterWrites(others, before, ptr, n - 1, reports, j);
      ExpectedStep(before, ptr, n - 1, reports, j);
      var wrote := Spliced(AfterWrites(others, before, ptr, n - 1, reports), ptr + 8 * (n - 1) + 6, reports[n - 1]);
      assert others(n - 1, wrote)[j] == wrote[j];
    }
  }

  lemma ExpectedReport(before: seq<Byte>, ptr: nat, n: nat, reports: seq<Events>, i: nat)
    requires i < n <= |reports| && ptr + 8 * n <= |before|
    ensures Expected(before, ptr, n, reports, ptr + 8 * i + 6) == reports[i] % 256
    ensures Expected(before, ptr, n, reports, ptr + 8 * i + 7) == reports[i] / 256
  {
    assert (8 * i + 6) / 8 == i && (8 * i + 6) % 8 == 6 && (8 * i + 7) / 8 == i && (8 * i + 7) % 8 == 7;
    assert ptr + 8 * i + 6 - ptr == 8 * i + 6 && ptr + 8 * i + 7 - ptr == 8 * i + 7;
  }

  /** The write-backs touch exactly bytes 6 and 7 of each entry, whatever other threads do elsewhere. */
  lemma WritesOnlyRevents(others: Others, before: seq<Byte>, ptr: nat, n: nat, reports: seq<Events>)
    requires NeverShrinks(others) && n <= |reports| && ptr + 8 * |reports| <= |before|
    ensures WrittenBack(others, AfterWrites(others, before, ptr, n, reports), before, ptr, n, reports)
  {
    forall j: nat | j < |before| && LeaveAlone(others, j)
      ensures AfterWrites(others, before, ptr, n, reports)[j] == Expected(before, ptr, n, reports, j)
    {
      ByteAfterWrites(others, before, ptr, n, reports, j);
    }
    forall i: nat | i < n
      ensures Expected(before, ptr, n, reports, ptr + 8 * i + 6) == reports[i] % 256
      ensures Expected(before, ptr, n, reports, ptr + 8 * i + 7) == reports[i] / 256
    {
      ExpectedReport(before, ptr, n, reports, i);
    }
  }

  /** Alone, the write-backs change those bytes and nothing else. */
  lemma AloneWritesExactly(others: Others, before: seq<Byte>, ptr: nat, n: nat, reports: seq<Events>)
    requires forall i: nat, m: seq<Byte> :: others(i, m) == m
    requires n <= |reports| && ptr + 8 * |reports| <= |before|
    ensures var after := AfterWrites(others, before, ptr, n, reports);
            && |after| == |before|
            && (forall j: nat :: j < |before| && !IsRevents(ptr, n, j) ==> after[j] == before[j])
            && (forall i: nat :: i < n ==>
                  after[ptr + 8 * i + 6] == reports[i] % 256 && after[ptr + 8 * i + 7] == reports[i] / 256)
  {
    assert NeverShrinks(others);
    assert forall j: nat :: LeaveAlone(others, j);
    WritesOnlyRevents(others, before, ptr, n, reports);
    AloneKeepsLength(others, before, ptr, n, reports);
  }

  lemma {:induction false} AloneKeepsLength(others: Others, before: seq<Byte>, ptr: nat, n: nat, reports: seq<Events>)
    requires NeverShrinks(others) && forall i: nat, m: seq<Byte> :: others(i, m) == m
    requires n <= |reports| && ptr + 8 * |reports| <= |before|
    ensures |AfterWrites(others, before, ptr, n, reports)| == |before|
    decreases n
  {
    if n == 0 {
    } else {
      AloneKeepsLength(others, before, ptr, n - 1, reports);
    }
  }

  /** `poll`, up to the host call: the entries to ask about, or the errno to return. */
  method Prepare(b: Bridge, mem: Memory, tables: nat -> Table, fdsPtr: I32, nfds: I32)
    returns (r: Result<(seq<GuestEntry>, seq<HostFd>)>)
    ensures nfds < 0 || nfds > 16_384 ==> r == Err(EINVAL)
    ensures 0 <= nfds <= 16_384 && (fdsPtr < 0 || fdsPtr + 8 * nfds > |mem.data|) ==> r == Err(EFAULT)
    ensures 0 <= nfds <= 16_384 && 0 <= fdsPtr && fdsPtr + 8 * nfds <= |mem.data| ==>
              var bytes := mem.data[fdsPtr..fdsPtr + 8 * nfds];
              if exists i :: 0 <= i < nfds && Decode(bytes, i).fd >= 0 && Decode(bytes, i).fd !in tables(i).sockets then r == Err(EBADF)
              else
                && r.Ok? && |r.value.0| == |r.value.1| == nfds
                && forall i :: 0 <= i < nfds ==>
                     r.value.0[i] == Decode(bytes, i) && Asks(b, r.value.0[i], tables(i), r.value.1[i])
  {
    if nfds < 0 || nfds > MAX_POLL_FDS {
      return Err(EINVAL);
    }
    var bytes := ReadGuest(mem, fdsPtr, nfds * 8);
    if bytes.Err? {
      return Err(bytes.errno);
    }
    assert bytes.value == mem.data[fdsPtr..fdsPtr + 8 * nfds];
    var entries: seq<GuestEntry> := [];
    var hostFds: seq<HostFd> := [];
    for i := 0 to nfds
      invariant |entries| == |hostFds| == i
      invariant forall j :: 0 <= j < i ==> !Unknown(Decode(bytes.value, j), tables(j))
      invariant forall j :: 0 <= j < i ==>
                  entries[j] == Decode(bytes.value, j) && Asks(b, entries[j], tables(j), hostFds[j])
    {
      var entry := Decode(bytes.value, i);
      entries := entries + [entry];
      if entry.fd < 0 {
        match b
        case Unix => hostFds := hostFds + [HostFd(Negative(entry.fd), entry.events)];
        case Windows(_, _) => hostFds := hostFds + [HostFd(Invalid, 0)];
      } else {
        var socket := Lookup(tables(i), entry.fd);
        if socket.Err? {
          assert Unknown(Decode(bytes.value, i), tables(i));
          return Err(socket.errno);
        }
        match b
        case Unix => hostFds := hostFds + [HostFd(Socket(socket.value.raw), entry.events)];
        case Windows(toHost, _) => hostFds := hostFds + [HostFd(Socket(socket.value.raw), toHost(entry.events))];
      }
    }
    return Ok((entries, hostFds));
  }

  /** One write-back, at the wrapped address sum of the entry's revents. */
  method WriteRevents(mem: Memory, fdsPtr: I32, i: nat, report: Events) returns (r: Result<()>)
    requires 0 <= fdsPtr && i < MAX_POLL_FDS && fdsPtr + 8 * i + 8 <= |mem.data|
    modifies mem
    ensures Addressable(fdsPtr, i) ==>
              var at := fdsPtr + 8 * i + 6;
              r == Ok(()) && mem.data == old(mem.data)[..at] + ToLe(report, 2) + old(mem.data)[at + 2..]
    ensures !Addressable(fdsPtr, i) ==> r == Err(EFAULT) && mem.data == old(mem.data)
  {
    var base: int := Wrap(fdsPtr + i * 8);
    var address := Wrap(base + 6);
    r := WriteGuest(mem, address, ToLe(report, 2));
  }

  /** One more write-back, as `WriteGuest` makes it. */
  lemma WriteStep(others: Others, before: seq<Byte>, ptr: nat, n: nat, reports: seq<Events>)
    requires NeverShrinks(others) && n < |reports| && ptr + 8 * |reports| <= |before|
    ensures var mid, at := AfterWrites(others, before, ptr, n, reports), ptr + 8 * n + 6;
            AfterWrites(others, before, ptr, n + 1, reports) ==
            others(n, mid[..at] + ToLe(reports[n], 2) + mid[at + 2..])
  {
  }

  /** `poll`, after the host call: the write-back loop with its wrapping address sums. */
  method WriteBack(mem: Memory, fdsPtr: I32, reports: seq<Events>, others: Others) returns (r: Result<()>)
    requires 0 <= fdsPtr && |reports| <= MAX_POLL_FDS && fdsPtr + 8 * |reports| <= |mem.data|
    requires NeverShrinks(others)
    modifies mem
    ensures mem.data == AfterWrites(others, old(mem.data), fdsPtr, Reachable(fdsPtr, |reports|), reports)
    ensures r == if Reachable(fdsPtr, |reports|) == |reports| then Ok(()) else Err(EFAULT)
  {
    for i := 0 to |reports|
      invariant i <= Reachable(fdsPtr, |reports|)
      invariant mem.data == AfterWrites(others, old(mem.data), fdsPtr, i, reports)
    {
      assert i < Reachable(fdsPtr, |reports|) <==> Addressable(fdsPtr, i);
      var written := WriteRevents(mem, fdsPtr, i, reports[i]);
      if written.Err? {
        return Err(written.errno);
      }
      WriteStep(others, old(mem.data), fdsPtr, i, reports);
      mem.data := others(i, mem.data);
    }
    return Ok(());
  }

  /**
   `poll`. `meanwhile` is what memory holds when the host call returns. On success exactly
   bytes 6 and 7 of each entry are written, with that entry's report; a bad count, a bad range
   or an unknown descriptor changes nothing.
   */
  method PollCall(b: Bridge, mem: Memory, tables: nat -> Table, fdsPtr: I32, nfds: I32,
                  answer: Answer, meanwhile: seq<Byte>, others: Others)
    returns (rc: int, asked: seq<HostFd>, ghost entries: seq<GuestEntry>)
    requires |mem.data| <= |meanwhile| && NeverShrinks(others)
    modifies mem
    ensures nfds < 0 || nfds > 16_384 ==> rc == -EINVAL && mem.data == old(mem.data)
    ensures 0 <= nfds <= 16_384 && (fdsPtr < 0 || fdsPtr + 8 * nfds > |old(mem.data)|) ==>
              rc == -EFAULT && mem.data == old(mem.data)
    ensures 0 <= nfds <= 16_384 && 0 <= fdsPtr && fdsPtr + 8 * nfds <= |old(mem.data)| ==>
              var bytes := old(mem.data)[fdsPtr..fdsPtr + 8 * nfds];
              if exists i :: 0 <= i < nfds && Decode(bytes, i).fd >= 0 && Decode(bytes, i).fd !in tables(i).sockets then
                rc == -EBADF && mem.data == old(mem.data)
              else
                && |entries| == |asked| == nfds
                && (forall i :: 0 <= i < nfds ==>
                      entries[i] == Decode(bytes, i) && Asks(b, entries[i], tables(i), asked[i]))
                && (b.Unix? ==> forall i :: 0 <= i < nfds ==>
                      && asked[i].events == entries[i].events
                      && (entries[i].fd < 0 ==> asked[i].target == Negative(entries[i].fd))
                      && (entries[i].fd >= 0 ==> asked[i].target == Socket(tables(i).sockets[entries[i].fd].raw)))
                && match answer
                   case Failed(e) => rc == -e && mem.data == meanwhile
                   case Ready(count, revents) =>
                     var reports, n := Reports(b, entries, revents), Reachable(fdsPtr, nfds);
                     && (forall i :: 0 <= i < nfds ==>
                           reports[i] == match b
                                         case Unix => revents(i)
                                         case Windows(_, toGuest) => if entries[i].fd < 0 then 0 else toGuest(revents(i)))
                     && mem.data == AfterWrites(others, meanwhile, fdsPtr, n, reports)
                     && WrittenBack(others, mem.data, meanwhile, fdsPtr, n, reports)
                     && rc == if n == nfds then count else -EFAULT
  {
    asked, entries := [], [];
    var prepared := Prepare(b, mem, tables, fdsPtr, nfds);
    if prepared.Err? {
      return -prepared.errno, [], [];
    }
    var guest := prepared.value.0;
    asked := prepared.value.1;
    entries := guest;
    mem.data := meanwhile;
    match answer
    case Failed(e) => rc := -e;
    case Ready(count, revents) =>
      var reports := Reports(b, guest, revents);
      var done := WriteBack(mem, fdsPtr, reports, others);
      WritesOnlyRevents(others, meanwhile, fdsPtr, Reachable(fdsPtr, nfds), reports);
      rc := if done.Ok? then count else -done.errno;
  }

  function Reports(b: Bridge, entries: seq<GuestEntry>, revents: nat -> Events): (r: seq<Events>)
    ensures |r| == |entries|
    ensures forall i :: 0 <= i < |r| ==> r[i] == Report(b, entries[i], revents(i))
  {
    seq<Events>(|entries|, i requires 0 <= i < |entries| => Report(b, entries[i], revents(i)))
  }

  /** The array's last byte decides whether every entry can be written back. */
  lemma WriteBackCompleteIff(fdsPtr: I32, nfds: nat)
    requires 0 <= fdsPtr
    ensures Reachable(fdsPtr, nfds) == nfds <==> nfds == 0 || fdsPtr + 8 * nfds <= 0x8000_0001
  {
  }

  /** The write-back of an array in memory of this size never fails. */
  ghost predicate NeverFailsIn(memoryLen: nat)
  {
    forall ptr: I32, n: nat :: 0 <= ptr && ptr + 8 * n <= memoryLen ==> Reachable(ptr, n) == n
  }

  /** Once the array lies in memory no write-back can fail, exactly in memories of up to 2^31 + 1 bytes. */
  lemma SmallMemoryNeverFails(memoryLen: nat)
    ensures NeverFailsIn(memoryLen) <==> memoryLen <= 0x8000_0001
  {
    if memoryLen > 0x8000_0001 {
      assert Reachable(I32_MAX - 5, 1) == 0;
    }
  }

  /** The guest is linked with --max-memory=1073741824. */
  const MAX_GUEST_MEMORY: nat := 1_073_741_824

  /** So in the shipped guest every write-back of an array it may pass completes. */
  lemma ShippedGuestNeverFails(memoryLen: nat, fdsPtr: I32, nfds: nat)
    requires memoryLen <= MAX_GUEST_MEMORY && 0 <= fdsPtr && fdsPtr + 8 * nfds <= memoryLen
    ensures Reachable(fdsPtr, nfds) == nfds
  {
    SmallMemoryNeverFails(memoryLen);
  }

  /** On Unix the guest reads in every entry, ignored or not, that entry's own revents. */
  lemma UnixReadsRevents(entries: seq<GuestEntry>, revents: nat -> Events, n: nat, i: nat,
                         others: Others, before: seq<Byte>, ptr: nat)
    requires i < n <= |entries| && ptr + 8 * |entries| <= |before|
    requires NeverShrinks(others) && LeaveAlone(others, ptr + 8 * i + 6) && LeaveAlone(others, ptr + 8 * i + 7)
    ensures var after := AfterWrites(others, before, ptr, n, Reports(Unix, entries, revents));
            after[ptr + 8 * i + 6] == revents(i) % 256 && after[ptr + 8 * i + 7] == revents(i) / 256
  {
    var reports := Reports(Unix, entries, revents);
    assert reports[i] == revents(i);
    WritesOnlyRevents(others, before, ptr, n, reports);
  }

  /** An ignored entry always reads back zero on Windows, unless another thread writes there. */
  lemma IgnoredReadsBackZero(b: Bridge, entries: seq<GuestEntry>, revents: nat -> Events, i: nat,
                             others: Others, before: seq<Byte>, ptr: nat)
    requires b.Windows? && i < |entries| && entries[i].fd < 0 && ptr + 8 * |entries| <= |before|
    requires NeverShrinks(others) && LeaveAlone(others, ptr + 8 * i + 6) && LeaveAlone(others, ptr + 8 * i + 7)
    ensures var after := AfterWrites(others, before, ptr, |entries|, Reports(b, entries, revents));
            after[ptr + 8 * i + 6] == 0 && after[ptr + 8 * i + 7] == 0
  {
    var reports := Reports(b, entries, revents);
    assert reports[i] == 0;
    WritesOnlyRevents(others, before, ptr, |entries|, reports);
  }
}
