/**
 `poll` on Windows from end to end (src/host_sockets_windows.rs): the guest-memory bridge of
 `Poll` with the event maps of `PollEvents`, which speak about the bits of the 16-bit fields.
 */
module PollWindows {
  import opened Bytes
  import opened Numerals
  import opened Poll
  import opened PollEvents

  const WIDTH: nat := 16

  // ---------- numbers and their bits ----------

  function Bits(x: nat): (m: Mask) { set b | 0 <= b < WIDTH && HasBit(x, b) }

  /** The number whose bits from `b` up are those of the mask. */
  function ValueFrom(m: Mask, b: nat): (x: nat)
    requires b <= WIDTH
    decreases WIDTH - b
  {
    if b == WIDTH then 0 else (if b in m then 1 else 0) + 2 * ValueFrom(m, b + 1)
  }

  lemma WidthOfEvents()
    ensures Power(2, WIDTH) == 0x1_0000
  {
    assert Power(2, 8) == 256;
    assert Power(2, 12) == 4096;
  }

  lemma {:induction false} ValueBounded(m: Mask, b: nat)
    requires b <= WIDTH
    ensures ValueFrom(m, b) < Power(2, WIDTH - b)
    decreases WIDTH - b
  {
    if b == WIDTH {
    } else {
      ValueBounded(m, b + 1);
    }
  }

  function Value(m: Mask): (x: Events)
  {
    WidthOfEvents();
    ValueBounded(m, 0);
    ValueFrom(m, 0)
  }

  lemma LowBit(bit: nat, rest: nat)
    requires bit <= 1
    ensures (bit + 2 * rest) % 2 == bit && (bit + 2 * rest) / 2 == rest
  {
  }

  lemma {:induction false} BitOfValueFrom(m: Mask, b: nat, k: nat)
    requires b + k < WIDTH
    ensures HasBit(ValueFrom(m, b), k) <==> b + k in m
    decreases k
  {
    var rest := ValueFrom(m, b + 1);
    LowBit(if b in m then 1 else 0, rest);
    if k == 0 {
    } else {
      BitOfValueFrom(m, b + 1, k - 1);
    }
  }

  /** A mask of 16 bits is read back from its number. */
  lemma BitsOfValue(m: Mask)
    requires forall b :: b in m ==> b < WIDTH
    ensures Bits(Value(m)) == m
  {
    forall b: nat | b < WIDTH ensures HasBit(Value(m), b) <==> b in m {
      BitOfValueFrom(m, 0, b);
    }
  }

  // ---------- the bridge with the real maps ----------

  /** WinSock's masks fit the 16-bit fields. */
  predicate Fits(h: HostMasks)
  {
    forall b :: b in h.input + h.pri + h.output + h.err + h.hup + h.nval ==> b < WIDTH
  }

  function HostEvents(h: HostMasks, e: Events): (r: Events) { Value(ToWindows(h, Bits(e))) }

  function GuestEvents(h: HostMasks, e: Events): (r: Events) { Value(ToGuest(h, Bits(e))) }

  lemma HostEventsBits(h: HostMasks, e: Events)
    requires Fits(h)
    ensures Bits(HostEvents(h, e)) == ToWindows(h, Bits(e))
  {
    var m := ToWindows(h, Bits(e));
    forall b | b in m ensures b < WIDTH {
      assert b in h.input + h.pri + h.output + h.err + h.hup + h.nval;
    }
    BitsOfValue(m);
  }

  lemma GuestEventsBits(h: HostMasks, e: Events)
    ensures Bits(GuestEvents(h, e)) == ToGuest(h, Bits(e))
  {
    var m := ToGuest(h, Bits(e));
    assert m <= {0, 1, 2, 3, 4, 5};
    BitsOfValue(m);
  }

  function WinSock(h: HostMasks): (b: Bridge)
  {
    Windows(e => HostEvents(h, e), e => GuestEvents(h, e))
  }

  /** The host is asked for exactly the host's own masks of the IN, PRI and OUT bits of the entry. */
  lemma AskedEvents(h: HostMasks, e: GuestEntry, t: SocketTable.Table, asked: HostFd)
    requires Fits(h) && e.fd >= 0 && Asks(WinSock(h), e, t, asked)
    ensures asked.target == Socket(t.sockets[e.fd].raw)
    ensures Bits(asked.events) == ToWindows(h, Bits(e.events))
  {
    assert asked.events == HostEvents(h, e.events);
    HostEventsBits(h, e.events);
  }

  /** The two bytes of an entry's revents as the guest reads them. */
  function ReventsAt(memory: seq<Byte>, ptr: nat, i: nat): (r: nat)
    requires ptr + 8 * i + 8 <= |memory|
  {
    memory[ptr + 8 * i + 6] as int + 256 * (memory[ptr + 8 * i + 7] as int)
  }

  /**
   End to end: after the write-back of a call that asked about sockets, the guest reads in each
   entry exactly the guest's names of the host's events for it, and zero in an ignored entry.
   */
  lemma GuestReadsEvents(h: HostMasks, entries: seq<GuestEntry>, revents: nat -> Events, i: nat,
                         others: Others, before: seq<Byte>, ptr: nat)
    requires i < |entries| && ptr + 8 * |entries| <= |before|
    requires NeverShrinks(others) && LeaveAlone(others, ptr + 8 * i + 6) && LeaveAlone(others, ptr + 8 * i + 7)
    ensures var after := AfterWrites(others, before, ptr, |entries|, Reports(WinSock(h), entries, revents));
            Bits(ReventsAt(after, ptr, i)) ==
            if entries[i].fd < 0 then {} else ToGuest(h, Bits(revents(i)))
  {
    var reports := Reports(WinSock(h), entries, revents);
    WritesOnlyRevents(others, before, ptr, |entries|, reports);
    var after := AfterWrites(others, before, ptr, |entries|, reports);
    assert ReventsAt(after, ptr, i) == reports[i] == Report(WinSock(h), entries[i], revents(i));
    if entries[i].fd < 0 {
      ZeroHasNoBits();
    } else {
      GuestEventsBits(h, revents(i));
    }
  }

  lemma ZeroHasNoBits()
    ensures Bits(0) == {}
  {
    assert Value({}) == 0 by {
      EmptyIsZero(0);
    }
    BitsOfValue({});
  }

  lemma {:induction false} EmptyIsZero(b: nat)
    requires b <= WIDTH
    ensures ValueFrom({}, b) == 0
    decreases WIDTH - b
  {
    if b == WIDTH {
    } else {
      EmptyIsZero(b + 1);
    }
  }

  /** What the host may report: events it was asked for, errors, hang-ups and invalid sockets. */
  ghost predicate HonestAnswer(h: HostMasks, asked: Events, answer: Events)
  {
    Bits(answer) <= Bits(asked) + h.err + h.hup + h.nval
  }

  /**
   The whole way there and back: from a host that reports only what it was asked for, besides
   errors, the guest never reads IN, PRI or OUT in an entry that did not ask for it; and if all
   of what was asked for is reported, it reads all of it.
   */
  lemma GuestReadsOnlyWhatItAsked(h: HostMasks, e: GuestEntry, t: SocketTable.Table, asked: HostFd, answer: Events)
    requires Fits(h) && Disjoint(h) && e.fd >= 0 && Asks(WinSock(h), e, t, asked)
    requires HonestAnswer(h, asked.events, answer)
    ensures var read := Bits(Report(WinSock(h), e, answer));
            var requests := GUEST_IN + GUEST_PRI + GUEST_OUT;
            && read * requests <= Bits(e.events)
            && (Bits(asked.events) <= Bits(answer) ==> read * requests == Bits(e.events) * requests)
  {
    AskedEvents(h, e, t, asked);
    GuestEventsBits(h, answer);
    assert Report(WinSock(h), e, answer) == GuestEvents(h, answer);
    AnswerTests(h, Bits(e.events), Bits(answer));
  }

  /** An honest answer passes a host test only if the guest asked for that event. */
  lemma AnswerTests(h: HostMasks, events: Mask, answer: Mask)
    requires Disjoint(h) && answer <= ToWindows(h, events) + h.err + h.hup + h.nval
    ensures var requests := GUEST_IN + GUEST_PRI + GUEST_OUT;
            && ToGuest(h, answer) * requests <= events
            && (ToWindows(h, events) <= answer ==> ToGuest(h, answer) * requests == events * requests)
  {
    assert answer * h.input != {} ==> 0 in events;
    assert answer * h.pri != {} ==> 1 in events;
    assert answer * h.output != {} ==> 2 in events;
  }

  /** End to end, bit by bit: what the guest reads in an entry that asked about a socket. */
  lemma GuestReadsEachBit(h: HostMasks, entries: seq<GuestEntry>, revents: nat -> Events, i: nat,
                          others: Others, before: seq<Byte>, ptr: nat, bit: nat)
    requires i < |entries| && entries[i].fd >= 0 && ptr + 8 * |entries| <= |before| && bit < WIDTH
    requires NeverShrinks(others) && LeaveAlone(others, ptr + 8 * i + 6) && LeaveAlone(others, ptr + 8 * i + 7)
    ensures var after := AfterWrites(others, before, ptr, |entries|, Reports(WinSock(h), entries, revents));
            var host := Bits(revents(i));
            HasBit(ReventsAt(after, ptr, i), bit) <==>
              || (bit == 0 && host * h.input != {})
              || (bit == 1 && host * h.pri != {})
              || (bit == 2 && host * h.output != {})
              || (bit == 3 && host * h.err != {})
              || (bit == 4 && host * h.hup != {})
              || (bit == 5 && host * h.nval != {})
  {
    GuestReadsEvents(h, entries, revents, i, others, before, ptr);
    EachBit(h, Bits(revents(i)));
    var after := AfterWrites(others, before, ptr, |entries|, Reports(WinSock(h), entries, revents));
    assert HasBit(ReventsAt(after, ptr, i), bit) <==> bit in Bits(ReventsAt(after, ptr, i));
  }
}
