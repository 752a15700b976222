/**
 Poll event masks between the guest ABI and WinSock (src/host_sockets_windows.rs).

 A mask is the set of its bit positions: `&` is intersection and `|` is union. WinSock's
 constants are not part of the repository; they are parameters, assumed non-empty and
 pairwise without common bits.
 */
module PollEvents {
  type Mask = set<nat>

  const GUEST_IN: Mask := {0}
  const GUEST_PRI: Mask := {1}
  const GUEST_OUT: Mask := {2}
  const GUEST_ERR: Mask := {3}
  const GUEST_HUP: Mask := {4}
  const GUEST_NVAL: Mask := {5}

  datatype HostMasks = HostMasks(input: Mask, pri: Mask, output: Mask, err: Mask, hup: Mask, nval: Mask)

  predicate Disjoint(m: HostMasks)
  {
    && m.input != {} && m.pri != {} && m.output != {}
    && m.input !! m.pri !! m.output !! m.err !! m.hup !! m.nval
  }

  /** One test of the maps: set `to` when some bit of `from` is set. */
  function Bit(events: Mask, from: Mask, to: Mask): Mask
  {
    if events * from != {} then to else {}
  }

  /** `guest_poll_events_to_windows` */
  function ToWindows(m: HostMasks, events: Mask): (r: Mask)
  {
    Bit(events, GUEST_IN, m.input) + Bit(events, GUEST_PRI, m.pri) + Bit(events, GUEST_OUT, m.output)
  }

  /** `windows_poll_events_to_guest` */
  function ToGuest(m: HostMasks, events: Mask): (r: Mask)
  {
    Bit(events, m.input, GUEST_IN) + Bit(events, m.pri, GUEST_PRI) + Bit(events, m.output, GUEST_OUT) +
    Bit(events, m.err, GUEST_ERR) + Bit(events, m.hup, GUEST_HUP) + Bit(events, m.nval, GUEST_NVAL)
  }

  /** Both maps, bit by bit: guest bits 0 to 5 stand for IN, PRI, OUT, ERR, HUP and NVAL. */
  lemma EachBit(m: HostMasks, events: Mask)
    ensures forall b: nat :: b in ToGuest(m, events) <==>
              || (b == 0 && events * m.input != {})
              || (b == 1 && events * m.pri != {})
              || (b == 2 && events * m.output != {})
              || (b == 3 && events * m.err != {})
              || (b == 4 && events * m.hup != {})
              || (b == 5 && events * m.nval != {})
    ensures forall b: nat :: b in ToWindows(m, events) <==>
              || (0 in events && b in m.input)
              || (1 in events && b in m.pri)
              || (2 in events && b in m.output)
  {
    assert events * {0} == if 0 in events then {0} else {};
    assert events * {1} == if 1 in events then {1} else {};
    assert events * {2} == if 2 in events then {2} else {};
  }

  lemma BitOverUnion(a: Mask, b: Mask, from: Mask, to: Mask)
    ensures Bit(a + b, from, to) == Bit(a, from, to) + Bit(b, from, to)
  {
    assert (a + b) * from == a * from + b * from;
  }

  /** A host mask built from some of the requested events tests true for exactly those. */
  lemma TestOfSum(mine: Mask, x: Mask, y: Mask, others: Mask, on: bool)
    requires mine != {} && mine !! (x + y)
    requires others <= x + y
    ensures ((if on then mine else {}) + others) * mine != {} <==> on
  {
    assert ((if on then mine else {}) + others) * mine == if on then mine else {};
  }

  /** There and back keeps exactly the IN, PRI and OUT bits. */
  lemma RoundTrip(m: HostMasks, events: Mask)
    requires Disjoint(m)
    ensures ToGuest(m, ToWindows(m, events)) == events * (GUEST_IN + GUEST_PRI + GUEST_OUT)
  {
    var i, p, o := Bit(events, GUEST_IN, m.input), Bit(events, GUEST_PRI, m.pri), Bit(events, GUEST_OUT, m.output);
    var w := ToWindows(m, events);
    TestOfSum(m.input, m.pri, m.output, p + o, events * GUEST_IN != {});
    TestOfSum(m.pri, m.input, m.output, i + o, events * GUEST_PRI != {});
    TestOfSum(m.output, m.input, m.pri, i + p, events * GUEST_OUT != {});
    assert w == i + (p + o) == p + (i + o) == o + (i + p);
    assert w * m.err == {} && w * m.hup == {} && w * m.nval == {};
    assert events * GUEST_IN == if 0 in events then {0} else {};
    assert events * GUEST_PRI == if 1 in events then {1} else {};
    assert events * GUEST_OUT == if 2 in events then {2} else {};
  }

  /** Both maps distribute over union. */
  lemma Distributes(m: HostMasks, a: Mask, b: Mask)
    ensures ToWindows(m, a + b) == ToWindows(m, a) + ToWindows(m, b)
    ensures ToGuest(m, a + b) == ToGuest(m, a) + ToGuest(m, b)
  {
    forall from, to ensures Bit(a + b, from, to) == Bit(a, from, to) + Bit(b, from, to) {
      BitOverUnion(a, b, from, to);
    }
  }
}
