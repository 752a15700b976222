/**
 Thread ids handed out by `spawn_wasi_thread` (src/main.rs): an `AtomicI32` that wraps.
 The counter step and the host spawn of a call are separate, so calls interleave.
 */
module ThreadIds {
  import opened Common

  const PERIOD: nat := 0x1_0000_0000

  type Caller = nat

  /** `i32` wrapping addition of one. */
  function WrappingNext(x: I32): (r: I32)
  {
    if x == I32_MAX then I32_MIN else x + 1
  }

  /** A call that holds its counter value; `index` says which increment it made. */
  datatype Pending = Pending(index: nat, id: I32)

  /** A call that has returned: whether the host can start the thread, and the value returned. */
  datatype Finished = Finished(spawned: bool, rc: int)

  /** `replies` records, for each increment whose call has returned, how it ended. */
  datatype State = State(counter: I32, increments: nat, pending: map<Caller, Pending>, replies: map<nat, Finished>)

  const INIT := State(1, 0, map[], map[])

  datatype Event = FetchAdd(c: Caller) | Finish(c: Caller, spawned: bool)

  predicate Enabled(s: State, e: Event)
  {
    match e
    case FetchAdd(c) => c !in s.pending
    case Finish(c, _) => c in s.pending
  }

  /** What a call returns: its id, or the negated EAGAIN for a bad id or a failed spawn. */
  function Reply(id: I32, spawned: bool): (r: int)
  {
    if id <= 0 then -EAGAIN else if spawned then id else -EAGAIN
  }

  function Apply(s: State, e: Event): (r: State)
    requires Enabled(s, e)
  {
    match e
    case FetchAdd(c) =>
      State(WrappingNext(s.counter), s.increments + 1, s.pending[c := Pending(s.increments, s.counter)], s.replies)
    case Finish(c, spawned) =>
      var p := s.pending[c];
      s.(pending := s.pending - {c}, replies := s.replies[p.index := Finished(spawned, Reply(p.id, spawned))])
  }

  predicate Possible(s: State, run: seq<Event>)
    decreases |run|
  {
    run == [] || (Enabled(s, run[0]) && Possible(Apply(s, run[0]), run[1..]))
  }

  function After(s: State, run: seq<Event>): (r: State)
    requires Possible(s, run)
    decreases |run|
  {
    if run == [] then s else After(Apply(s, run[0]), run[1..])
  }

  /** The value the k-th increment sees: 1 + k, read as a 32-bit two's complement number. */
  function IdOf(k: nat): (id: I32)
    ensures k < 0x7fff_ffff ==> id as int == k + 1
    ensures (k + 1 - id) % 0x1_0000_0000 == 0
  {
    var low := (k + 1) % PERIOD;
    if low <= I32_MAX then low else low - PERIOD
  }

  /** The call returned its id exactly if that is positive and the spawn succeeded, and -EAGAIN otherwise. */
  predicate Exact(f: Finished, id: I32)
  {
    && (f.rc > 0 <==> id > 0 && f.spawned)
    && (f.rc > 0 ==> f.rc == id)
    && (f.rc <= 0 ==> f.rc == -EAGAIN)
  }

  ghost predicate Numbered(s: State)
  {
    && s.counter == IdOf(s.increments)
    && (forall c :: c in s.pending ==> s.pending[c].index < s.increments && s.pending[c].id == IdOf(s.pending[c].index))
    && (forall k :: k in s.replies ==> k < s.increments && Exact(s.replies[k], IdOf(k)))
    && (forall c :: c in s.pending ==> s.pending[c].index !in s.replies)
    && (forall c, d :: c in s.pending && d in s.pending && c != d ==> s.pending[c].index != s.pending[d].index)
  }

  lemma CounterFollows(k: nat)
    ensures WrappingNext(IdOf(k)) == IdOf(k + 1)
  {
    var low, turns := (k + 1) % PERIOD, (k + 1) / PERIOD;
    assert k + 1 == PERIOD * turns + low;
    assert (k + 2) % PERIOD == if low == PERIOD - 1 then 0 else low + 1;
  }

  lemma StepNumbered(s: State, e: Event)
    requires Enabled(s, e) && Numbered(s)
    ensures Numbered(Apply(s, e))
  {
    CounterFollows(s.increments);
  }

  lemma {:induction false} RunNumbered(s: State, run: seq<Event>)
    requires Possible(s, run) && Numbered(s)
    ensures Numbered(After(s, run))
    decreases |run|
  {
    if run == [] {
    } else {
      StepNumbered(s, run[0]);
      RunNumbered(Apply(s, run[0]), run[1..]);
    }
  }

  lemma IdsDifferWithinPeriod(j: nat, k: nat)
    requires j < k < j + PERIOD
    ensures IdOf(j) != IdOf(k)
  {
    var a, b := (j + 1) % PERIOD, (k + 1) % PERIOD;
    var qa, qb := (j + 1) / PERIOD, (k + 1) / PERIOD;
    assert j + 1 == PERIOD * qa + a && k + 1 == PERIOD * qb + b;
    assert k - j == PERIOD * (qb - qa) + (b - a);
  }

  /** The period is exact: the id of an increment returns 2^32 increments later. */
  lemma IdsRepeatAfterPeriod(k: nat)
    ensures IdOf(k + PERIOD) == IdOf(k)
  {
    assert (k + 1 + PERIOD) % PERIOD == (k + 1) % PERIOD;
  }

  /**
   Among any 2^32 consecutive increments, successful calls return positive ids that differ
   from each other and from the id of every failed call; every other call returns the negated
   EAGAIN. This holds across the wrap-around, for every interleaving.
   */
  lemma IdsDistinctWithinPeriod(run: seq<Event>, j: nat, k: nat)
    requires Possible(INIT, run)
    requires j < k < j + PERIOD
    requires j in After(INIT, run).replies && k in After(INIT, run).replies
    ensures var replies := After(INIT, run).replies;
            && Exact(replies[j], IdOf(j)) && Exact(replies[k], IdOf(k))
            && (replies[k].rc > 0 ==> replies[k].rc != IdOf(j) && replies[k].rc != replies[j].rc)
            && (replies[j].rc > 0 ==> replies[j].rc != IdOf(k))
  {
    RunNumbered(INIT, run);
    IdsDifferWithinPeriod(j, k);
  }

  lemma {:induction false} CallWaits(s: State, run: seq<Event>, c: Caller)
    requires Possible(s, run) && c in s.pending
    requires forall i :: 0 <= i < |run| ==> !(run[i].Finish? && run[i].c == c)
    ensures c in After(s, run).pending && After(s, run).pending[c] == s.pending[c]
    decreases |run|
  {
    if run == [] {
    } else {
      assert !(run[0].Finish? && run[0].c == c);
      CallWaits(Apply(s, run[0]), run[1..], c);
    }
  }

  lemma {:induction false} RepliesStay(s: State, run: seq<Event>, k: nat)
    requires Possible(s, run) && Numbered(s) && k in s.replies
    ensures k in After(s, run).replies && After(s, run).replies[k] == s.replies[k]
    decreases |run|
  {
    if run == [] {
    } else {
      StepNumbered(s, run[0]);
      RepliesStay(Apply(s, run[0]), run[1..], k);
    }
  }

  /**
   Every call gets its answer: one that made increment `k`, whatever others do before and after
   it returns, has returned exactly 1 + k as a wrapped `i32` if that is positive and the host
   started the thread, and the negated EAGAIN (6) otherwise.
   */
  lemma EveryCallIsAnswered(s: State, c: Caller, meanwhile: seq<Event>, spawned: bool, later: seq<Event>)
    requires Numbered(s) && Enabled(s, FetchAdd(c)) && Possible(Apply(s, FetchAdd(c)), meanwhile)
    requires forall i :: 0 <= i < |meanwhile| ==> !(meanwhile[i].Finish? && meanwhile[i].c == c)
    ensures Enabled(After(Apply(s, FetchAdd(c)), meanwhile), Finish(c, spawned))
    ensures var done := Apply(After(Apply(s, FetchAdd(c)), meanwhile), Finish(c, spawned));
            c !in done.pending &&
            (Possible(done, later) ==>
               && s.increments in After(done, later).replies
               && After(done, later).replies[s.increments].rc as int ==
                  if IdOf(s.increments) > 0 && spawned then IdOf(s.increments) as int else -6)
  {
    var added := Apply(s, FetchAdd(c));
    StepNumbered(s, FetchAdd(c));
    CallWaits(added, meanwhile, c);
    RunNumbered(added, meanwhile);
    var ready := After(added, meanwhile);
    var done := Apply(ready, Finish(c, spawned));
    StepNumbered(ready, Finish(c, spawned));
    if Possible(done, later) {
      RepliesStay(done, later, s.increments);
    }
  }
}
