/**
 `os_file_get_size` of the guest shim (patch 0001) over the host's `seek` (src/host_files.rs):
 remember the cursor, go to the end, go back. Threads share the cursor of a descriptor and
 interleave between the three seeks; Unix positional reads and writes and truncation do not
 move it but may change the length.
 */
module FileSize {
  import opened Common

  type Query = nat

  datatype Stage = Saved(pos: nat) | Measured(pos: nat, size: nat) | Done(size: nat)

  datatype State = State(length: nat, cursor: nat, queries: map<Query, Stage>)

  datatype Event =
    | SeekCur(q: Query)
    | SeekEnd(q: Query)
    | SeekBack(q: Query)
    | Resize(length: nat)

  predicate Enabled(s: State, e: Event)
  {
    match e
    case SeekCur(q) => q !in s.queries
    case SeekEnd(q) => q in s.queries && s.queries[q].Saved?
    case SeekBack(q) => q in s.queries && s.queries[q].Measured?
    case Resize(_) => true
  }

  function Apply(s: State, e: Event): (r: State)
    requires Enabled(s, e)
  {
    match e
    case SeekCur(q) => s.(queries := s.queries[q := Saved(s.cursor)])
    case SeekEnd(q) => s.(cursor := s.length, queries := s.queries[q := Measured(s.queries[q].pos, s.length)])
    case SeekBack(q) => s.(cursor := s.queries[q].pos, queries := s.queries[q := Done(s.queries[q].size)])
    case Resize(n) => s.(length := n)
  }

  /** A run is possible if each step is enabled in the state the steps before it lead to. */
  predicate Possible(s: State, run: seq<Event>)
    decreases |run|, 0
  {
    run == [] ||
    (Possible(s, run[..|run| - 1]) && Enabled(After(s, run[..|run| - 1]), run[|run| - 1]))
  }

  function After(s: State, run: seq<Event>): (r: State)
    requires Possible(s, run)
    decreases |run|, 1
  {
    if run == [] then s else Apply(After(s, run[..|run| - 1]), run[|run| - 1])
  }

  lemma {:induction false} PrefixPossible(s: State, run: seq<Event>, n: nat)
    requires Possible(s, run) && n <= |run|
    ensures Possible(s, run[..n])
    decreases |run|
  {
    if n == |run| {
      assert run[..n] == run;
    } else {
      var init := run[..|run| - 1];
      PrefixPossible(s, init, n);
      assert init[..n] == run[..n];
    }
  }

  /** The state after the first `n` steps. */
  function StateAt(s: State, run: seq<Event>, n: nat): (r: State)
    requires Possible(s, run) && n <= |run|
  {
    PrefixPossible(s, run, n);
    After(s, run[..n])
  }

  /** Leaving out the last step changes no earlier state. */
  lemma StateAtInit(s: State, run: seq<Event>, n: nat)
    requires Possible(s, run) && n < |run|
    ensures Possible(s, run[..|run| - 1]) && StateAt(s, run, n) == StateAt(s, run[..|run| - 1], n)
  {
    assert run[..|run| - 1][..n] == run[..n];
  }

  /** Every query that has passed its second seek carries the length the file had then. */
  lemma {:induction false} ReturnsLengthAtEnd(s: State, run: seq<Event>, q: Query) returns (i: nat)
    requires Possible(s, run) && (q in s.queries ==> s.queries[q].Saved?)
    requires q in After(s, run).queries && !After(s, run).queries[q].Saved?
    ensures i < |run| && run[i] == SeekEnd(q)
    ensures After(s, run).queries[q].size == StateAt(s, run, i).length
    decreases |run|
  {
    var last := |run| - 1;
    if run[last] == SeekEnd(q) {
      i := last;
    } else {
      i := ReturnsLengthAtEnd(s, run[..last], q);
      StateAtInit(s, run, i);
    }
  }

  /** The length after the last resize of a run. */
  function LastLength(length: nat, run: seq<Event>): (n: nat)
    decreases |run|
  {
    if run == [] then length
    else if run[|run| - 1].Resize? then run[|run| - 1].length
    else LastLength(length, run[..|run| - 1])
  }

  lemma {:induction false} LengthIsLastResize(s: State, run: seq<Event>)
    requires Possible(s, run)
    ensures After(s, run).length == LastLength(s.length, run)
    decreases |run|
  {
    if run == [] {
    } else {
      LengthIsLastResize(s, run[..|run| - 1]);
    }
  }

  /** The last step of a query. */
  function LastOf(run: seq<Event>, q: Query): (e: Option<Event>)
    decreases |run|
  {
    if run == [] then None
    else
      var e := run[|run| - 1];
      if !e.Resize? && e.q == q then Some(e) else LastOf(run[..|run| - 1], q)
  }

  /** A query makes its three seeks in order, once each, and then has finished. */
  lemma {:induction false} StagesFollowSteps(s: State, run: seq<Event>, q: Query)
    requires Possible(s, run) && s.queries == map[]
    ensures var r := After(s, run);
            match LastOf(run, q)
            case None => q !in r.queries && Enabled(r, SeekCur(q))
            case Some(SeekCur(_)) => q in r.queries && r.queries[q].Saved? && Enabled(r, SeekEnd(q))
            case Some(SeekEnd(_)) => q in r.queries && r.queries[q].Measured? && Enabled(r, SeekBack(q))
            case Some(_) => q in r.queries && r.queries[q].Done?
    decreases |run|
  {
    if run == [] {
    } else {
      StagesFollowSteps(s, run[..|run| - 1], q);
    }
  }

  /** So a finished query returns the length the file was last given before its own SEEK_END step. */
  lemma FinishedQueryReturns(s: State, run: seq<Event>, q: Query) returns (i: nat)
    requires Possible(s, run) && s.queries == map[] && LastOf(run, q) == Some(SeekBack(q))
    ensures i < |run| && run[i] == SeekEnd(q)
    ensures q in After(s, run).queries && After(s, run).queries[q] == Done(LastLength(s.length, run[..i]))
  {
    StagesFollowSteps(s, run, q);
    i := ReturnsLengthAtEnd(s, run, q);
    PrefixPossible(s, run, i);
    LengthIsLastResize(s, run[..i]);
  }

  // ---------- where the cursor comes from ----------

  /** All queries have finished. */
  ghost predicate Idle(s: State)
  {
    forall q :: q in s.queries ==> s.queries[q].Done?
  }

  /** The last step at which the query starts. */
  function StartOf(run: seq<Event>, q: Query): (i: nat)
    ensures i < |run| || i == 0
    decreases |run|
  {
    if run == [] then 0
    else if run[|run| - 1] == SeekCur(q) then |run| - 1
    else StartOf(run[..|run| - 1], q)
  }

  /** Where a cursor position was set: before the run, or by the SEEK_END at step `k`. */
  datatype Origin = Home | EndAt(k: nat)

  /**
   The origin of the cursor, read off the order of the steps alone: the last seek decides, and
   a seek back goes to wherever the cursor was when its query started.
   */
  function CursorOrigin(run: seq<Event>): (o: Origin)
    ensures o.EndAt? ==> o.k < |run| && run[o.k].SeekEnd?
    decreases |run|
  {
    if run == [] then Home
    else
      var last := |run| - 1;
      match run[last]
      case SeekEnd(_) => EndAt(last)
      case SeekBack(q) => CursorOrigin(run[..StartOf(run[..last], q)])
      case SeekCur(_) => CursorOrigin(run[..last])
      case Resize(_) => CursorOrigin(run[..last])
  }

  /** The position an origin stands for. */
  function Position(s: State, run: seq<Event>, o: Origin): (p: nat)
    requires Possible(s, run) && (o.EndAt? ==> o.k <= |run|)
  {
    match o
    case Home => s.cursor
    case EndAt(k) => StateAt(s, run, k).length
  }

  /** An unfinished query remembers the cursor of the state in which it started. */
  lemma {:induction false} RemembersStart(s: State, run: seq<Event>, q: Query)
    requires Possible(s, run) && Idle(s)
    requires q in After(s, run).queries && !After(s, run).queries[q].Done?
    ensures StartOf(run, q) < |run| && run[StartOf(run, q)] == SeekCur(q)
    ensures After(s, run).queries[q].pos == StateAt(s, run, StartOf(run, q)).cursor
    decreases |run|
  {
    if run == [] {
      assert false;
    } else if run[|run| - 1] != SeekCur(q) {
      RemembersStart(s, run[..|run| - 1], q);
      StateAtInit(s, run, StartOf(run, q));
    }
  }

  /** The cursor law, for every interleaving: the cursor is at the position of its origin. */
  lemma {:induction false} CursorFollowsOrigin(s: State, run: seq<Event>)
    requires Possible(s, run) && Idle(s)
    ensures After(s, run).cursor == Position(s, run, CursorOrigin(run))
    decreases |run|
  {
    if run == [] {
    } else {
      var last := |run| - 1;
      var init := run[..last];
      match run[last]
      case SeekEnd(_) =>
      case SeekBack(q) =>
        RemembersStart(s, init, q);
        var i := StartOf(init, q);
        PrefixPossible(s, init, i);
        CursorFollowsOrigin(s, init[..i]);
        assert init[..i] == run[..i];
        SamePosition(s, run, i, CursorOrigin(run));
      case _ =>
        CursorFollowsOrigin(s, init);
        SamePosition(s, run, last, CursorOrigin(run));
    }
  }

  lemma SamePosition(s: State, run: seq<Event>, n: nat, o: Origin)
    requires Possible(s, run) && n <= |run| && (o.EndAt? ==> o.k < n)
    ensures Possible(s, run[..n]) && Position(s, run[..n], o) == Position(s, run, o)
  {
    PrefixPossible(s, run, n);
    if o.EndAt? {
      assert run[..n][..o.k] == run[..o.k];
    }
  }

  /**
   The cursor ends where it began exactly when it comes from before the run, or from a SEEK_END
   at which the file ended just there.
   */
  lemma CursorRestoredIff(s: State, run: seq<Event>)
    requires Possible(s, run) && Idle(s)
    ensures After(s, run).cursor == s.cursor <==>
            match CursorOrigin(run)
            case Home => true
            case EndAt(k) => StateAt(s, run, k).length == s.cursor
  {
    CursorFollowsOrigin(s, run);
  }

  /** A query that goes back last leaves the cursor where it was when that query started. */
  lemma {:induction false} LastToGoBackDecides(s: State, run: seq<Event>, q: Query, i: nat, b: nat)
    requires Possible(s, run) && Idle(s)
    requires i < b < |run| && run[i] == SeekCur(q) && run[b] == SeekBack(q)
    requires forall k :: b < k < |run| ==> run[k].SeekCur? || run[k].Resize?
    ensures CursorOrigin(run) == CursorOrigin(run[..i])
    ensures After(s, run).cursor == StateAt(s, run, i).cursor
    decreases |run|
  {
    var last := |run| - 1;
    var init := run[..last];
    if b == last {
      RemembersStart(s, init, q);
      StartsOnce(s, init, q, i);
      StateAtInit(s, run, i);
      assert init[..i] == run[..i];
    } else {
      LastToGoBackDecides(s, init, q, i, b);
      StateAtInit(s, run, i);
      assert init[..i] == run[..i];
    }
  }

  lemma {:induction false} StartsOnce(s: State, run: seq<Event>, q: Query, i: nat)
    requires Possible(s, run) && i < |run| && run[i] == SeekCur(q)
    ensures StartOf(run, q) == i && q in After(s, run).queries
    decreases |run|
  {
    if i == |run| - 1 {
    } else {
      StartsOnce(s, run[..|run| - 1], q, i);
    }
  }

  // ---------- whatever the file ----------

  /** Only the cursor positions differ. */
  ghost predicate SameButCursor(s: State, t: State)
  {
    && s.length == t.length && s.queries.Keys == t.queries.Keys
    && forall q :: q in s.queries ==>
         && s.queries[q].Saved? == t.queries[q].Saved?
         && s.queries[q].Measured? == t.queries[q].Measured?
  }

  /** Which steps are possible, and what lengths they meet, does not depend on the cursor. */
  lemma {:induction false} CursorDoesNotMatter(s: State, t: State, run: seq<Event>)
    requires SameButCursor(s, t) && Possible(s, run)
    ensures Possible(t, run) && SameButCursor(After(s, run), After(t, run))
    decreases |run|
  {
    if run == [] {
    } else {
      CursorDoesNotMatter(s, t, run[..|run| - 1]);
    }
  }

  /** The cursor ends where it began, wherever that was. */
  ghost predicate RestoredFromAnywhere(s: State, run: seq<Event>)
    requires Possible(s, run)
  {
    forall cursor: nat :: Possible(s.(cursor := cursor), run) ==> After(s.(cursor := cursor), run).cursor == cursor
  }

  /** The order of the steps alone restores every cursor exactly when the origin is home. */
  lemma OrderRestoresIff(s: State, run: seq<Event>)
    requires Possible(s, run) && Idle(s)
    ensures RestoredFromAnywhere(s, run) <==> CursorOrigin(run) == Home
  {
    forall cursor: nat
      ensures Possible(s.(cursor := cursor), run)
      ensures After(s.(cursor := cursor), run).cursor == Position(s.(cursor := cursor), run, CursorOrigin(run))
    {
      CursorDoesNotMatter(s, s.(cursor := cursor), run);
      CursorFollowsOrigin(s.(cursor := cursor), run);
    }
    match CursorOrigin(run)
    case Home =>
    case EndAt(k) =>
      var length := StateAt(s, run, k).length;
      var other := s.(cursor := length + 1);
      PrefixPossible(s, run, k);
      CursorDoesNotMatter(s, other, run[..k]);
      assert After(other, run).cursor == length;
  }

  // ---------- which overlaps do no harm ----------

  /** No query is between its second and third seek. */
  ghost predicate Settled(s: State)
  {
    forall q :: q in s.queries ==> !s.queries[q].Measured?
  }

  /** No query of the run starts while another is between its second and third seek. */
  ghost predicate StartsSettled(s: State, run: seq<Event>)
    requires Possible(s, run)
    decreases |run|
  {
    run != [] ==>
      && StartsSettled(s, run[..|run| - 1])
      && (run[|run| - 1].SeekCur? ==> Settled(After(s, run[..|run| - 1])))
  }

  lemma {:induction false} SettledStartsComeFromHome(s: State, run: seq<Event>)
    requires Possible(s, run) && Idle(s) && StartsSettled(s, run)
    ensures Settled(After(s, run)) ==> CursorOrigin(run) == Home
    ensures forall q :: q in After(s, run).queries && !After(s, run).queries[q].Done? ==>
              CursorOrigin(run[..StartOf(run, q)]) == Home
    decreases |run|
  {
    if run == [] {
    } else {
      var last := |run| - 1;
      var init := run[..last];
      var t, r := After(s, init), After(s, run);
      SettledStartsComeFromHome(s, init);
      forall q | q in r.queries && !r.queries[q].Done? ensures CursorOrigin(run[..StartOf(run, q)]) == Home {
        if run[last] != SeekCur(q) {
          assert init[..StartOf(init, q)] == run[..StartOf(run, q)];
        }
      }
      match run[last]
      case SeekEnd(q) => assert r.queries[q].Measured?;
      case SeekBack(q) => assert init[..StartOf(init, q)] == run[..StartOf(init, q)];
      case SeekCur(_) =>
      case Resize(_) => assert r.queries == t.queries;
    }
  }

  /**
   A sufficient condition: no query starts between the second and third seek of another. Then
   the cursor is home again once all queries have finished.
   */
  lemma CursorRestored(s: State, run: seq<Event>)
    requires Possible(s, run) && StartsSettled(s, run)
    requires Idle(s) && Idle(After(s, run))
    ensures CursorOrigin(run) == Home && After(s, run).cursor == s.cursor
  {
    SettledStartsComeFromHome(s, run);
    CursorRestoredIff(s, run);
  }

  lemma Unfold(s: State, run: seq<Event>, e: Event)
    requires Possible(s, run) && Enabled(After(s, run), e)
    ensures Possible(s, run + [e]) && After(s, run + [e]) == Apply(After(s, run), e)
  {
    assert (run + [e])[..|run|] == run;
  }

  /** A query that starts there and goes back last leaves the cursor at the end of the file ... */
  lemma OverlapCanMoveCursor(length: nat, cursor: nat)
    ensures var s := State(length, cursor, map[]);
            var run := [SeekCur(0), SeekEnd(0), SeekCur(1), SeekBack(0), SeekEnd(1), SeekBack(1)];
            Possible(s, run) && After(s, run).cursor == length
  {
    var s := State(length, cursor, map[]);
    var two := AfterTwo(s);
    var four := two + [SeekCur(1)] + [SeekBack(0)];
    Unfold(s, two, SeekCur(1));
    Unfold(s, two + [SeekCur(1)], SeekBack(0));
    Unfold(s, four, SeekEnd(1));
    Unfold(s, four + [SeekEnd(1)], SeekBack(1));
    assert four + [SeekEnd(1)] + [SeekBack(1)] ==
           [SeekCur(0), SeekEnd(0), SeekCur(1), SeekBack(0), SeekEnd(1), SeekBack(1)];
  }

  /** Query 0 has made its first two seeks. */
  lemma AfterTwo(s: State) returns (two: seq<Event>)
    requires s.queries == map[]
    ensures two == [SeekCur(0), SeekEnd(0)] && Possible(s, two)
    ensures After(s, two) == State(s.length, s.length, map[0 := Measured(s.cursor, s.length)])
  {
    Unfold(s, [], SeekCur(0));
    Unfold(s, [] + [SeekCur(0)], SeekEnd(0));
    two := [] + [SeekCur(0)] + [SeekEnd(0)];
  }

  /** ... and one that starts there but goes back first does not. */
  lemma NestedOverlapIsHarmless(length: nat, cursor: nat)
    ensures var s := State(length, cursor, map[]);
            var run := [SeekCur(0), SeekEnd(0), SeekCur(1), SeekEnd(1), SeekBack(1), SeekBack(0)];
            Possible(s, run) && !StartsSettled(s, run) && After(s, run).cursor == cursor
  {
    var s := State(length, cursor, map[]);
    var two := AfterTwo(s);
    var three := two + [SeekCur(1)];
    var five := three + [SeekEnd(1)] + [SeekBack(1)];
    Unfold(s, two, SeekCur(1));
    Unfold(s, three, SeekEnd(1));
    Unfold(s, three + [SeekEnd(1)], SeekBack(1));
    Unfold(s, five, SeekBack(0));
    var run := [SeekCur(0), SeekEnd(0), SeekCur(1), SeekEnd(1), SeekBack(1), SeekBack(0)];
    assert five + [SeekBack(0)] == run;
    assert run[..5][..4][..3] == three && three[..2] == two;
    assert !Settled(After(s, two)) && !StartsSettled(s, three);
  }

  // ---------- one thread at a time ----------

  const SEEK_SET := 0
  const SEEK_CUR := 1
  const SEEK_END := 2

  /** File positions the host can report. */
  type Offset = x: nat | x <= I64_MAX

  class OpenFile {
    var length: Offset
    var cursor: Offset
    /** The descriptor is in the table of open files. */
    var open: bool

    constructor (length: Offset, cursor: Offset)
      ensures this.length == length && this.cursor == cursor && open
    {
      this.length, this.cursor, this.open := length, cursor, true;
    }

    /**
     `seek`: the new position, or a negated errno that leaves the cursor where it was. `fault`
     is an error of the host's own call.
     */
    method Seek(offset: I64, whence: int, fault: Option<int>) returns (rc: int)
      requires fault.Some? ==> fault.value > 0
      modifies this`cursor
      ensures var target := if whence == 0 then offset else if whence == 1 then old(cursor) + offset else length + offset;
              if !open then rc == -EBADF && cursor == old(cursor)
              else if whence !in {0, 1, 2} || (whence == 0 && offset < 0) then rc == -EINVAL && cursor == old(cursor)
              else if fault.Some? then rc == -fault.value && cursor == old(cursor)
              else if 0 <= target <= I64_MAX then cursor == target && rc == target
              else rc == -EINVAL && cursor == old(cursor)
    {
      if !open {
        return -EBADF;
      }
      var target: int;
      if whence == SEEK_SET {
        if offset < 0 {
          return -EINVAL;
        }
        target := offset;
      } else if whence == SEEK_CUR {
        target := cursor + offset;
      } else if whence == SEEK_END {
        target := length + offset;
      } else {
        return -EINVAL;
      }
      if fault.Some? {
        return -fault.value;
      }
      if target < 0 || target > I64_MAX {
        return -EINVAL;
      }
      cursor := target;
      return cursor;
    }

    /** `os_wasi_file_seek`: any error becomes minus one. */
    method GuestSeek(offset: I64, whence: int, fault: Option<int>) returns (r: int)
      requires fault.Some? ==> fault.value > 0
      modifies this`cursor
      ensures var target := if whence == 0 then offset else if whence == 1 then old(cursor) + offset else length + offset;
              if open && fault.None? && whence in {0, 1, 2} && 0 <= target <= I64_MAX
              then cursor == target && r == target
              else cursor == old(cursor) && r == -1
    {
      r := Seek(offset, whence, fault);
      if r < 0 {
        r := -1;
      }
    }

    /**
     `os_file_get_size`: the length, or minus one exactly when the second seek fails. The cursor
     stays at the end of the file exactly when the second seek alone took effect.
     */
    method GetSize(faults: (Option<int>, Option<int>, Option<int>)) returns (size: int)
      requires faults.0.Some? ==> faults.0.value > 0
      requires faults.1.Some? ==> faults.1.value > 0
      requires faults.2.Some? ==> faults.2.value > 0
      modifies this`cursor
      ensures size == if open && faults.1.None? then length else -1
      ensures cursor == if open && faults.1.None? && (faults.0.Some? || faults.2.Some?) then length else old(cursor)
    {
      var pos := GuestSeek(0, SEEK_CUR, faults.0);
      size := GuestSeek(0, SEEK_END, faults.1);
      var _ := GuestSeek(pos, SEEK_SET, faults.2);
    }
  }
}
