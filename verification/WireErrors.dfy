/**
 What the benchmark client makes of broken responses (scripts/bench-tcp.py): connections lost
 in the middle, rows that do not decode, rows with too few values.
 */
module WireErrors {
  import opened Common
  import opened Bytes
  import opened WireFormat

  // ---------- connections lost in the middle ----------

  /**
   The decoder's loops over any way of taking packets off a stream. `TakePacket` is one; keeping
   it a parameter keeps the proofs about prefixes free of its bytes.
   */
  type Taker = seq<Byte> -> Outcome<(seq<Byte>, seq<Byte>)>
  type Parser = seq<Byte> -> Outcome<seq<Cell>>

  ghost predicate Shrinks(take: Taker)
  {
    forall s :: take(s).Value? ==> |take(s).value.1| < |s|
  }

  /** What `n` bytes of a stream yield: the same, with less left over, if they reach far enough. */
  function Cut<T>(whole: Outcome<(T, seq<Byte>)>, total: nat, n: nat): (r: Outcome<(T, seq<Byte>)>)
  {
    if whole.Raise? then whole
    else
      var (value, rest) := whole.value;
      if 0 <= n - (total - |rest|) <= |rest| then Value((value, rest[..n - (total - |rest|)])) else Raise(ConnectionClosed)
  }

  ghost predicate Cuttable(take: Taker)
  {
    forall s, n: nat {:trigger take(s[..n])} :: n <= |s| && take(s).Value? ==> take(s[..n]) == Cut(take(s), |s|, n)
  }

  function SkipWith(take: Taker, stream: seq<Byte>, k: nat): (r: Outcome<((), seq<Byte>)>)
    decreases k
  {
    if k == 0 then Value(((), stream))
    else
      match take(stream)
      case Raise(e) => Raise(e)
      case Value((_, rest)) => SkipWith(take, rest, k - 1)
  }

  ghost function RowsWith(take: Taker, parse: Parser, done: seq<seq<Cell>>, stream: seq<Byte>)
    : (r: Outcome<(seq<seq<Cell>>, seq<Byte>)>)
    requires Shrinks(take)
    decreases |stream|
  {
    match take(stream)
    case Raise(e) => Raise(e)
    case Value((payload, rest)) =>
      if payload == [] then Raise(IndexError)
      else if payload[0] == 0xfe && |payload| < 9 then Value((done, rest))
      else
        match parse(payload)
        case Raise(e) => Raise(e)
        case Value(row) => RowsWith(take, parse, done + [row], rest)
  }

  lemma {:induction false} SkipWithShrinks(take: Taker, stream: seq<Byte>, k: nat)
    requires Shrinks(take) && SkipWith(take, stream, k).Value?
    ensures |SkipWith(take, stream, k).value.1| <= |stream|
    decreases k
  {
    if k == 0 {
    } else {
      SkipWithShrinks(take, take(stream).value.1, k - 1);
    }
  }

  lemma {:induction false} RowsWithShrinks(take: Taker, parse: Parser, done: seq<seq<Cell>>, stream: seq<Byte>)
    requires Shrinks(take) && RowsWith(take, parse, done, stream).Value?
    ensures |RowsWith(take, parse, done, stream).value.1| <= |stream|
    decreases |stream|
  {
    var (payload, rest) := take(stream).value;
    if payload[0] == 0xfe && |payload| < 9 {
    } else {
      RowsWithShrinks(take, parse, done + [parse(payload).value], rest);
    }
  }

  lemma {:induction false} SkipWithCut(take: Taker, stream: seq<Byte>, k: nat, n: nat)
    requires Shrinks(take) && Cuttable(take) && SkipWith(take, stream, k).Value? && n <= |stream|
    ensures SkipWith(take, stream[..n], k) == Cut(SkipWith(take, stream, k), |stream|, n)
    decreases k
  {
    if k == 0 {
    } else {
      var rest := take(stream).value.1;
      var first := |stream| - |rest|;
      SkipWithShrinks(take, rest, k - 1);
      assert take(stream[..n]) == Cut(take(stream), |stream|, n);
      if n >= first {
        SkipWithCut(take, rest, k - 1, n - first);
      }
    }
  }

  lemma {:induction false} RowsWithCut(take: Taker, parse: Parser, done: seq<seq<Cell>>, stream: seq<Byte>, n: nat)
    requires Shrinks(take) && Cuttable(take) && RowsWith(take, parse, done, stream).Value? && n <= |stream|
    ensures RowsWith(take, parse, done, stream[..n]) == Cut(RowsWith(take, parse, done, stream), |stream|, n)
    decreases |stream|
  {
    var (payload, rest) := take(stream).value;
    var first := |stream| - |rest|;
    assert take(stream[..n]) == Cut(take(stream), |stream|, n);
    if payload[0] == 0xfe && |payload| < 9 {
    } else {
      RowsWithShrinks(take, parse, done + [parse(payload).value], rest);
      if n >= first {
        RowsWithCut(take, parse, done + [parse(payload).value], rest, n - first);
      }
    }
  }

  /** The rows after the EOF packet that ends the column definitions ... */
  ghost function RowsAfterEof(take: Taker, parse: Parser, stream: seq<Byte>): (r: Outcome<(seq<seq<Cell>>, seq<Byte>)>)
    requires Shrinks(take)
  {
    match SkipWith(take, stream, 1)
    case Raise(e) => Raise(e)
    case Value((_, rest)) => RowsWith(take, parse, [], rest)
  }

  /** ... and after so many of those. */
  ghost function ResultSetWith(take: Taker, parse: Parser, stream: seq<Byte>, columns: nat)
    : (r: Outcome<(seq<seq<Cell>>, seq<Byte>)>)
    requires Shrinks(take)
  {
    match SkipWith(take, stream, columns)
    case Raise(e) => Raise(e)
    case Value((_, rest)) => RowsAfterEof(take, parse, rest)
  }

  lemma RowsAfterEofCut(take: Taker, parse: Parser, stream: seq<Byte>, n: nat)
    requires Shrinks(take) && Cuttable(take) && RowsAfterEof(take, parse, stream).Value? && n <= |stream|
    ensures |RowsAfterEof(take, parse, stream).value.1| <= |stream|
    ensures RowsAfterEof(take, parse, stream[..n]) == Cut(RowsAfterEof(take, parse, stream), |stream|, n)
  {
    var rest := SkipWith(take, stream, 1).value.1;
    SkipWithShrinks(take, stream, 1);
    RowsWithShrinks(take, parse, [], rest);
    SkipWithCut(take, stream, 1, n);
    var i := n - (|stream| - |rest|);
    if i >= 0 {
      RowsWithCut(take, parse, [], rest, i);
    }
  }

  lemma ResultSetWithCut(take: Taker, parse: Parser, stream: seq<Byte>, columns: nat, n: nat)
    requires Shrinks(take) && Cuttable(take) && ResultSetWith(take, parse, stream, columns).Value? && n <= |stream|
    ensures |ResultSetWith(take, parse, stream, columns).value.1| <= |stream|
    ensures ResultSetWith(take, parse, stream[..n], columns) == Cut(ResultSetWith(take, parse, stream, columns), |stream|, n)
  {
    var rest := SkipWith(take, stream, columns).value.1;
    SkipWithShrinks(take, stream, columns);
    SkipWithCut(take, stream, columns, n);
    var i := n - (|stream| - |rest|);
    RowsAfterEofCut(take, parse, rest, if i >= 0 then i else 0);
  }

  /** What the first packet of a response announces: no rows, or so many columns. */
  type Announcer = seq<Byte> -> Outcome<Option<nat>>

  ghost function ResponseWith(take: Taker, announce: Announcer, parse: nat -> Parser, stream: seq<Byte>)
    : (r: Outcome<(seq<seq<Cell>>, seq<Byte>)>)
    requires Shrinks(take)
  {
    match take(stream)
    case Raise(e) => Raise(e)
    case Value((payload, rest)) =>
      match announce(payload)
      case Raise(e) => Raise(e)
      case Value(None) => Value(([], rest))
      case Value(Some(columns)) => ResultSetWith(take, parse(columns), rest, columns)
  }

  lemma ResponseWithCut(take: Taker, announce: Announcer, parse: nat -> Parser, stream: seq<Byte>, n: nat)
    requires Shrinks(take) && Cuttable(take) && ResponseWith(take, announce, parse, stream).Value? && n <= |stream|
    ensures ResponseWith(take, announce, parse, stream[..n]) == Cut(ResponseWith(take, announce, parse, stream), |stream|, n)
  {
    var (payload, rest) := take(stream).value;
    var first := |stream| - |rest|;
    assert take(stream[..n]) == Cut(take(stream), |stream|, n);
    if announce(payload).value.Some? {
      var columns := announce(payload).value.value;
      ResultSetWithCut(take, parse(columns), rest, columns, if n >= first then n - first else 0);
    }
  }

  // ---------- for packets ----------

  lemma TakePacketCuts()
    ensures Shrinks(TakePacket) && Cuttable(TakePacket)
  {
    forall s, n: nat | n <= |s| && TakePacket(s).Value? ensures TakePacket(s[..n]) == Cut(TakePacket(s), |s|, n) {
      PacketCut(s, n);
    }
  }

  /** The first `n` bytes of a stream hold its first packet whole, or no packet at all. */
  lemma PacketCut(stream: seq<Byte>, n: nat)
    requires TakePacket(stream).Value? && n <= |stream|
    ensures TakePacket(stream[..n]) == Cut(TakePacket(stream), |stream|, n)
  {
    var (payload, rest) := TakePacket(stream).value;
    var used := |stream| - |rest|;
    if n >= 4 {
      assert stream[..n][..3] == stream[..3];
    }
    if n >= used {
      assert stream[..n][4..used] == payload;
      assert stream[..n][used..] == rest[..n - used];
    }
  }

  lemma {:induction false} SkipIsSkipWith(stream: seq<Byte>, k: nat)
    ensures SkipPackets(stream, k) ==
            match SkipWith(TakePacket, stream, k) case Raise(e) => Raise(e) case Value((_, rest)) => Value(rest)
    decreases k
  {
    if k > 0 && TakePacket(stream).Value? {
      SkipIsSkipWith(TakePacket(stream).value.1, k - 1);
    }
  }

  lemma {:induction false} RowsIsRowsWith(isText: seq<Byte> -> bool, done: seq<seq<Cell>>, stream: seq<Byte>, columns: nat)
    requires Shrinks(TakePacket)
    ensures TakeRows(isText, done, stream, columns) ==
            RowsWith(TakePacket, RowParser(isText, columns), done, stream)
    decreases |stream|
  {
    if TakePacket(stream).Value? {
      var (payload, rest) := TakePacket(stream).value;
      if payload != [] && !(payload[0] == 0xfe && |payload| < 9) && ParseRow(isText, payload, columns).Value? {
        RowsIsRowsWith(isText, done + [ParseRow(isText, payload, columns).value], rest, columns);
      }
    }
  }

  function Announced(payload: seq<Byte>): (r: Outcome<Option<nat>>)
  {
    if payload == [] then Raise(IndexError)
    else if payload[0] == 0x00 then Value(None)
    else if payload[0] == 0xff then Raise(ErrorOf(payload))
    else
      match ReadLenEnc(payload, 0)
      case Raise(e) => Raise(e)
      case Value((None, _)) => Raise(TypeError)
      case Value((Some(columns), _)) => Value(Some(columns))
  }

  function RowParser(isText: seq<Byte> -> bool, columns: nat): (p: Parser)
  {
    (payload: seq<Byte>) => ParseRow(isText, payload, columns)
  }

  lemma ResultSetIsWith(isText: seq<Byte> -> bool, stream: seq<Byte>, columns: nat)
    requires Shrinks(TakePacket)
    ensures TakeResultSet(isText, stream, columns) == ResultSetWith(TakePacket, RowParser(isText, columns), stream, columns)
  {
    SkipIsSkipWith(stream, columns);
    if SkipPackets(stream, columns).Value? {
      var a := SkipPackets(stream, columns).value;
      SkipIsSkipWith(a, 1);
      if SkipPackets(a, 1).Value? {
        RowsIsRowsWith(isText, [], SkipPackets(a, 1).value, columns);
      }
    }
  }

  lemma ResponseIsWith(isText: seq<Byte> -> bool, stream: seq<Byte>)
    requires Shrinks(TakePacket)
    ensures TakeResponse(isText, stream) ==
            ResponseWith(TakePacket, Announced, Parsers(isText), stream)
  {
    if TakePacket(stream).Value? {
      var (payload, rest) := TakePacket(stream).value;
      if Announced(payload).Value? && Announced(payload).value.Some? {
        ResultSetIsWith(isText, rest, Announced(payload).value.value);
      }
    }
  }

  /** A decoder that is such a composition is cut like one. */
  lemma RespondCut(take: Taker, announce: Announcer, parse: nat -> Parser,
                   respond: seq<Byte> -> Outcome<(seq<seq<Cell>>, seq<Byte>)>, stream: seq<Byte>, n: nat)
    requires Shrinks(take) && Cuttable(take) && respond(stream).Value? && n <= |stream|
    requires respond(stream) == ResponseWith(take, announce, parse, stream)
    requires respond(stream[..n]) == ResponseWith(take, announce, parse, stream[..n])
    ensures respond(stream[..n]) == Cut(respond(stream), |stream|, n)
  {
    ResponseWithCut(take, announce, parse, stream, n);
  }

  /**
   A connection lost in the middle, for every response that would have been read: with `n` bytes
   of the stream the client returns the same rows if those reach the end of the response, and
   raises "connection closed" otherwise; it never returns part of a result set.
   */
  lemma CutOff(isText: seq<Byte> -> bool, stream: seq<Byte>, n: nat)
    requires TakeResponse(isText, stream).Value? && n <= |stream|
    ensures var (rows, rest) := TakeResponse(isText, stream).value; var used := |stream| - |rest|;
            TakeResponse(isText, stream[..n]) ==
            if n >= used then Value((rows, rest[..n - used])) else Raise(ConnectionClosed)
  {
    ResponderCut(isText, Responder(isText), stream, stream[..n], n);
  }

  lemma ResponderCut(isText: seq<Byte> -> bool, respond: seq<Byte> -> Outcome<(seq<seq<Cell>>, seq<Byte>)>,
                     stream: seq<Byte>, part: seq<Byte>, n: nat)
    requires respond == Responder(isText) && respond(stream).Value? && n <= |stream| && part == stream[..n]
    ensures respond(part) == Cut(respond(stream), |stream|, n)
  {
    TakePacketCuts();
    ResponderIsWith(isText, stream);
    ResponderIsWith(isText, part);
    RespondCut(TakePacket, Announced, Parsers(isText), respond, stream, n);
  }

  function Parsers(isText: seq<Byte> -> bool): (r: nat -> Parser)
  {
    (columns: nat) => RowParser(isText, columns)
  }

  function Responder(isText: seq<Byte> -> bool): (r: seq<Byte> -> Outcome<(seq<seq<Cell>>, seq<Byte>)>)
    ensures forall s :: r(s) == TakeResponse(isText, s)
  {
    (s: seq<Byte>) => TakeResponse(isText, s)
  }

  lemma ResponderIsWith(isText: seq<Byte> -> bool, stream: seq<Byte>)
    requires Shrinks(TakePacket)
    ensures Responder(isText)(stream) == ResponseWith(TakePacket, Announced, Parsers(isText), stream)
  {
    ResponseIsWith(isText, stream);
  }

  /** In particular a connection lost anywhere in a well-formed result set. */
  lemma CutOffAnywhere(isText: seq<Byte> -> bool, t: ResultSet, n: nat)
    requires WellFormed(isText, t) && n < |EncodeResult(t)|
    ensures TakeResponse(isText, EncodeResult(t)[..n]) == Raise(ConnectionClosed)
  {
    ResultSetRoundTrip(isText, t, []);
    var stream := EncodeResult(t);
    assert stream + [] == stream;
    CutOff(isText, stream, n);
  }

  // ---------- rows that cannot be read ----------

  /** Cells are read until one raises. */
  lemma {:induction false} ReadsUntil(read: nat -> Outcome<(Cell, nat)>, done: seq<Cell>, starts: seq<nat>, row: seq<Cell>,
                                      columns: nat, e: Error)
    requires |starts| == |row| + 1 && |row| < columns
    requires forall i :: 0 <= i < |row| ==> read(starts[i]) == Value((row[i], starts[i + 1]))
    requires read(starts[|row|]) == Raise(e)
    ensures ReadCells(read, done, starts[0], columns) == Raise(e)
    decreases |row|
  {
    if row == [] {
    } else {
      ReadsUntil(read, done + [row[0]], starts[1..], row[1..], columns - 1, e);
    }
  }

  /** The value at `j` stands for text that does not decode; those before it do. */
  predicate FirstUndecodable(isText: seq<Byte> -> bool, row: seq<Cell>, j: nat)
  {
    && j < |row| && row[j].Text? && !isText(row[j].bytes)
    && forall i :: 0 <= i < j && row[i].Text? ==> isText(row[i].bytes)
  }

  lemma UndecodableAt(isText: seq<Byte> -> bool, before: seq<Byte>, bytes: seq<Byte>, after: seq<Byte>)
    requires !isText(bytes) && |bytes| < Pow256(8)
    ensures ReadCell(isText, before + EncodeCell(Text(bytes)) + after, |before|) == Raise(DecodeError)
  {
    var e := LenEnc(|bytes|);
    assert before + (e + bytes) + after == before + e + (bytes + after) == (before + e) + bytes + after;
    LenEncRoundTrip(before, |bytes|, bytes + after);
    SliceMiddle(before + e, bytes, after);
  }

  lemma OneReadsBack(isText: seq<Byte> -> bool, row: seq<Cell>, good: seq<Cell>, i: nat)
    requires good <= row && i < |good| && |EncodeRow(row)| < Pow256(8)
    requires row[i].Text? ==> isText(row[i].bytes)
    ensures ReadCell(isText, EncodeRow(row), |EncodeRow(good[..i])|) == Value((row[i], |EncodeRow(good[..i + 1])|))
  {
    CellReadsBack(isText, row, i);
    assert good[..i] == row[..i] && good[..i + 1] == row[..i + 1];
  }

  /** The first `j` values read back. */
  lemma PrefixReadsBack(isText: seq<Byte> -> bool, row: seq<Cell>, j: nat)
    requires j <= |row| && |EncodeRow(row)| < Pow256(8)
    requires forall k :: 0 <= k < j && row[k].Text? ==> isText(row[k].bytes)
    ensures forall i :: 0 <= i < j ==>
              Reader(isText, EncodeRow(row))(Starts(row[..j])[i]) == Value((row[i], Starts(row[..j])[i + 1]))
  {
    forall i | 0 <= i < j
      ensures Reader(isText, EncodeRow(row))(Starts(row[..j])[i]) == Value((row[i], Starts(row[..j])[i + 1]))
    {
      OneReadsBack(isText, row, row[..j], i);
    }
  }

  /** If the read after the first `j` values raises, so does the row. */
  lemma RaisesAfter(isText: seq<Byte> -> bool, row: seq<Cell>, columns: nat, j: nat, e: Error)
    requires |EncodeRow(row)| < Pow256(8) && j < columns && j <= |row|
    requires forall k :: 0 <= k < j && row[k].Text? ==> isText(row[k].bytes)
    requires ReadCell(isText, EncodeRow(row), |EncodeRow(row[..j])|) == Raise(e)
    ensures ParseRow(isText, EncodeRow(row), columns) == Raise(e)
  {
    var good := row[..j];
    PrefixReadsBack(isText, row, j);
    assert good[..j] == good && good[..0] == [];
    ReadsUntil(Reader(isText, EncodeRow(row)), [], Starts(good), good, columns, e);
  }

  lemma UndecodableRow(isText: seq<Byte> -> bool, row: seq<Cell>, columns: nat, j: nat)
    requires |EncodeRow(row)| < Pow256(8) && j < columns && FirstUndecodable(isText, row, j)
    ensures ParseRow(isText, EncodeRow(row), columns) == Raise(DecodeError)
  {
    var after := CellInRow(row, j);
    UndecodableAt(isText, EncodeRow(row[..j]), row[j].bytes, after);
    RaisesAfter(isText, row, columns, j, DecodeError);
  }

  lemma ShortRow(isText: seq<Byte> -> bool, row: seq<Cell>, columns: nat)
    requires |EncodeRow(row)| < Pow256(8) && |row| < columns
    requires forall i :: 0 <= i < |row| && row[i].Text? ==> isText(row[i].bytes)
    ensures ParseRow(isText, EncodeRow(row), columns) == Raise(IndexError)
  {
    assert row[..|row|] == row;
    RaisesAfter(isText, row, columns, |row|, IndexError);
  }

  /** A row with text that does not decode raises, and so does one with too few values. */
  lemma BadRowParses(isText: seq<Byte> -> bool, row: seq<Cell>, columns: nat, j: nat)
    requires OnePacket(EncodeRow(row)) && j < columns && j <= |row|
    requires FirstUndecodable(isText, row, j) ||
             (j == |row| && forall i :: 0 <= i < j && row[i].Text? ==> isText(row[i].bytes))
    ensures ParseRow(isText, EncodeRow(row), columns) == Raise(if j < |row| then DecodeError else IndexError)
  {
    Widths();
    if j < |row| {
      UndecodableRow(isText, row, columns, j);
    } else {
      ShortRow(isText, row, columns);
    }
  }

  /**
   The whole response: after any number of good rows, the first row that does not decode, or has
   too few values, raises, whatever follows it; no rows are returned.
   */
  lemma BadRowRaises(isText: seq<Byte> -> bool, t: ResultSet, id: Byte, row: seq<Cell>, j: nat, more: seq<Byte>)
    requires WellFormed(isText, t) && row != [] && OnePacket(EncodeRow(row)) && j < |t.columns| && j <= |row|
    requires FirstUndecodable(isText, row, j) ||
             (j == |row| && forall i :: 0 <= i < j && row[i].Text? ==> isText(row[i].bytes))
    ensures var rows := Frames(RowFrames(t.rowIds, t.rows)) + (Packet(id, EncodeRow(row)) + more);
            TakeResponse(isText, Packet(t.countId, LenEnc(|t.columns|)) +
                                 (Frames(t.columns) + (Packet(t.eof.id, t.eof.payload) + rows))) ==
            Raise(if j < |row| then DecodeError else IndexError)
  {
    var bad := Packet(id, EncodeRow(row)) + more;
    TakeHead(isText, t.countId, t.columns, t.eof, Frames(RowFrames(t.rowIds, t.rows)) + bad);
    RowsThen(isText, [], t.rowIds, t.rows, |t.columns|, bad);
    PacketRoundTrip(id, EncodeRow(row), more);
    RowIsNotEof(row);
    BadRowParses(isText, row, |t.columns|, j);
  }
}
