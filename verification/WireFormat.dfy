/**
 The MySQL text protocol as the benchmark client reads it (scripts/bench-tcp.py), after the
 pages "Packets", "Length-Encoded Integer" and "Text Resultset" of the MySQL Client/Server
 Protocol. Python exceptions are outcomes.
 */
module WireFormat {
  import opened Common
  import opened Bytes

  datatype Error =
    | ConnectionClosed
    | IndexError
    | StructError
    | TypeError
    | DecodeError
    | ServerError(code: nat, message: seq<Byte>)

  datatype Outcome<+T> = Value(value: T) | Raise(error: Error)

  /** A column value as the bytes of its text. */
  datatype Cell = Null | Text(bytes: seq<Byte>)

  // ---------- the server's side: encodings ----------

  function LenEnc(n: nat): (r: seq<Byte>)
  {
    if n < 0xfb then [n]
    else if n < 0x1_0000 then [0xfc] + ToLe(n, 2)
    else if n < 0x100_0000 then [0xfd] + ToLe(n, 3)
    else [0xfe] + ToLe(n, 8)
  }

  function EncodeCell(c: Cell): (r: seq<Byte>)
  {
    match c
    case Null => [0xfb]
    case Text(bytes) => LenEnc(|bytes|) + bytes
  }

  function EncodeRow(row: seq<Cell>): (r: seq<Byte>)
  {
    if row == [] then [] else EncodeRow(row[..|row| - 1]) + EncodeCell(row[|row| - 1])
  }

  /** Three bytes of length, one of sequence number, the payload. */
  function Packet(id: Byte, payload: seq<Byte>): (r: seq<Byte>)
  {
    ToLe(|payload|, 3) + [id] + payload
  }

  // ---------- the client's side: decoders ----------

  /** `read_lenenc`: the value, or nothing for NULL, and the next position. */
  function ReadLenEnc(payload: seq<Byte>, pos: nat): (r: Outcome<(Option<nat>, nat)>)
    ensures r.Value? ==> pos < r.value.1 <= |payload|
  {
    if pos >= |payload| then Raise(IndexError)
    else
      var first, p, left := payload[pos], pos + 1, |payload| - pos - 1;
      if first < 0xfb then Value((Some(first), p))
      else if first == 0xfb then Value((None, p))
      else if first == 0xfc then
        if left < 2 then Raise(StructError) else Value((Some(FromLe(payload[p..p + 2])), p + 2))
      else if first == 0xfd then
        if left < 3 then Raise(IndexError) else Value((Some(FromLe(payload[p..p + 3])), p + 3))
      else
        if left < 8 then Raise(StructError) else Value((Some(FromLe(payload[p..p + 8])), p + 8))
  }

  /** A Python slice: bounds past the end are cut off. */
  function Slice(payload: seq<Byte>, from: nat, to: nat): (r: seq<Byte>)
    requires from <= to
  {
    if from >= |payload| then [] else if to > |payload| then payload[from..] else payload[from..to]
  }

  /** One value of a row; `isText` says what decodes as UTF-8. */
  function ReadCell(isText: seq<Byte> -> bool, payload: seq<Byte>, pos: nat): (r: Outcome<(Cell, nat)>)
  {
    match ReadLenEnc(payload, pos)
    case Raise(e) => Raise(e)
    case Value((None, p)) => Value((Null, p))
    case Value((Some(n), p)) =>
      var bytes := Slice(payload, p, p + n);
      if isText(bytes) then Value((Text(bytes), p + n)) else Raise(DecodeError)
  }

  /** The inner loop of `query`: `k` more values from `pos`, each read by `read`. */
  function ReadCells(read: nat -> Outcome<(Cell, nat)>, done: seq<Cell>, pos: nat, k: nat): (r: Outcome<seq<Cell>>)
    decreases k
  {
    if k == 0 then Value(done)
    else
      match read(pos)
      case Raise(e) => Raise(e)
      case Value((cell, next)) => ReadCells(read, done + [cell], next, k - 1)
  }

  function ParseRow(isText: seq<Byte> -> bool, payload: seq<Byte>, columns: nat): (r: Outcome<seq<Cell>>)
  {
    ReadCells(Reader(isText, payload), [], 0, columns)
  }

  function Reader(isText: seq<Byte> -> bool, payload: seq<Byte>): (r: nat -> Outcome<(Cell, nat)>)
    ensures forall p :: r(p) == ReadCell(isText, payload, p)
  {
    (p: nat) => ReadCell(isText, payload, p)
  }

  /** One packet off the stream, and what follows it. */
  function TakePacket(stream: seq<Byte>): (r: Outcome<(seq<Byte>, seq<Byte>)>)
    ensures r.Value? ==> |r.value.1| < |stream|
  {
    if |stream| < 4 then Raise(ConnectionClosed)
    else
      var n := FromLe(stream[..3]);
      if |stream| < 4 + n then Raise(ConnectionClosed) else Value((stream[4..4 + n], stream[4 + n..]))
  }

  function SkipPackets(stream: seq<Byte>, k: nat): (r: Outcome<seq<Byte>>)
    ensures r.Value? ==> |r.value| <= |stream|
    decreases k
  {
    if k == 0 then Value(stream)
    else
      match TakePacket(stream)
      case Raise(e) => Raise(e)
      case Value((_, rest)) => SkipPackets(rest, k - 1)
  }

  /** The outer loop of `query`: rows until the EOF packet. */
  function TakeRows(isText: seq<Byte> -> bool, done: seq<seq<Cell>>, stream: seq<Byte>, columns: nat)
    : (r: Outcome<(seq<seq<Cell>>, seq<Byte>)>)
    decreases |stream|
  {
    match TakePacket(stream)
    case Raise(e) => Raise(e)
    case Value((payload, rest)) =>
      if payload == [] then Raise(IndexError)
      else if payload[0] == 0xfe && |payload| < 9 then Value((done, rest))
      else
        match ParseRow(isText, payload, columns)
        case Raise(e) => Raise(e)
        case Value(row) => TakeRows(isText, done + [row], rest, columns)
  }

  function ErrorOf(payload: seq<Byte>): (e: Error)
  {
    if |payload| < 3 then StructError
    else ServerError(FromLe(payload[1..3]), if |payload| > 9 then payload[9..] else [])
  }

  /** A result set after its column count: the column definitions, an EOF packet, the rows. */
  function TakeResultSet(isText: seq<Byte> -> bool, stream: seq<Byte>, columns: nat)
    : (r: Outcome<(seq<seq<Cell>>, seq<Byte>)>)
  {
    match SkipPackets(stream, columns)
    case Raise(e) => Raise(e)
    case Value(afterColumns) =>
      match SkipPackets(afterColumns, 1)
      case Raise(e) => Raise(e)
      case Value(afterEof) => TakeRows(isText, [], afterEof, columns)
  }

  /** What `query` makes of the bytes that follow its request: the rows and the unread rest. */
  function TakeResponse(isText: seq<Byte> -> bool, stream: seq<Byte>): (r: Outcome<(seq<seq<Cell>>, seq<Byte>)>)
  {
    match TakePacket(stream)
    case Raise(e) => Raise(e)
    case Value((payload, rest)) =>
      if payload == [] then Raise(IndexError)
      else if payload[0] == 0x00 then Value(([], rest))
      else if payload[0] == 0xff then Raise(ErrorOf(payload))
      else
        match ReadLenEnc(payload, 0)
        case Raise(e) => Raise(e)
        case Value((None, _)) => Raise(TypeError)
        case Value((Some(columns), _)) => TakeResultSet(isText, rest, columns)
  }

  // ---------- round trips ----------

  /** A length read back from anywhere in a payload, for every 64-bit length. */
  lemma LenEncRoundTrip(before: seq<Byte>, n: nat, after: seq<Byte>)
    requires n < Pow256(8)
    ensures ReadLenEnc(before + LenEnc(n) + after, |before|) == Value((Some(n), |before| + |LenEnc(n)|))
  {
    var e := LenEnc(n);
    var payload := before + e + after;
    var p := |before| + 1;
    Widths();
    assert payload[|before|] == e[0];
    if n >= 0xfb {
      var w := |e| - 1;
      assert payload[p..p + w] == e[1..] == ToLe(n, w);
      DecodeEncode(n, w);
    }
  }

  /** One cell is read back from anywhere, and the next position is just behind it. */
  lemma CellRoundTrip(isText: seq<Byte> -> bool, before: seq<Byte>, cell: Cell, after: seq<Byte>)
    requires cell.Text? ==> isText(cell.bytes) && |cell.bytes| < Pow256(8)
    ensures ReadCell(isText, before + EncodeCell(cell) + after, |before|) ==
            Value((cell, |before| + |EncodeCell(cell)|))
  {
    match cell {
      case Null =>
        assert (before + [0xfb] + after)[|before|] == 0xfb;
      case Text(bytes) =>
        var e := LenEnc(|bytes|);
        assert before + (e + bytes) + after == before + e + (bytes + after) == (before + e) + bytes + after;
        LenEncRoundTrip(before, |bytes|, bytes + after);
        SliceMiddle(before + e, bytes, after);
    }
  }

  lemma SliceMiddle(a: seq<Byte>, bytes: seq<Byte>, b: seq<Byte>)
    ensures Slice(a + bytes + b, |a|, |a| + |bytes|) == bytes
  {
    assert (a + bytes + b)[|a|..|a| + |bytes|] == bytes;
  }

  /** If each read yields one cell and the start of the next, the loop collects the row. */
  lemma {:induction false} ReadsAlong(read: nat -> Outcome<(Cell, nat)>, done: seq<Cell>, starts: seq<nat>, row: seq<Cell>)
    requires |starts| == |row| + 1
    requires forall i :: 0 <= i < |row| ==> read(starts[i]) == Value((row[i], starts[i + 1]))
    ensures ReadCells(read, done, starts[0], |row|) == Value(done + row)
    decreases |row|
  {
    if row == [] {
      assert done + row == done;
    } else {
      ReadsAlong(read, done + [row[0]], starts[1..], row[1..]);
      assert (done + [row[0]]) + row[1..] == done + row;
    }
  }

  /** The encoding of the first cells of a row is a prefix of the row's encoding. */
  lemma {:induction false} EncodeRowPrefix(row: seq<Cell>, i: nat)
    requires i <= |row|
    ensures EncodeRow(row[..i]) <= EncodeRow(row)
    decreases |row|
  {
    if i == |row| {
      assert row[..i] == row;
    } else {
      var shorter := row[..|row| - 1];
      EncodeRowPrefix(shorter, i);
      assert shorter[..i] == row[..i];
    }
  }

  lemma EncodeLastCell(row: seq<Cell>, i: nat)
    requires i < |row|
    ensures EncodeRow(row[..i + 1]) == EncodeRow(row[..i]) + EncodeCell(row[i])
  {
    assert row[..i + 1][..i] == row[..i];
  }

  lemma PrefixAndRest(p: seq<Byte>, s: seq<Byte>)
    requires p <= s
    ensures s == p + s[|p|..]
  {
  }

  /** Where the i-th cell stands in the row's encoding. */
  lemma CellInRow(row: seq<Cell>, i: nat) returns (after: seq<Byte>)
    requires i < |row|
    ensures EncodeRow(row) == EncodeRow(row[..i]) + EncodeCell(row[i]) + after
  {
    var p := EncodeRow(row[..i + 1]);
    EncodeLastCell(row, i);
    EncodeRowPrefix(row, i + 1);
    PrefixAndRest(p, EncodeRow(row));
    after := EncodeRow(row)[|p|..];
  }

  lemma CellReadsBackIn(isText: seq<Byte> -> bool, payload: seq<Byte>, before: seq<Byte>, cell: Cell, upTo: seq<Byte>, after: seq<Byte>)
    requires payload == before + EncodeCell(cell) + after && upTo == before + EncodeCell(cell)
    requires |payload| < Pow256(8) && (cell.Text? ==> isText(cell.bytes))
    ensures ReadCell(isText, payload, |before|) == Value((cell, |upTo|))
  {
    CellRoundTrip(isText, before, cell, after);
  }

  /** The i-th cell is read back where it stands, and the next one starts where it ends. */
  lemma CellReadsBack(isText: seq<Byte> -> bool, row: seq<Cell>, i: nat)
    requires i < |row| && |EncodeRow(row)| < Pow256(8)
    requires row[i].Text? ==> isText(row[i].bytes)
    ensures ReadCell(isText, EncodeRow(row), |EncodeRow(row[..i])|) == Value((row[i], |EncodeRow(row[..i + 1])|))
  {
    var after := CellInRow(row, i);
    EncodeLastCell(row, i);
    CellReadsBackIn(isText, EncodeRow(row), EncodeRow(row[..i]), row[i], EncodeRow(row[..i + 1]), after);
  }

  /** A row packet is never mistaken for the EOF packet. */
  lemma RowIsNotEof(row: seq<Cell>)
    requires row != []
    ensures EncodeRow(row) != []
    ensures !(EncodeRow(row)[0] == 0xfe && |EncodeRow(row)| < 9)
  {
    var after := CellInRow(row, 0);
    assert row[..0] == [];
    assert EncodeRow(row)[0] == EncodeCell(row[0])[0];
  }

  /** Packets are read back up to the largest length three bytes can say. */
  lemma PacketRoundTrip(id: Byte, payload: seq<Byte>, tail: seq<Byte>)
    requires |payload| < 0x100_0000
    ensures TakePacket(Packet(id, payload) + tail) == Value((payload, tail))
  {
    var stream := Packet(id, payload) + tail;
    Widths();
    DecodeEncode(|payload|, 3);
    assert stream[..3] == ToLe(|payload|, 3);
    assert stream[4..4 + |payload|] == payload;
    assert stream[4 + |payload|..] == tail;
  }

  datatype Frame = Frame(id: Byte, payload: seq<Byte>)

  function Frames(fs: seq<Frame>): (r: seq<Byte>)
  {
    if fs == [] then [] else Packet(fs[0].id, fs[0].payload) + Frames(fs[1..])
  }

  /** The limit below which a payload is one packet. */
  predicate OnePacket(payload: seq<Byte>) { |payload| < 0xff_ffff }

  lemma SkipOneMore(stream: seq<Byte>, payload: seq<Byte>, rest: seq<Byte>, k: nat)
    requires TakePacket(stream) == Value((payload, rest))
    ensures SkipPackets(stream, k + 1) == SkipPackets(rest, k)
  {
  }

  lemma {:induction false} SkipFrames(fs: seq<Frame>, tail: seq<Byte>)
    requires forall i :: 0 <= i < |fs| ==> OnePacket(fs[i].payload)
    ensures SkipPackets(Frames(fs) + tail, |fs|) == Value(tail)
  {
    if fs == [] {
      assert Frames(fs) + tail == tail;
    } else {
      var f, rest := fs[0], Frames(fs[1..]) + tail;
      assert Frames(fs) + tail == Packet(f.id, f.payload) + rest;
      PacketRoundTrip(f.id, f.payload, rest);
      SkipOneMore(Frames(fs) + tail, f.payload, rest, |fs| - 1);
      SkipFrames(fs[1..], tail);
    }
  }

  /** A text result set: column definitions, an EOF packet, rows, an EOF packet. */
  datatype ResultSet = ResultSet(
    countId: Byte,
    columns: seq<Frame>,
    eof: Frame,
    rowIds: seq<Byte>,
    rows: seq<seq<Cell>>,
    end: Frame)

  ghost predicate WellFormed(isText: seq<Byte> -> bool, t: ResultSet)
  {
    && 1 <= |t.columns| < Pow256(8)
    && |t.rowIds| == |t.rows|
    && (forall i :: 0 <= i < |t.columns| ==> OnePacket(t.columns[i].payload))
    && OnePacket(t.eof.payload)
    && GoodRows(isText, |t.columns|, t.rows)
    && 1 <= |t.end.payload| < 9 && t.end.payload[0] == 0xfe
  }

  ghost predicate GoodRows(isText: seq<Byte> -> bool, columns: nat, rows: seq<seq<Cell>>)
  {
    forall i :: 0 <= i < |rows| ==> GoodRow(isText, columns, rows[i])
  }

  ghost predicate GoodRow(isText: seq<Byte> -> bool, columns: nat, row: seq<Cell>)
  {
    && |row| == columns && OnePacket(EncodeRow(row))
    && forall j :: 0 <= j < |row| && row[j].Text? ==> isText(row[j].bytes)
  }

  function RowFrames(ids: seq<Byte>, rows: seq<seq<Cell>>): (fs: seq<Frame>)
    requires |ids| == |rows|
    ensures |fs| == |rows|
  {
    if rows == [] then [] else [Frame(ids[0], EncodeRow(rows[0]))] + RowFrames(ids[1..], rows[1..])
  }

  function EncodeResult(t: ResultSet): (r: seq<Byte>)
    requires |t.rowIds| == |t.rows|
  {
    Packet(t.countId, LenEnc(|t.columns|)) + Frames(t.columns) + Packet(t.eof.id, t.eof.payload) +
    Frames(RowFrames(t.rowIds, t.rows)) + Packet(t.end.id, t.end.payload)
  }

  /** A row is read back from its encoding. */
  lemma RowRoundTrip(isText: seq<Byte> -> bool, columns: nat, row: seq<Cell>)
    requires GoodRow(isText, columns, row)
    ensures ParseRow(isText, EncodeRow(row), columns) == Value(row)
  {
    var payload := EncodeRow(row);
    var starts := Starts(row);
    Widths();
    forall i | 0 <= i < |row| ensures Reader(isText, payload)(starts[i]) == Value((row[i], starts[i + 1])) {
      CellReadsBack(isText, row, i);
    }
    ReadsAlong(Reader(isText, payload), [], starts, row);
    assert [] + row == row && row[..0] == [];
  }

  function Starts(row: seq<Cell>): (r: seq<nat>)
    ensures |r| == |row| + 1
    ensures forall i :: 0 <= i <= |row| ==> r[i] == |EncodeRow(row[..i])|
  {
    seq<nat>(|row| + 1, i requires 0 <= i <= |row| => |EncodeRow(row[..i])|)
  }

  lemma TakeOneRow(isText: seq<Byte> -> bool, done: seq<seq<Cell>>, id: Byte, row: seq<Cell>, columns: nat, more: seq<Byte>)
    requires columns >= 1 && GoodRow(isText, columns, row)
    ensures TakeRows(isText, done, Packet(id, EncodeRow(row)) + more, columns) ==
            TakeRows(isText, done + [row], more, columns)
  {
    PacketRoundTrip(id, EncodeRow(row), more);
    RowIsNotEof(row);
    RowRoundTrip(isText, columns, row);
  }

  /** Good rows are collected, whatever follows them. */
  lemma {:induction false} RowsThen(isText: seq<Byte> -> bool, done: seq<seq<Cell>>, ids: seq<Byte>, rows: seq<seq<Cell>>,
                                    columns: nat, more: seq<Byte>)
    requires columns >= 1 && |ids| == |rows| && GoodRows(isText, columns, rows)
    ensures TakeRows(isText, done, Frames(RowFrames(ids, rows)) + more, columns) ==
            TakeRows(isText, done + rows, more, columns)
    decreases |rows|
  {
    if rows == [] {
      assert Frames([]) + more == more && done + rows == done;
    } else {
      var rest := Frames(RowFrames(ids[1..], rows[1..])) + more;
      assert RowFrames(ids, rows)[1..] == RowFrames(ids[1..], rows[1..]);
      assert Frames(RowFrames(ids, rows)) + more == Packet(ids[0], EncodeRow(rows[0])) + rest;
      TakeOneRow(isText, done, ids[0], rows[0], columns, rest);
      RowsThen(isText, done + [rows[0]], ids[1..], rows[1..], columns, more);
      assert (done + [rows[0]]) + rows[1..] == done + rows;
    }
  }

  lemma RowsRoundTrip(isText: seq<Byte> -> bool, done: seq<seq<Cell>>, ids: seq<Byte>, rows: seq<seq<Cell>>,
                      columns: nat, end: Frame, tail: seq<Byte>)
    requires columns >= 1 && |ids| == |rows| && GoodRows(isText, columns, rows)
    requires 1 <= |end.payload| < 9 && end.payload[0] == 0xfe
    ensures TakeRows(isText, done, Frames(RowFrames(ids, rows)) + (Packet(end.id, end.payload) + tail), columns) ==
            Value((done + rows, tail))
  {
    RowsThen(isText, done, ids, rows, columns, Packet(end.id, end.payload) + tail);
    PacketRoundTrip(end.id, end.payload, tail);
  }

  lemma Regroup(a: seq<Byte>, b: seq<Byte>, c: seq<Byte>, d: seq<Byte>, e: seq<Byte>, f: seq<Byte>)
    ensures a + b + c + d + e + f == a + (b + (c + (d + (e + f))))
  {
    assert d + e + f == d + (e + f);
    assert b + c + (d + (e + f)) == b + (c + (d + (e + f)));
    assert a + b + c + d + e + f == a + (b + c + (d + e + f));
  }

  lemma CountRoundTrip(n: nat)
    requires 1 <= n < Pow256(8)
    ensures ReadLenEnc(LenEnc(n), 0) == Value((Some(n), |LenEnc(n)|))
    ensures LenEnc(n)[0] != 0x00 && LenEnc(n)[0] != 0xff && |LenEnc(n)| <= 9
  {
    LenEncRoundTrip([], n, []);
    assert [] + LenEnc(n) + [] == LenEnc(n);
  }

  lemma SkipEof(eof: Frame, rows: seq<Byte>)
    requires OnePacket(eof.payload)
    ensures SkipPackets(Packet(eof.id, eof.payload) + rows, 1) == Value(rows)
  {
    PacketRoundTrip(eof.id, eof.payload, rows);
    assert SkipPackets(rows, 0) == Value(rows);
  }

  /** The head of a response: the column count, the definitions and the first EOF packet. */
  lemma TakeHead(isText: seq<Byte> -> bool, id: Byte, columns: seq<Frame>, eof: Frame, rows: seq<Byte>)
    requires 1 <= |columns| < Pow256(8) && OnePacket(eof.payload)
    requires forall i :: 0 <= i < |columns| ==> OnePacket(columns[i].payload)
    ensures TakeResponse(isText, Packet(id, LenEnc(|columns|)) + (Frames(columns) + (Packet(eof.id, eof.payload) + rows))) ==
            TakeRows(isText, [], rows, |columns|)
  {
    var count := LenEnc(|columns|);
    var afterColumns := Packet(eof.id, eof.payload) + rows;
    PacketRoundTrip(id, count, Frames(columns) + afterColumns);
    CountRoundTrip(|columns|);
    SkipFrames(columns, afterColumns);
    SkipEof(eof, rows);
  }

  /**
   The client reads back exactly the rows of every well-formed result set and leaves exactly
   the bytes after it.
   */
  lemma ResultSetRoundTrip(isText: seq<Byte> -> bool, t: ResultSet, tail: seq<Byte>)
    requires WellFormed(isText, t)
    ensures TakeResponse(isText, EncodeResult(t) + tail) == Value((t.rows, tail))
  {
    var last := Packet(t.end.id, t.end.payload);
    var rows := Frames(RowFrames(t.rowIds, t.rows));
    Regroup(Packet(t.countId, LenEnc(|t.columns|)), Frames(t.columns), Packet(t.eof.id, t.eof.payload), rows, last, tail);
    TakeHead(isText, t.countId, t.columns, t.eof, rows + (last + tail));
    RowsRoundTrip(isText, [], t.rowIds, t.rows, |t.columns|, t.end, tail);
    assert [] + t.rows == t.rows;
  }

  // ---------- the other responses, byte by byte ----------

  /** The header of a packet: the length in three bytes, least significant first, then the number. */
  lemma PacketHeader(id: Byte, payload: seq<Byte>)
    ensures var p := Packet(id, payload);
            && |p| == |payload| + 4 && p[4..] == payload && p[3] == id
            && p[0] as int == |payload| % 256 && p[1] as int == |payload| / 256 % 256
            && p[2] as int == |payload| / 0x1_0000 % 256
  {
    var n := |payload|;
    assert ToLe(n, 3) == [n % 256] + ToLe(n / 256, 2);
    assert ToLe(n / 256, 2) == [n / 256 % 256] + ToLe(n / 256 / 256, 1);
    assert ToLe(n / 256 / 256, 1)[0] == n / 256 / 256 % 256;
    assert n / 256 / 256 == n / 0x1_0000;
  }

  /** A stream yields a packet exactly if it holds the four header bytes and as many more as they say. */
  lemma PacketOrClosed(stream: seq<Byte>)
    ensures if |stream| >= 4 &&
               |stream| >= 4 + stream[0] as int + 256 * (stream[1] as int) + 0x1_0000 * (stream[2] as int)
            then
              var n := stream[0] as int + 256 * (stream[1] as int) + 0x1_0000 * (stream[2] as int);
              TakePacket(stream) == Value((stream[4..4 + n], stream[4 + n..]))
            else TakePacket(stream) == Raise(ConnectionClosed)
  {
    if |stream| >= 4 {
      LeastSignificantFirst(stream[..3]);
    }
  }

  /** `read_lenenc` on every first byte, truncated payloads included. */
  lemma LenEncByteByByte(payload: seq<Byte>, pos: nat)
    ensures ReadLenEnc(payload, pos) ==
            var left := |payload| - pos;
            if left < 1 then Raise(IndexError)
            else if payload[pos] < 251 then Value((Some(payload[pos]), pos + 1))
            else if payload[pos] == 251 then Value((None, pos + 1))
            else if payload[pos] == 252 then
              if left < 3 then Raise(StructError)
              else Value((Some(payload[pos + 1] as int + 256 * (payload[pos + 2] as int)), pos + 3))
            else if payload[pos] == 253 then
              if left < 4 then Raise(IndexError)
              else Value((Some(payload[pos + 1] as int + 256 * (payload[pos + 2] as int) +
                               0x1_0000 * (payload[pos + 3] as int)), pos + 4))
            else if left < 9 then Raise(StructError)
            else Value((Some(FromLe(payload[pos + 1..pos + 9])), pos + 9))
  {
    var p := pos + 1;
    if pos < |payload| {
      if p + 2 <= |payload| { LeastSignificantFirst(payload[p..p + 2]); }
      if p + 3 <= |payload| { LeastSignificantFirst(payload[p..p + 3]); }
    }
  }

  /** A value that says it is longer than the payload is cut off there; bytes that are no text raise. */
  lemma CutOffOrUndecodable(isText: seq<Byte> -> bool, before: seq<Byte>, n: nat, bytes: seq<Byte>)
    requires n < Pow256(8) && |bytes| <= n
    ensures ReadCell(isText, before + LenEnc(n) + bytes, |before|) ==
            if isText(bytes) then Value((Text(bytes), |before| + |LenEnc(n)| + n)) else Raise(DecodeError)
  {
    LenEncRoundTrip(before, n, bytes);
    var payload, at := before + LenEnc(n) + bytes, |before| + |LenEnc(n)|;
    assert payload[at..] == bytes;
    CutOff(payload, at, n);
  }

  lemma CutOff(payload: seq<Byte>, from: nat, n: nat)
    requires from <= |payload| <= from + n
    ensures Slice(payload, from, from + n) == payload[from..]
  {
  }

  lemma OneCell(read: nat -> Outcome<(Cell, nat)>, cell: Cell, next: nat)
    requires read(0) == Value((cell, next))
    ensures ReadCells(read, [], 0, 1) == Value([cell])
  {
    assert [] + [cell] == [cell];
    assert ReadCells(read, [cell], next, 0) == Value([cell]);
  }

  /** A packet that begins with 0xfe but has nine bytes or more is a row, here of one value. */
  lemma LongFePacketIsRow(isText: seq<Byte> -> bool, done: seq<seq<Cell>>, id: Byte, bytes: seq<Byte>, more: seq<Byte>)
    requires |bytes| + 9 < 0x100_0000 && isText(bytes)
    ensures TakeRows(isText, done, Packet(id, [0xfe] + ToLe(|bytes|, 8) + bytes) + more, 1) ==
            TakeRows(isText, done + [[Text(bytes)]], more, 1)
  {
    var payload := [0xfe] + ToLe(|bytes|, 8) + bytes;
    PacketRoundTrip(id, payload, more);
    Widths();
    assert payload[1..9] == ToLe(|bytes|, 8) && payload[9..] == bytes;
    DecodeEncode(|bytes|, 8);
    LenEncByteByByte(payload, 0);
    CutOff(payload, 9, |bytes|);
    OneCell(Reader(isText, payload), Text(bytes), 9 + |bytes|);
  }

  /** An OK packet: no rows. */
  lemma OkResponse(isText: seq<Byte> -> bool, id: Byte, more: seq<Byte>, tail: seq<Byte>)
    requires |more| + 1 < 0x100_0000
    ensures TakeResponse(isText, Packet(id, [0x00] + more) + tail) == Value(([], tail))
  {
    PacketRoundTrip(id, [0x00] + more, tail);
  }

  /** An ERR packet: its code, and the message after the six bytes of marker and state. */
  lemma ErrResponse(isText: seq<Byte> -> bool, id: Byte, code: nat, marker: seq<Byte>, message: seq<Byte>, tail: seq<Byte>)
    requires code < 0x1_0000 && |marker| == 6 && |message| + 9 < 0x100_0000
    ensures TakeResponse(isText, Packet(id, [0xff] + ToLe(code, 2) + marker + message) + tail) ==
            Raise(ServerError(code, message))
  {
    var payload := [0xff] + ToLe(code, 2) + marker + message;
    PacketRoundTrip(id, payload, tail);
    Widths();
    DecodeEncode(code, 2);
    assert payload[1..3] == ToLe(code, 2) && payload[9..] == message;
  }

  /** Malformed first packets: an empty one, an ERR packet without a code, a NULL column count. */
  lemma MalformedResponses(isText: seq<Byte> -> bool, id: Byte, short: seq<Byte>, more: seq<Byte>, tail: seq<Byte>)
    requires |short| < 2 && |more| + 1 < 0x100_0000
    ensures TakeResponse(isText, Packet(id, []) + tail) == Raise(IndexError)
    ensures TakeResponse(isText, Packet(id, [0xff] + short) + tail) == Raise(StructError)
    ensures TakeResponse(isText, Packet(id, [0xfb] + more) + tail) == Raise(TypeError)
  {
    PacketRoundTrip(id, [], tail);
    PacketRoundTrip(id, [0xff] + short, tail);
    PacketRoundTrip(id, [0xfb] + more, tail);
  }
}
