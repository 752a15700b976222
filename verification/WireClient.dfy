/**
 The benchmark client over a socket whose reads may be split anywhere
 (scripts/bench-tcp.py). Nothing is assumed about how the stream is cut into chunks.
 */
module WireClient {
  import opened Common
  import opened Bytes
  import opened WireFormat
  import opened WireErrors

  class Client {
    /** Bytes the server has sent or will send and that were not received yet. */
    var incoming: seq<Byte>
    var outgoing: seq<Byte>
    /** Which byte strings decode as UTF-8. */
    const isText: seq<Byte> -> bool

    constructor (stream: seq<Byte>, isText: seq<Byte> -> bool)
      ensures incoming == stream && outgoing == [] && this.isText == isText
    {
      incoming, outgoing, this.isText := stream, [], isText;
    }

    /** `recv`: any non-empty prefix of what is left, up to `n` bytes; empty only at the end. */
    method Recv(n: nat) returns (chunk: seq<Byte>)
      modifies this`incoming
      ensures chunk + incoming == old(incoming) && |chunk| <= n
      ensures chunk == [] <==> n == 0 || old(incoming) == []
    {
      if n == 0 || incoming == [] {
        return [];
      }
      var k: nat :| 1 <= k <= n && k <= |incoming|;
      chunk := incoming[..k];
      incoming := incoming[k..];
    }

    /** `_read_exact` */
    method ReadExact(n: nat) returns (r: Outcome<seq<Byte>>)
      modifies this`incoming
      ensures if n <= |old(incoming)| then
                r == Value(old(incoming)[..n]) && incoming == old(incoming)[n..]
              else r == Raise(ConnectionClosed)
    {
      var data: seq<Byte> := [];
      var remaining: nat := n;
      while remaining > 0
        invariant remaining <= n && |data| == n - remaining
        invariant data + incoming == old(incoming)
      {
        var chunk := Recv(remaining);
        if chunk == [] {
          return Raise(ConnectionClosed);
        }
        assert data + (chunk + incoming) == (data + chunk) + incoming;
        data := data + chunk;
        remaining := remaining - |chunk|;
      }
      assert (data + incoming)[..n] == data && (data + incoming)[n..] == incoming;
      return Value(data);
    }

    /** `_read_packet` */
    method ReadPacket() returns (r: Outcome<seq<Byte>>)
      modifies this`incoming
      ensures match TakePacket(old(incoming))
              case Value((payload, rest)) => r == Value(payload) && incoming == rest
              case Raise(e) => r == Raise(e)
    {
      ghost var stream := incoming;
      var header := ReadExact(4);
      if header.Raise? {
        return Raise(header.error);
      }
      assert header.value[..3] == stream[..3];
      var length := FromLe(header.value[..3]);
      assert stream[4..][..] == stream[4..];
      r := ReadExact(length);
      assert r.Value? ==> stream[4..][..length] == stream[4..4 + length] && stream[4..][length..] == stream[4 + length..];
    }

    /** `_write_packet`: the length is cut to its lowest three bytes. */
    method WritePacket(payload: seq<Byte>, id: Byte) returns (r: Outcome<()>)
      modifies this`outgoing
      ensures if |payload| < 0x1_0000_0000 then
                r == Value(()) && outgoing == old(outgoing) + Packet(id, payload)
              else r == Raise(StructError) && outgoing == old(outgoing)
    {
      if |payload| >= 0x1_0000_0000 {
        return Raise(StructError);
      }
      LowBytes(|payload|);
      var header := ToLe(|payload|, 4)[..3] + [id];
      outgoing := outgoing + (header + payload);
      return Value(());
    }

    method SkipPacketsBy(k: nat) returns (r: Outcome<()>)
      modifies this`incoming
      ensures match SkipPackets(old(incoming), k)
              case Value(rest) => r == Value(()) && incoming == rest
              case Raise(e) => r == Raise(e)
    {
      for i := 0 to k
        invariant SkipPackets(old(incoming), k) == SkipPackets(incoming, k - i)
      {
        var skipped := ReadPacket();
        if skipped.Raise? {
          return Raise(skipped.error);
        }
      }
      return Value(());
    }

    method ReadRow(payload: seq<Byte>, columns: nat) returns (r: Outcome<seq<Cell>>)
      ensures r == ParseRow(isText, payload, columns)
    {
      var row: seq<Cell> := [];
      var pos: nat := 0;
      var read := Reader(isText, payload);
      for i := 0 to columns
        invariant ReadCells(read, [], 0, columns) == ReadCells(read, row, pos, columns - i)
      {
        var cell := read(pos);
        if cell.Raise? {
          return Raise(cell.error);
        }
        row := row + [cell.value.0];
        pos := cell.value.1;
      }
      return Value(row);
    }

    method ReadRows(columns: nat) returns (r: Outcome<seq<seq<Cell>>>)
      modifies this`incoming
      ensures match TakeRows(isText, [], old(incoming), columns)
              case Value((rows, rest)) => r == Value(rows) && incoming == rest
              case Raise(e) => r == Raise(e)
    {
      var rows: seq<seq<Cell>> := [];
      while true
        invariant TakeRows(isText, [], old(incoming), columns) == TakeRows(isText, rows, incoming, columns)
        decreases |incoming|
      {
        var payload := ReadPacket();
        if payload.Raise? {
          return Raise(payload.error);
        }
        if payload.value == [] {
          return Raise(IndexError);
        }
        if payload.value[0] == 0xfe && |payload.value| < 9 {
          return Value(rows);
        }
        var row := ReadRow(payload.value, columns);
        if row.Raise? {
          return Raise(row.error);
        }
        rows := rows + [row.value];
      }
    }

    /**
     `query`: for every byte stream and every way of splitting it, the outcome is that of the
     response decoder, and on success exactly the response was consumed. So for every
     well-formed result set it returns exactly the rows and leaves exactly what follows, and if
     the connection is lost anywhere before the end of one it raises "connection closed".
     */
    method Query(sql: seq<Byte>) returns (r: Outcome<seq<seq<Cell>>>)
      modifies this
      ensures |sql| + 1 >= 0x1_0000_0000 ==> r == Raise(StructError)
      ensures |sql| + 1 < 0x1_0000_0000 ==>
                && outgoing == old(outgoing) + Packet(0, [0x03] + sql)
                && match TakeResponse(isText, old(incoming))
                   case Value((rows, rest)) => r == Value(rows) && incoming == rest
                   case Raise(e) => r == Raise(e)
      ensures forall t: ResultSet, tail ::
                |sql| + 1 < 0x1_0000_0000 && WellFormed(isText, t) && old(incoming) == EncodeResult(t) + tail ==>
                  r == Value(t.rows) && incoming == tail
      ensures forall t: ResultSet, n: nat ::
                && |sql| + 1 < 0x1_0000_0000 && WellFormed(isText, t) && n < |EncodeResult(t)|
                && old(incoming) == EncodeResult(t)[..n] ==>
                  r == Raise(ConnectionClosed)
      // An OK packet gives no rows, an ERR packet its code and message; both are consumed.
      ensures forall id, more, tail ::
                |sql| + 1 < 0x1_0000_0000 && |more| < 0xff_ffff && old(incoming) == Packet(id, [0x00] + more) + tail ==>
                  r == Value([]) && incoming == tail
      ensures forall id, code: nat, marker, message, tail ::
                && |sql| + 1 < 0x1_0000_0000 && code < 0x1_0000 && |marker| == 6 && |message| < 0xff_fff6
                && old(incoming) == Packet(id, [0xff] + ToLe(code, 2) + marker + message) + tail ==>
                  r == Raise(ServerError(code, message)) && incoming == tail
    {
      var sent := WritePacket([0x03] + sql, 0);
      if sent.Raise? {
        return Raise(sent.error);
      }
      ghost var stream := incoming;
      r := ReadResponse();
      forall t: ResultSet, tail | WellFormed(isText, t) && stream == EncodeResult(t) + tail
        ensures r == Value(t.rows) && incoming == tail
      {
        ResultSetRoundTrip(isText, t, tail);
      }
      forall t: ResultSet, n: nat | WellFormed(isText, t) && n < |EncodeResult(t)| && stream == EncodeResult(t)[..n]
        ensures r == Raise(ConnectionClosed)
      {
        CutOffAnywhere(isText, t, n);
      }
      forall id, more, tail | |more| < 0xff_ffff && stream == Packet(id, [0x00] + more) + tail
        ensures r == Value([]) && incoming == tail
      {
        OkResponse(isText, id, more, tail);
      }
      forall id, code: nat, marker, message, tail |
        && code < 0x1_0000 && |marker| == 6 && |message| < 0xff_fff6
        && stream == Packet(id, [0xff] + ToLe(code, 2) + marker + message) + tail
        ensures r == Raise(ServerError(code, message)) && incoming == tail
      {
        ErrResponse(isText, id, code, marker, message, tail);
        PacketRoundTrip(id, [0xff] + ToLe(code, 2) + marker + message, tail);
      }
    }

    /** The part of `query` after the request is sent. */
    method ReadResponse() returns (r: Outcome<seq<seq<Cell>>>)
      modifies this`incoming
      ensures match TakeResponse(isText, old(incoming))
              case Value((rows, rest)) => r == Value(rows) && incoming == rest
              case Raise(e) => r == Raise(e)
      ensures match TakePacket(old(incoming))
              case Value((payload, rest)) => payload != [] && payload[0] == 0xff ==> incoming == rest
              case Raise(_) => true
    {
      var payload := ReadPacket();
      if payload.Raise? {
        return Raise(payload.error);
      }
      if payload.value == [] {
        return Raise(IndexError);
      }
      if payload.value[0] == 0x00 {
        return Value([]);
      }
      if payload.value[0] == 0xff {
        return Raise(ErrorOf(payload.value));
      }
      var count := ReadLenEnc(payload.value, 0);
      if count.Raise? {
        return Raise(count.error);
      }
      if count.value.0.None? {
        return Raise(TypeError);
      }
      var columns := SkipPacketsBy(count.value.0.value);
      if columns.Raise? {
        return Raise(columns.error);
      }
      var eof := SkipPacketsBy(1);
      if eof.Raise? {
        return Raise(eof.error);
      }
      r := ReadRows(count.value.0.value);
    }
  }

  lemma LowBytes(n: nat)
    ensures ToLe(n, 4)[..3] == ToLe(n, 3)
  {
    assert ToLe(n, 4) == [n % 256] + ToLe(n / 256, 3);
    assert ToLe(n, 3) == [n % 256] + ToLe(n / 256, 2);
    assert ToLe(n / 256, 3) == [n / 256 % 256] + ToLe(n / 256 / 256, 2);
    assert ToLe(n / 256, 2) == [n / 256 % 256] + ToLe(n / 256 / 256, 1);
    assert ToLe(n / 256 / 256, 2)[0] == ToLe(n / 256 / 256, 1)[0];
  }

  /** A packet the client writes reads back as itself exactly when its length fits three bytes. */
  lemma WrittenPacketReadsBackIff(id: Byte, payload: seq<Byte>, tail: seq<Byte>)
    ensures TakePacket(Packet(id, payload) + tail) == Value((payload, tail)) <==> |payload| < 0x100_0000
  {
    if |payload| < 0x100_0000 {
      PacketRoundTrip(id, payload, tail);
    } else {
      var stream := Packet(id, payload) + tail;
      Widths();
      assert FromLe(stream[..3]) < 0x100_0000;
    }
  }
}
