/** Little-endian integers in byte sequences. */
module Bytes {
  type Byte = x: nat | x < 256

  function Pow256(k: nat): (p: nat)
    ensures p > 0
  {
    if k == 0 then 1 else 256 * Pow256(k - 1)
  }

  /** `from_le_bytes`, unsigned. */
  function FromLe(bytes: seq<Byte>): (v: nat)
    ensures v < Pow256(|bytes|)
  {
    if bytes == [] then 0 else bytes[0] + 256 * FromLe(bytes[1..])
  }

  /** `to_le_bytes`: the lowest `n` bytes. */
  function ToLe(v: nat, n: nat): (bytes: seq<Byte>)
    ensures |bytes| == n
    decreases n, v
  {
    if n == 0 then [] else [v % 256] + ToLe(v / 256, n - 1)
  }

  lemma {:induction false} DecodeEncode(v: nat, n: nat)
    requires v < Pow256(n)
    ensures FromLe(ToLe(v, n)) == v
    decreases n
  {
    if n == 0 {
    } else {
      DecodeEncode(v / 256, n - 1);
    }
  }

  lemma {:induction false} EncodeDecode(bytes: seq<Byte>)
    ensures ToLe(FromLe(bytes), |bytes|) == bytes
  {
    if bytes == [] {
    } else {
      var v, tail := FromLe(bytes), bytes[1..];
      EncodeDecode(tail);
      assert v % 256 == bytes[0] && v / 256 == FromLe(tail);
      assert bytes == [bytes[0]] + tail;
    }
  }

  /** Two's complement reading of an unsigned `n`-byte value, and back. */
  function Signed(v: nat, n: nat): (r: int)
    requires v < Pow256(n)
  {
    if 2 * v < Pow256(n) then v else v - Pow256(n)
  }

  function Unsigned(v: int, n: nat): (r: nat)
    requires 0 <= 2 * v + Pow256(n) && 2 * v < Pow256(n)
    ensures r < Pow256(n)
    ensures Signed(r, n) == v
  {
    if v >= 0 then v else v + Pow256(n)
  }

  lemma Widths()
    ensures Pow256(2) == 0x1_0000
    ensures Pow256(3) == 0x100_0000
    ensures Pow256(4) == 0x1_0000_0000
    ensures Pow256(8) == 0x1_0000_0000_0000_0000
  {
    assert Pow256(5) == 256 * Pow256(4);
    assert Pow256(6) == 256 * Pow256(5);
    assert Pow256(7) == 256 * Pow256(6);
  }

  /** The least significant byte comes first. */
  lemma LeastSignificantFirst(b: seq<Byte>)
    ensures |b| == 2 ==> FromLe(b) == b[0] as int + 256 * (b[1] as int)
    ensures |b| == 3 ==> FromLe(b) == b[0] as int + 256 * (b[1] as int) + 0x1_0000 * (b[2] as int)
    ensures |b| == 4 ==> FromLe(b) == b[0] as int + 256 * (b[1] as int) + 0x1_0000 * (b[2] as int) + 0x100_0000 * (b[3] as int)
  {
    if 2 <= |b| <= 4 {
      var c := b[1..];
      assert FromLe(b) == b[0] + 256 * FromLe(c) && FromLe(c) == c[0] + 256 * FromLe(c[1..]);
      if |b| > 2 {
        var d := c[1..];
        assert FromLe(d) == d[0] + 256 * FromLe(d[1..]);
        if |b| > 3 {
          var e := d[1..];
          assert FromLe(e) == e[0] + 256 * FromLe(e[1..]) && e[1..] == [];
        }
      }
    }
  }
}
