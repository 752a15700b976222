/** The kernel object name derived from a canonical path (`windows_lock_name` in src/host_files.rs). */
module LockName {
  import opened Numerals

  const TWO_64: nat := 0x1_0000_0000_0000_0000
  const FNV_PRIME: nat := 0x0000_0100_0000_01b3
  const FNV_OFFSET: Word := 0xcbf2_9ce4_8422_2325
  const PREFIX := "Local\\wasmtime-mysql-file-"

  /** A `u64`. */
  type Word = x: nat | x < TWO_64

  /** One UTF-16 code unit of the upper-cased path. */
  type Unit = x: nat | x < 0x1_0000

  // ---------- one round of the hash ----------

  /** Exclusive or, bit by bit. */
  function Xor(a: nat, b: nat): (r: nat)
  {
    if a == 0 && b == 0 then 0 else (a + b) % 2 + 2 * Xor(a / 2, b / 2)
  }

  lemma {:induction false} XorSymmetric(a: nat, b: nat)
    ensures Xor(a, b) == Xor(b, a)
  {
    if a == 0 && b == 0 {
    } else {
      XorSymmetric(a / 2, b / 2);
    }
  }

  lemma {:induction false} XorLowBit(a: nat, b: nat)
    ensures Xor(a, b) % 2 == (a + b) % 2 && Xor(a, b) / 2 == Xor(a / 2, b / 2)
  {
    var low, high := (a + b) % 2, Xor(a / 2, b / 2);
    assert Xor(a, b) == low + 2 * high;
    assert (low + 2 * high) % 2 == low && (low + 2 * high) / 2 == high;
  }

  lemma SameParity(a: nat, b: nat, u: nat)
    requires a / 2 == b / 2 && (a + u) % 2 == (b + u) % 2
    ensures a == b
  {
  }

  lemma {:induction false} XorInjective(a: nat, b: nat, u: nat)
    requires Xor(a, u) == Xor(b, u)
    ensures a == b
    decreases a + b + u
  {
    if a == 0 && b == 0 && u == 0 {
    } else {
      XorLowBit(a, u);
      XorLowBit(b, u);
      XorInjective(a / 2, b / 2, u / 2);
      SameParity(a, b, u);
    }
  }

  lemma {:induction false} XorBounded(a: nat, b: nat, k: nat)
    requires a < Power(2, k) && b < Power(2, k)
    ensures Xor(a, b) < Power(2, k)
    decreases k
  {
    if k == 0 {
    } else {
      XorBounded(a / 2, b / 2, k - 1);
    }
  }

  lemma {:induction false} PowersOfTwoMultiply(j: nat, k: nat)
    ensures Power(2, j + k) == Power(2, j) * Power(2, k)
  {
    if j == 0 {
    } else {
      PowersOfTwoMultiply(j - 1, k);
    }
  }

  lemma WordBound()
    ensures Power(2, 64) == TWO_64
  {
    assert Power(2, 8) == 256;
    PowersOfTwoMultiply(8, 8);
    PowersOfTwoMultiply(16, 16);
    PowersOfTwoMultiply(32, 32);
  }

  /** One xor-multiply round, wrapping at 2^64. */
  function Round(hash: Word, unit: Unit): (r: Word)
  {
    (Xor(hash, unit) * FNV_PRIME) % TWO_64
  }

  function Hash(hash: Word, units: seq<Unit>): (r: Word)
    decreases |units|
  {
    if units == [] then hash else Hash(Round(hash, units[0]), units[1..])
  }

  /** The multiplier is odd, hence multiplication by it is injective modulo 2^64. */
  lemma MultiplierInjective(x: Word, y: Word)
    requires (x * FNV_PRIME) % TWO_64 == (y * FNV_PRIME) % TWO_64
    ensures x == y
  {
    var inverse, quotient := 0xce965057aff6957b, 0xce9650590f;
    var d: int := x - y;
    var m := (x * FNV_PRIME) / TWO_64 - (y * FNV_PRIME) / TWO_64;
    assert d * FNV_PRIME == m * TWO_64;
    assert FNV_PRIME * inverse == 1 + quotient * TWO_64;
    var t := m * inverse - d * quotient;
    assert d == t * TWO_64;
  }

  /** A round is injective in the hash and in the unit. */
  lemma RoundInjective(g: Word, h: Word, u: Unit, v: Unit)
    requires Round(g, u) == Round(h, v)
    requires g == h || u == v
    ensures g == h && u == v
  {
    WordBound();
    XorBounded(g, u, 64);
    XorBounded(h, v, 64);
    MultiplierInjective(Xor(g, u), Xor(h, v));
    if u == v {
      XorInjective(g, h, u);
    } else {
      XorSymmetric(g, u);
      XorSymmetric(h, v);
      XorInjective(u, v, g);
    }
  }

  /** A common tail keeps two different hashes apart. */
  lemma {:induction false} CommonTail(g: Word, h: Word, tail: seq<Unit>)
    ensures Hash(g, tail) == Hash(h, tail) <==> g == h
    decreases |tail|
  {
    if tail == [] {
    } else {
      CommonTail(Round(g, tail[0]), Round(h, tail[0]), tail[1..]);
      if Round(g, tail[0]) == Round(h, tail[0]) {
        RoundInjective(g, h, tail[0], tail[0]);
      }
    }
  }

  /** Paths of one length that agree except perhaps at index `k` hash alike only if equal. */
  lemma {:induction false} HashSeparates(hash: Word, a: seq<Unit>, b: seq<Unit>, k: nat)
    requires |a| == |b| && k < |a|
    requires forall i :: 0 <= i < |a| && i != k ==> a[i] == b[i]
    ensures Hash(hash, a) == Hash(hash, b) <==> a == b
    decreases |a|
  {
    if k == 0 {
      assert a[1..] == b[1..];
      CommonTail(Round(hash, a[0]), Round(hash, b[0]), a[1..]);
      if Round(hash, a[0]) == Round(hash, b[0]) {
        RoundInjective(hash, hash, a[0], b[0]);
        assert a == [a[0]] + a[1..] && b == [b[0]] + b[1..];
      }
    } else {
      HashSeparates(Round(hash, a[0]), a[1..], b[1..], k - 1);
      assert a == [a[0]] + a[1..] && b == [b[0]] + b[1..];
    }
  }

  // ---------- the rendered name ----------

  function HexDigit(d: nat): (c: char)
  {
    if d < 16 then "0123456789abcdef"[d] else '?'
  }

  lemma HexLegible()
    ensures Legible(HexDigit, 16)
  {
    forall d: nat, e: nat | d < 16 && e < 16 && HexDigit(d) == HexDigit(e) ensures d == e {
      HexDigitInjective(d, e);
    }
  }

  lemma HexDigitInjective(d: nat, e: nat)
    requires d < 16 && e < 16 && HexDigit(d) == HexDigit(e)
    ensures d == e
  {
  }

  /** The lowest hexadecimal digits, most significant first. */
  function Hex(value: nat, digits: nat): (s: string)
    ensures |s| == digits
  {
    Render(HexDigit, 16, value, digits)
  }

  lemma SixteenDigits()
    ensures Power(16, 16) == TWO_64
  {
    assert Power(16, 4) == 0x1_0000;
    assert Power(16, 8) == 0x1_0000_0000;
    assert Power(16, 12) == 0x1_0000_0000_0000;
  }

  /** The object name, with its terminator. */
  function Name(units: seq<Unit>): (s: string)
  {
    PREFIX + Hex(Hash(FNV_OFFSET, units), 16) + "\0"
  }

  /** Names agree exactly when the hashes do. */
  lemma NameShowsHash(a: seq<Unit>, b: seq<Unit>)
    ensures Name(a) == Name(b) <==> Hash(FNV_OFFSET, a) == Hash(FNV_OFFSET, b)
  {
    var x, y := Hash(FNV_OFFSET, a), Hash(FNV_OFFSET, b);
    if Name(a) == Name(b) {
      assert Name(a)[|PREFIX|..|PREFIX| + 16] == Hex(x, 16);
      assert Name(b)[|PREFIX|..|PREFIX| + 16] == Hex(y, 16);
      SixteenDigits();
      HexLegible();
      FitsBelowPower(16, x, 16);
      FitsBelowPower(16, y, 16);
      RenderInjective(HexDigit, 16, x, y, 16);
    }
  }

  /** Near misses never share a name: upper-cased paths of one length that differ in one unit. */
  lemma NearMissesGetDifferentNames(a: seq<Unit>, b: seq<Unit>, k: nat)
    requires |a| == |b| && k < |a| && a[k] != b[k]
    requires forall i :: 0 <= i < |a| && i != k ==> a[i] == b[i]
    ensures Name(a) != Name(b)
  {
    HashSeparates(FNV_OFFSET, a, b, k);
    NameShowsHash(a, b);
  }

  // ---------- the name without the model's own functions ----------

  /** Exclusive or acts on each bit by itself. */
  lemma {:induction false} XorBits(a: nat, b: nat, k: nat)
    ensures HasBit(Xor(a, b), k) <==> HasBit(a, k) != HasBit(b, k)
    decreases k
  {
    XorLowBit(a, b);
    if k == 0 {
    } else {
      XorBits(a / 2, b / 2, k - 1);
    }
  }

  /**
   FNV-1a over the units: the offset basis for none, and each further unit is xored in before
   the multiplication by the prime, modulo 2^64.
   */
  lemma {:induction false} HashRecurrence(hash: Word, units: seq<Unit>, unit: Unit)
    ensures Hash(hash, []) == hash
    ensures Hash(hash, units + [unit]) ==
            (Xor(Hash(hash, units), unit) * 0x100_0000_01b3) % 0x1_0000_0000_0000_0000
    decreases |units|
  {
    if units == [] {
      assert ([] + [unit])[1..] == [];
    } else {
      HashRecurrence(Round(hash, units[0]), units[1..], unit);
      assert (units + [unit])[1..] == units[1..] + [unit];
    }
  }

  /** The text: the fixed prefix, then the hash in 16 lower-case hexadecimal digits, then a terminator. */
  lemma NameText(units: seq<Unit>, i: nat)
    requires i < 16
    ensures |Name(units)| == 43
    ensures Name(units)[..26] == "Local\\wasmtime-mysql-file-" && Name(units)[42] == '\0'
    ensures Name(units)[41 - i] == "0123456789abcdef"[Shifted(16, Hash(0xcbf2_9ce4_8422_2325, units), i) % 16]
  {
    var hash := Hash(FNV_OFFSET, units);
    DigitFromRight(HexDigit, 16, hash, 16, i);
    assert |PREFIX| == 26;
    assert Name(units)[41 - i] == Hex(hash, 16)[15 - i];
  }

  /** `windows_lock_name`: the hash loop and the rendered name. */
  method WindowsLockName(units: seq<Unit>) returns (name: string)
    ensures name == Name(units)
  {
    var hash := FNV_OFFSET;
    for i := 0 to |units|
      invariant Hash(FNV_OFFSET, units) == Hash(hash, units[i..])
    {
      hash := Round(hash, units[i]);
      assert units[i..][1..] == units[i + 1..];
    }
    name := PREFIX + Hex(hash, 16) + "\0";
  }
}
