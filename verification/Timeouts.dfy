/**
 Socket timeouts between the guest's `timeval` and WinSock's milliseconds
 (src/host_sockets_windows.rs). Native byte order is little-endian on the supported hosts.
 */
module Timeouts {
  import opened Common
  import opened Bytes

  function Clamp(x: int, lo: int, hi: int): (r: int)
    requires lo <= hi
    ensures lo <= r <= hi
  {
    if x < lo then lo else if x > hi then hi else x
  }

  /** The saturating `i64` operations. */
  function SaturatingAdd(a: I64, b: I64): (r: I64) { Clamp(a + b, I64_MIN, I64_MAX) }
  function SaturatingMul(a: I64, b: I64): (r: I64) { Clamp(a * b, I64_MIN, I64_MAX) }

  /** The code's conversion; `/` by a positive number is `div_euclid`. */
  function ToMillis(seconds: I64, micros: I64): (r: nat)
    ensures r <= U32_MAX
  {
    Clamp(SaturatingAdd(SaturatingMul(seconds, 1_000), SaturatingAdd(micros, 999) / 1_000), 0, U32_MAX)
  }

  /** The exact total in milliseconds, rounded up, with no machine limits. */
  function ExactMillis(seconds: int, micros: int): (r: int)
    ensures 1_000 * (r - 1) < 1_000_000 * seconds + micros <= 1_000 * r
  {
    (1_000_000 * seconds + micros + 999) / 1_000
  }

  lemma ExactSplits(seconds: int, micros: int)
    ensures ExactMillis(seconds, micros) == 1_000 * seconds + ExactMillis(0, micros)
  {
  }

  /** Microseconds beyond which adding 999 saturates visibly. */
  const MICROS_LIMIT: I64 := 9_223_372_036_854_775_000

  /**
   Despite three saturating steps the conversion is the exact total, rounded up to a
   millisecond and clamped to `u32`, for exactly these inputs: microseconds up to the limit,
   or a total that the clamp decides anyway. Microseconds up to i64::MAX - 999 are included.
   */
  lemma ConversionExactIff(seconds: I64, micros: I64)
    ensures ToMillis(seconds, micros) == Clamp(ExactMillis(seconds, micros), 0, U32_MAX) <==>
            micros <= MICROS_LIMIT || !(1 <= ExactMillis(seconds, micros) <= U32_MAX)
    ensures micros <= I64_MAX - 999 ==> micros <= MICROS_LIMIT
  {
    ExactSplits(seconds, micros);
    var up := ExactMillis(0, micros);
    var rounded := SaturatingAdd(micros, 999) / 1_000;
    assert rounded == if micros <= MICROS_LIMIT then up else up - 1;
    assert -9_223_372_036_854_776 <= up <= 9_223_372_036_854_776;
    if SaturatingMul(seconds, 1_000) != 1_000 * seconds {
      assert seconds > 9_000_000_000_000_000 || seconds < -9_000_000_000_000_000;
    }
  }

  /** An input past the limit where the code is one millisecond short. */
  lemma ConversionCanFallShort()
    ensures ToMillis(-9_223_372_036_854, I64_MAX) == 775
    ensures ExactMillis(-9_223_372_036_854, I64_MAX) == 776
  {
  }

  /** A positive normalized timeout never becomes zero, which would mean "wait forever". */
  lemma PositiveStaysPositive(seconds: I64, micros: I64)
    requires 0 <= seconds && 0 <= micros < 1_000_000 && (seconds > 0 || micros > 0)
    ensures ToMillis(seconds, micros) >= 1
  {
    ConversionExactIff(seconds, micros);
    ExactSplits(seconds, micros);
  }

  // ---------- on bytes ----------

  function I64At(bytes: seq<Byte>, at: nat): (v: I64)
    requires at + 8 <= |bytes|
  {
    Widths();
    Signed(FromLe(bytes[at..at + 8]), 8)
  }

  /** `guest_timeout_to_windows` */
  function GuestToWindows(guest: seq<Byte>): (r: seq<Byte>)
  {
    if |guest| < 16 then guest else ToLe(ToMillis(I64At(guest, 0), I64At(guest, 8)), 4)
  }

  /** `windows_timeout_to_guest` */
  function WindowsToGuest(windows: seq<Byte>, requestedLen: nat): (r: seq<Byte>)
  {
    if requestedLen < 16 || |windows| < 4 then windows
    else
      var millis := FromLe(windows[..4]);
      ToLe(millis / 1_000, 8) + ToLe(millis % 1_000 * 1_000, 8)
  }

  lemma SplitMillis(millis: nat)
    requires millis <= U32_MAX
    ensures ToMillis(millis / 1_000, millis % 1_000 * 1_000) == millis
  {
    var s, u := millis / 1_000, millis % 1_000 * 1_000;
    ConversionExactIff(s, u);
    ExactSplits(s, u);
    assert ExactMillis(0, u) == millis % 1_000;
  }

  lemma DecodesBack(s: nat, u: nat)
    requires s <= U32_MAX && u <= U32_MAX
    ensures var guest := ToLe(s, 8) + ToLe(u, 8); I64At(guest, 0) == s && I64At(guest, 8) == u
  {
    var guest := ToLe(s, 8) + ToLe(u, 8);
    Widths();
    assert guest[0..8] == ToLe(s, 8) && guest[8..16] == ToLe(u, 8);
    DecodeEncode(s, 8);
    DecodeEncode(u, 8);
  }

  /** Windows to guest and back is the identity on every millisecond value. */
  lemma MillisRoundTrip(windows: seq<Byte>, requestedLen: nat)
    requires |windows| == 4
    ensures GuestToWindows(WindowsToGuest(windows, requestedLen)) == windows
  {
    if requestedLen >= 16 {
      var millis := FromLe(windows);
      assert windows[..4] == windows;
      Widths();
      SplitMillis(millis);
      DecodesBack(millis / 1_000, millis % 1_000 * 1_000);
      EncodeDecode(windows);
    }
  }

  /** The guest's `timeval`: two 64-bit integers, seconds first. */
  function TimeVal(seconds: I64, micros: I64): (r: seq<Byte>)
  {
    Widths();
    ToLe(Unsigned(seconds, 8), 8) + ToLe(Unsigned(micros, 8), 8)
  }

  /**
   On bytes: every `timeval`, with anything after it, becomes the four bytes of its exact total
   in milliseconds, rounded up and clamped, unless it lies past the limit; shorter values pass
   unchanged.
   */
  lemma GuestTimeoutBytes(seconds: I64, micros: I64, more: seq<Byte>)
    ensures var guest := TimeVal(seconds, micros) + more;
            GuestToWindows(guest) == ToLe(Clamp(ExactMillis(seconds, micros), 0, 0xffff_ffff), 4) <==>
            micros <= MICROS_LIMIT || !(1 <= ExactMillis(seconds, micros) <= 0xffff_ffff)
    ensures var guest := TimeVal(seconds, micros) + more;
            |GuestToWindows(guest)| == 4 &&
            (0 <= seconds && 0 <= micros < 1_000_000 && (seconds > 0 || micros > 0) ==>
               FromLe(GuestToWindows(guest)) >= 1)
    ensures |more| < 16 ==> GuestToWindows(more) == more
  {
    var guest := TimeVal(seconds, micros) + more;
    Widths();
    assert guest[0..8] == ToLe(Unsigned(seconds, 8), 8) && guest[8..16] == ToLe(Unsigned(micros, 8), 8);
    DecodeEncode(Unsigned(seconds, 8), 8);
    DecodeEncode(Unsigned(micros, 8), 8);
    var code, exact := ToMillis(seconds, micros), Clamp(ExactMillis(seconds, micros), 0, 0xffff_ffff);
    assert GuestToWindows(guest) == ToLe(code, 4);
    DecodeEncode(code, 4);
    DecodeEncode(exact, 4);
    ConversionExactIff(seconds, micros);
    if 0 <= seconds && 0 <= micros < 1_000_000 && (seconds > 0 || micros > 0) {
      PositiveStaysPositive(seconds, micros);
    }
  }

  /** Back on bytes: whole seconds, and the rest in microseconds below one million; shorter requests pass unchanged. */
  lemma WindowsTimeoutBytes(windows: seq<Byte>, requestedLen: nat)
    requires |windows| >= 4
    ensures requestedLen >= 16 ==>
              var millis := FromLe(windows[..4]);
              exists s: nat, u: nat :: s <= U32_MAX && u < 1_000_000 && u % 1_000 == 0 && 1_000 * s + u / 1_000 == millis &&
                          WindowsToGuest(windows, requestedLen) == TimeVal(s, u)
    ensures requestedLen < 16 ==> WindowsToGuest(windows, requestedLen) == windows
  {
    Widths();
    var millis := FromLe(windows[..4]);
    var s, u := millis / 1_000, millis % 1_000 * 1_000;
    assert 1_000 * s + u / 1_000 == millis && u % 1_000 == 0;
    assert requestedLen >= 16 ==> WindowsToGuest(windows, requestedLen) == TimeVal(s, u);
  }
}
