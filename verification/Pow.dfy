/** src/core/pow.cpp and include/astro/core/pow.hpp: leading zero bits as a numeric target. */
module Pow {
  import opened Primitives

  // ---- Specification -------------------------------------------------------

  /** A byte string read as a big-endian number. */
  function BigEndian(s: Bytes): nat {
    if s == [] then 0 else s[0] * Pow2(8 * (|s| - 1)) + BigEndian(s[1..])
  }

  /** Leading zero bits of a non-zero byte. */
  function ByteZeros(x: Byte): (n: nat)
    requires x > 0
    ensures n < 8 && Pow2(7 - n) <= x < Pow2(8 - n)
  {
    assert Pow2(0) == 1 && Pow2(1) == 2 && Pow2(2) == 4 && Pow2(3) == 8 && Pow2(4) == 16;
    assert Pow2(5) == 32 && Pow2(6) == 64 && Pow2(7) == 128 && Pow2(8) == 256;
    if x >= 128 then 0 else if x >= 64 then 1 else if x >= 32 then 2 else if x >= 16 then 3
    else if x >= 8 then 4 else if x >= 4 then 5 else if x >= 2 then 6 else 7
  }

  function LeadingZeros(s: Bytes): (z: nat)
    ensures z <= 8 * |s|
  {
    if s == [] then 0
    else if s[0] == 0 then 8 + LeadingZeros(s[1..])
    else ByteZeros(s[0])
  }

  predicate MeetsDifficulty(bits: nat, hash: Hash256) {
    LeadingZeros(hash) >= bits
  }

  // ---- The two functions of the source -------------------------------------

  /** `ByteZeros` with its thresholds on 8-bit words. */
  function WordZeros(w: bv8): nat {
    if w >= 0x80 then 0 else if w >= 0x40 then 1 else if w >= 0x20 then 2 else if w >= 0x10 then 3
    else if w >= 0x08 then 4 else if w >= 0x04 then 5 else if w >= 0x02 then 6 else 7
  }

  lemma WordIsByte(x: Byte)
    requires x > 0
    ensures WordZeros(x as bv8) == ByteZeros(x)
  {
  }

  /** The masks and shifts of the source, on an 8-bit word that drops what it shifts out. */
  method LeadingZeroBitsOneByte(x: Byte) returns (n: nat)
    ensures n == if x == 0 then 8 else ByteZeros(x)
  {
    if x == 0 {
      return 8;
    }
    n := CountWord(x as bv8);
    WordIsByte(x);
  }

  method CountWord(word: bv8) returns (n: nat)
    ensures n == WordZeros(word)
  {
    var w := word;
    n := 0;
    if w & 0xF0 == 0 {
      n := n + 4;
      w := w << 4;
    }
    if w & 0xC0 == 0 {
      n := n + 2;
      w := w << 2;
    }
    if w & 0x80 == 0 {
      n := n + 1;
    }
  }

  method LeadingZeroBits(hash: Hash256) returns (z: nat)
    ensures z == LeadingZeros(hash)
  {
    z := 0;
    for i := 0 to |hash|
      invariant z + LeadingZeros(hash[i..]) == LeadingZeros(hash)
    {
      assert hash[i..][1..] == hash[i + 1..];
      if hash[i] == 0 {
        z := z + 8;
      } else {
        var n := LeadingZeroBitsOneByte(hash[i]);
        z := z + n;
        return;
      }
    }
  }

  // ---- The target ----------------------------------------------------------

  lemma {:induction false} PowSum(a: nat, b: nat)
    ensures Pow2(a + b) == Pow2(a) * Pow2(b)
    decreases b
  {
    if b > 0 {
      PowSum(a, b - 1);
    }
  }

  /** A leading digit between two bounds, over any remainder. */
  lemma DigitBounds(lo: nat, b: nat, hi: nat, m: nat, r: nat)
    requires lo <= b < hi && r < m
    ensures lo * m <= b * m + r < hi * m
  {
    MulMono(lo, b, m);
    MulMono(b + 1, hi, m);
  }

  lemma {:induction false} MulMono(x: nat, y: nat, m: nat)
    requires x <= y
    ensures x * m <= y * m
    decreases m
  {
    if m > 0 {
      MulMono(x, y, m - 1);
    }
  }

  lemma {:induction false} BigEndianBound(s: Bytes)
    ensures BigEndian(s) < Pow2(8 * |s|)
  {
    if s != [] {
      var m := 8 * (|s| - 1);
      BigEndianBound(s[1..]);
      PowSum(8, m);
      assert Pow2(8) == 256;
      DigitBounds(0, s[0], 256, Pow2(m), BigEndian(s[1..]));
    }
  }

  lemma {:induction false} PowMono(a: nat, b: nat)
    requires a <= b
    ensures Pow2(a) <= Pow2(b)
    decreases b
  {
    if a < b {
      PowMono(a, b - 1);
    }
  }

  lemma {:induction false} ZerosAreATarget(d: nat, s: Bytes)
    requires d <= 8 * |s|
    ensures LeadingZeros(s) >= d <==> BigEndian(s) < Pow2(8 * |s| - d)
    decreases |s|
  {
    if s != [] {
      var m := 8 * (|s| - 1);
      if s[0] == 0 {
        if d <= 8 {
          BigEndianBound(s[1..]);
          PowMono(m, 8 * |s| - d);
        } else {
          ZerosAreATarget(d - 8, s[1..]);
        }
      } else {
        var z := ByteZeros(s[0]);
        LeadingByteBounds(s);
        if d <= z {
          PowMono(m + 8 - z, 8 * |s| - d);
        } else {
          PowMono(8 * |s| - d, m + 7 - z);
        }
      }
    }
  }

  /** A non-zero first byte fixes the magnitude. */
  lemma LeadingByteBounds(s: Bytes)
    requires s != [] && s[0] != 0
    ensures var e := 8 * (|s| - 1) + 7 - ByteZeros(s[0]); Pow2(e) <= BigEndian(s) < Pow2(e + 1)
  {
    var m, z := 8 * (|s| - 1), ByteZeros(s[0]);
    BigEndianBound(s[1..]);
    PowSum(7 - z, m);
    PowSum(8 - z, m);
    DigitBounds(Pow2(7 - z), s[0], Pow2(8 - z), Pow2(m), BigEndian(s[1..]));
  }

  /** `meets_difficulty` is a comparison of the hash, read as a big-endian number, with
      2^(256-d); above 256 bits nothing qualifies. */
  lemma DifficultyIsATarget(d: nat, hash: Hash256)
    ensures MeetsDifficulty(d, hash) <==> d <= 256 && BigEndian(hash) < Pow2(256 - d)
  {
    if d <= 256 {
      ZerosAreATarget(d, hash);
    }
  }

  /** `n` bytes that open with exactly `d` zero bits. */
  function BytesWithZeros(n: nat, d: nat): (r: Bytes)
    ensures |r| == n
    decreases n
  {
    if n == 0 then []
    else if d >= 8 then [0] + BytesWithZeros(n - 1, d - 8)
    else [LeadingOne(d)] + BytesWithZeros(n - 1, 0)
  }

  /** The byte whose highest set bit is bit `7 - d`. */
  function LeadingOne(d: nat): (x: Byte)
    requires d < 8
    ensures x > 0 && ByteZeros(x) == d
  {
    [0x80, 0x40, 0x20, 0x10, 0x08, 0x04, 0x02, 0x01][d]
  }

  lemma {:induction false} BytesWithZerosCount(n: nat, d: nat)
    requires d <= 8 * n
    ensures LeadingZeros(BytesWithZeros(n, d)) == d
    decreases n
  {
    if n > 0 {
      var s := BytesWithZeros(n, d);
      if d >= 8 {
        BytesWithZerosCount(n - 1, d - 8);
        assert s[1..] == BytesWithZeros(n - 1, d - 8);
      }
    }
  }
}
