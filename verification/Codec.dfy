/** include/astro/core/serializer.hpp: the little-endian writer and reader. */
module Codec {
  import opened Primitives

  // ---- Specification -------------------------------------------------------

  function Pow256(n: nat): (r: nat)
    ensures r > 0
  {
    if n == 0 then 1 else 256 * Pow256(n - 1)
  }

  /** Byte `i` of `v`: the source's `(v >> (8*i)) & 0xFF`. */
  function ByteAt(v: nat, i: nat): Byte { (v / Pow256(i)) % 256 }

  /** The low `n` bytes of `v`, least significant first. */
  function Le(v: nat, n: nat): (r: Bytes)
    ensures |r| == n
  {
    seq(n, i requires 0 <= i => ByteAt(v, i))
  }

  /** The number that a byte string denotes, least significant byte first. */
  function FromLe(s: Bytes): (v: nat)
    ensures v < Pow256(|s|)
  {
    if s == [] then 0 else s[0] + 256 * FromLe(s[1..])
  }

  function U32Bytes(v: nat): Bytes { Le(v, 4) }

  function U64Bytes(v: nat): Bytes { Le(v, 8) }

  /** A length cast to 32 bits, then the content. */
  function Prefixed(b: Bytes): Bytes { U32Bytes(|b| % TWO_32) + b }

  /** Reading from the front of the unread bytes; `Truncated` stands for `SerializeError`. */
  datatype Parsed<+T> = Parsed(value: T, rest: Bytes) | Truncated

  function ReadLe(n: nat, s: Bytes): (r: Parsed<nat>)
    ensures r.Parsed? ==> r.value < Pow256(n)
  {
    if |s| < n then Truncated else Parsed(FromLe(s[..n]), s[n..])
  }

  function ReadPrefixed(s: Bytes): Parsed<Bytes> {
    var len := ReadLe(4, s);
    if len.Truncated? || |len.rest| < len.value then Truncated
    else Parsed(len.rest[..len.value], len.rest[len.value..])
  }

  // ---- Round trips ---------------------------------------------------------

  /** Dropping the first byte divides by 256. */
  lemma LeTail(v: nat, n: nat)
    requires n > 0
    ensures Le(v, n) == [v % 256] + Le(v / 256, n - 1)
  {
    var t := [v % 256] + Le(v / 256, n - 1);
    forall i | 0 <= i < n
      ensures Le(v, n)[i] == t[i]
    {
      if i == 0 {
        assert Pow256(0) == 1;
      } else {
        ByteFirst(v, Pow256(i - 1));
      }
    }
  }

  /** Quotient and remainder by 256 * m, taken one byte first. */
  lemma ByteFirst(v: nat, m: nat)
    requires m > 0
    ensures v / (256 * m) == (v / 256) / m
    ensures v % (256 * m) == v % 256 + 256 * ((v / 256) % m)
  {
    var q, r := (v / 256) / m, (v / 256) % m;
    assert v / 256 == m * q + r;
    assert v == (256 * m) * q + (256 * r + v % 256) by {
      assert 256 * (m * q) == (256 * m) * q;
    }
    DivModUnique(v, 256 * m, q, 256 * r + v % 256);
  }

  lemma {:induction false} LeRoundTrip(v: nat, n: nat)
    ensures FromLe(Le(v, n)) == v % Pow256(n)
    decreases n
  {
    if n > 0 {
      LeTail(v, n);
      LeRoundTrip(v / 256, n - 1);
      assert Le(v, n)[1..] == Le(v / 256, n - 1);
      ByteFirst(v, Pow256(n - 1));
    }
  }

  lemma DivModUnique(v: nat, m: nat, q: nat, r: nat)
    requires m > 0 && v == m * q + r && r < m
    ensures v % m == r && v / m == q
  {
    var d := v / m - q;
    assert m * d == r - v % m;
    MultipleOf(m, d);
  }

  lemma MultipleOf(m: int, d: int)
    requires m >= 0
    ensures d >= 1 ==> m * d >= m
    ensures d <= -1 ==> m * d <= -m
  {
  }

  /** Every byte string is the encoding of the number it denotes. */
  lemma {:induction false} LeSurjective(s: Bytes)
    ensures Le(FromLe(s), |s|) == s
  {
    if s != [] {
      LeSurjective(s[1..]);
      LeTail(FromLe(s), |s|);
      assert FromLe(s) % 256 == s[0] && FromLe(s) / 256 == FromLe(s[1..]);
    }
  }

  lemma ReadLeWritten(v: nat, n: nat, rest: Bytes)
    requires v < Pow256(n)
    ensures ReadLe(n, Le(v, n) + rest) == Parsed(v, rest)
  {
    LeRoundTrip(v, n);
    DivModUnique(v, Pow256(n), 0, v);
    var s := Le(v, n) + rest;
    assert s[..n] == Le(v, n) && s[n..] == rest;
  }

  /** A prefixed string comes back cut to its length modulo 2^32. */
  lemma ReadPrefixedCut(b: Bytes, rest: Bytes)
    ensures var len := |b| % TWO_32;
            ReadPrefixed(Prefixed(b) + rest) == Parsed(b[..len], (b + rest)[len..])
  {
    hide ReadLe, Le;
    var len := |b| % TWO_32;
    assert Pow256(4) == TWO_32;
    ReadLeWritten(len, 4, b + rest);
    Assoc(U32Bytes(len), b, rest);
    assert (b + rest)[..len] == b[..len];
  }

  /** A prefixed string reads back exactly when its length fits in 32 bits. */
  lemma ReadPrefixedWritten(b: Bytes, rest: Bytes)
    ensures ReadPrefixed(Prefixed(b) + rest) == Parsed(b, rest) <==> |b| < TWO_32
  {
    hide ReadPrefixed, Prefixed;
    ReadPrefixedCut(b, rest);
    if |b| < TWO_32 {
      assert b[..|b|] == b && (b + rest)[|b|..] == rest;
    }
  }

  lemma Assoc(x: Bytes, y: Bytes, z: Bytes)
    ensures (x + y) + z == x + (y + z)
  {
  }

  // ---- The writer and the reader -------------------------------------------

  class ByteWriter {
    var buffer: Bytes

    constructor ()
      ensures buffer == []
    {
      buffer := [];
    }

    method WriteU8(value: Byte)
      modifies this
      ensures buffer == old(buffer) + [value]
    {
      buffer := buffer + [value];
    }

    method WriteU32(value: U32)
      modifies this
      ensures buffer == old(buffer) + U32Bytes(value)
    {
      WriteLeValue(value, 4);
    }

    method WriteU64(value: U64)
      modifies this
      ensures buffer == old(buffer) + U64Bytes(value)
    {
      WriteLeValue(value, 8);
    }

    method WriteRaw(bytes: Bytes)
      modifies this
      ensures buffer == old(buffer) + bytes
    {
      buffer := buffer + bytes;
    }

    method WriteBytes(bytes: Bytes)
      modifies this
      ensures buffer == old(buffer) + Prefixed(bytes)
    {
      WriteU32(|bytes| % TWO_32);
      buffer := buffer + bytes;
      Assoc(old(buffer), U32Bytes(|bytes| % TWO_32), bytes);
    }

    /** The loop over `sizeof(T)`. */
    method WriteLeValue(value: nat, size: nat)
      modifies this
      ensures buffer == old(buffer) + Le(value, size)
    {
      for i := 0 to size
        invariant buffer == old(buffer) + Le(value, size)[..i]
      {
        assert Le(value, size)[i] == ByteAt(value, i);
        buffer := buffer + [ByteAt(value, i)];
      }
      assert Le(value, size)[..size] == Le(value, size);
    }
  }

  class ByteReader {
    const src: Bytes
    var pos: nat

    constructor (src: Bytes)
      ensures Valid() && this.src == src && Unread() == src
    {
      this.src, pos := src, 0;
    }

    ghost predicate Valid()
      reads this
    {
      pos <= |src|
    }

    ghost function Unread(): Bytes
      requires Valid()
      reads this
    {
      src[pos..]
    }

    /** The outcome agrees with the specification, and on success the cursor is past it. */
    ghost predicate Advanced<T>(spec: Parsed<T>, ok: bool, value: T)
      requires Valid()
      reads this
    {
      && (ok <==> spec.Parsed?)
      && (ok ==> value == spec.value && Unread() == spec.rest)
    }

    method ReadLeValue(size: nat) returns (ok: bool, value: nat)
      requires Valid()
      modifies this
      ensures Valid() && Advanced(ReadLe(size, old(Unread())), ok, value)
    {
      hide FromLe;
      value := 0;
      ok := |src| - pos >= size;
      if ok {
        ghost var start := pos;
        ghost var field := src[start..start + size];
        var scale := 1;
        assert field[0..] == field;
        for i := 0 to size
          invariant pos == start + i && Valid()
          invariant scale == Pow256(i)
          invariant value + scale * FromLe(field[i..]) == FromLe(field)
        {
          FromLeStep(field[i..], scale);
          assert field[i..][1..] == field[i + 1..];
          value := value + src[pos] * scale;
          scale := 256 * scale;
          pos := pos + 1;
        }
        FromLeEmpty();
        assert field[size..] == [];
        assert old(Unread())[..size] == field;
      }
    }

    method ReadBytes() returns (ok: bool, value: Bytes)
      requires Valid()
      modifies this
      ensures Valid() && Advanced(ReadPrefixed(old(Unread())), ok, value)
    {
      value := [];
      var len;
      ok, len := ReadLeValue(4);
      if ok {
        ok := len <= |src| - pos;
        if ok {
          value := src[pos..pos + len];
          assert Unread()[..len] == value;
          pos := pos + len;
        }
      }
    }
  }

  lemma FromLeEmpty()
    ensures FromLe([]) == 0
  {
  }

  lemma FromLeStep(s: Bytes, scale: nat)
    requires s != []
    ensures scale * FromLe(s) == s[0] * scale + (256 * scale) * FromLe(s[1..])
  {
    hide FromLe;
    FromLeUnfold(s);
    Distribute(scale, s[0], FromLe(s[1..]));
  }

  lemma FromLeUnfold(s: Bytes)
    requires s != []
    ensures FromLe(s) == s[0] + 256 * FromLe(s[1..])
  {
  }

  lemma Distribute(m: nat, x: nat, y: nat)
    ensures m * (x + 256 * y) == x * m + (256 * m) * y
  {
  }
}
