/** Bytes, fixed-width integers, and the two foreign services (SHA-256 and
    signature verification) that the rest of the model takes as parameters. */
module Primitives {

  type Byte = b: int | 0 <= b < 0x100
  type Bytes = seq<Byte>

  type U16 = n: int | 0 <= n < 0x1_0000
  type U32 = n: int | 0 <= n < 0x1_0000_0000
  type U64 = n: int | 0 <= n < 0x1_0000_0000_0000_0000

  const TWO_16: int := 0x1_0000
  const TWO_32: int := 0x1_0000_0000
  const TWO_64: int := 0x1_0000_0000_0000_0000

  /** 2^n. */
  function Pow2(n: nat): (r: nat)
    ensures r > 0
    ensures n > 0 ==> r % 2 == 0
  {
    if n == 0 then 1 else 2 * Pow2(n - 1)
  }

  type Hash256 = h: Bytes | |h| == 32 witness seq(32, _ => 0)

  const ZERO_HASH: Hash256 := [0, 0, 0, 0, 0, 0, 0, 0, 0, 0, 0, 0, 0, 0, 0, 0,
                               0, 0, 0, 0, 0, 0, 0, 0, 0, 0, 0, 0, 0, 0, 0, 0]

  /** `verify_message` returns true or false, or throws when the public key is unreadable. */
  datatype Verdict = Valid | Invalid | Throws

  /** The foreign services. Every statement of the project is quantified over this
      record, so it holds for every total hash function and every signature scheme. */
  datatype Crypto = Crypto(
    sha256: Bytes -> Hash256,
    verify: (Bytes, Bytes, Bytes) -> Verdict)

  /** Two different strings, one hashed by each of two computations, with one digest. */
  ghost predicate CollisionBetween(c: Crypto, xs: set<Bytes>, ys: set<Bytes>) {
    exists x, y :: x in xs && y in ys && x != y && c.sha256(x) == c.sha256(y)
  }

  lemma CollisionOf(c: Crypto, xs: set<Bytes>, ys: set<Bytes>, x: Bytes, y: Bytes)
    requires x in xs && y in ys && x != y && c.sha256(x) == c.sha256(y)
    ensures CollisionBetween(c, xs, ys)
  {
  }

  lemma CollisionGrows(c: Crypto, xs: set<Bytes>, ys: set<Bytes>, xs': set<Bytes>, ys': set<Bytes>)
    requires CollisionBetween(c, xs, ys) && xs <= xs' && ys <= ys'
    ensures CollisionBetween(c, xs', ys')
  {
  }

  /** The bytes of a label written in the source as a string literal. */
  function Ascii(s: string): (r: Bytes)
    ensures |r| == |s|
  {
    seq(|s|, i requires 0 <= i < |s| => s[i] as int % 0x100)
  }
}
