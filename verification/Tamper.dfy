/** Tamper evidence: what a tip hash commits to (src/core/chain.cpp, src/core/block.cpp,
    src/core/transaction.cpp and src/core/merkle.cpp together). */
module Tamper {
  import opened Primitives
  import opened Ledger
  import opened ChainCore
  import Merkle
  import Pow

  /** The strings hashed for a list of transactions: its tree and its signing bytes. */
  ghost function TxsInputs(c: Crypto, txs: seq<Transaction>): set<Bytes> {
    Merkle.RootInputs(c, Leaves(c, txs)) + (set i | 0 <= i < |txs| :: SigningBytes(txs[i]))
  }

  /** The strings hashed when a block is validated and linked. */
  ghost function BlockInputs(c: Crypto, b: Block): set<Bytes> {
    {HeaderBytes(b.header)} + TxsInputs(c, b.transactions)
  }

  ghost function ChainInputs(c: Crypto, blocks: seq<Block>): set<Bytes>
    decreases |blocks|
  {
    if blocks == [] then {}
    else ChainInputs(c, blocks[..|blocks| - 1]) + BlockInputs(c, Tip(blocks))
  }

  /** Some block other than the tip has a header whose digest is all zeros. */
  ghost predicate ZeroInside(c: Crypto, blocks: seq<Block>) {
    exists i :: 0 <= i < |blocks| - 1 && HeaderHash(c, blocks[i].header) == ZERO_HASH
  }

  /** The two lists are signed field for field alike. */
  ghost predicate SignedAlike(a: seq<Transaction>, b: seq<Transaction>) {
    |a| == |b| && forall i :: 0 <= i < |a| ==> SigningBytes(a[i]) == SigningBytes(b[i])
  }

  /** Links and Merkle roots hold, and the first block points at zeros. */
  ghost predicate Linked(c: Crypto, blocks: seq<Block>) {
    && (blocks != [] ==> blocks[0].header.prevHash == ZERO_HASH)
    && (forall i :: 0 < i < |blocks| ==> blocks[i].header.prevHash == HeaderHash(c, blocks[i - 1].header))
    && (forall i :: 0 <= i < |blocks| ==> blocks[i].header.merkleRoot == MerkleRoot(c, blocks[i].transactions))
  }

  // ---- What a Merkle root commits to ---------------------------------------

  function Digest(c: Crypto, s: Bytes): Hash256 { c.sha256(s) }

  function Digests(c: Crypto, strings: seq<Bytes>): (r: seq<Hash256>)
    ensures |r| == |strings|
  {
    seq(|strings|, i requires 0 <= i < |strings| => Digest(c, strings[i]))
  }

  function Signings(txs: seq<Transaction>): (r: seq<Bytes>)
    ensures |r| == |txs|
  {
    seq(|txs|, i requires 0 <= i < |txs| => SigningBytes(txs[i]))
  }

  /** The strings whose digests are the nodes `d` levels above the leaves: signing bytes at the
      bottom, pairs of digests above. */
  ghost function Strings(c: Crypto, txs: seq<Transaction>, d: nat): seq<Bytes> {
    if d == 0 then Signings(txs) else Merkle.Pairs(Merkle.Ascend(c, Leaves(c, txs), d - 1))
  }

  lemma StringsHash(c: Crypto, txs: seq<Transaction>, d: nat)
    ensures Merkle.Ascend(c, Leaves(c, txs), d) == Digests(c, Strings(c, txs, d))
  {
    hide SigningBytes, Merkle.Ascend, Merkle.PairAt;
    Merkle.AscendUnfold(c, Leaves(c, txs), d);
    if d > 0 {
      Merkle.AscendOnce(c, Leaves(c, txs), d - 1);
      PairsHash(c, Merkle.Ascend(c, Leaves(c, txs), d - 1));
    } else {
      assert Leaves(c, txs) == Digests(c, Signings(txs));
    }
  }

  lemma PairsHash(c: Crypto, level: seq<Hash256>)
    ensures Merkle.NextLevel(c, level) == Digests(c, Merkle.Pairs(level))
  {
    hide Merkle.PairAt;
  }

  /** Those of every level below the root are among the strings hashed for the list. */
  lemma StringsAreInputs(c: Crypto, txs: seq<Transaction>, d: nat, i: nat)
    requires txs != [] && d <= Merkle.Height(|txs|) && i < |Strings(c, txs, d)|
    ensures Strings(c, txs, d)[i] in TxsInputs(c, txs)
    ensures d > 0 ==> |Strings(c, txs, d)[i]| == 64
  {
    hide SigningBytes, Merkle.Ascend, Merkle.Height, Merkle.TreeInputs;
    Merkle.HeightFits(|txs|);
    if d > 0 {
      Merkle.PairsAreInputs(c, Leaves(c, txs), Merkle.Height(|txs|), d - 1, i);
    }
  }

  lemma {:induction false} ExpandDigests(c: Crypto, s: seq<Bytes>, h: nat)
    requires 0 < |s| <= Pow2(h)
    ensures Merkle.Expand(Digests(c, s), h) == Digests(c, Merkle.Expand(s, h))
    decreases h
  {
    hide *;
    if h == 0 {
      Merkle.ExpandNone(s);
      Merkle.ExpandNone(Digests(c, s));
    } else {
      var l, r := Merkle.LeftHalf(s, h), Merkle.RightHalf(s, h);
      Merkle.ExpandUnfold(s, h);
      ExpandDigests(c, l, h - 1);
      ExpandDigests(c, r, h - 1);
      HalvesOfDigests(c, s, h);
      Merkle.ExpandUnfold(Digests(c, s), h);
      DigestsConcat(c, Merkle.Expand(l, h - 1), Merkle.Expand(r, h - 1));
    }
  }

  lemma HalvesOfDigests(c: Crypto, s: seq<Bytes>, h: nat)
    requires h > 0 && s != []
    ensures Merkle.LeftHalf(Digests(c, s), h) == Digests(c, Merkle.LeftHalf(s, h))
    ensures Merkle.RightHalf(Digests(c, s), h) == Digests(c, Merkle.RightHalf(s, h))
  {
    hide Pow2;
  }

  lemma DigestsConcat(c: Crypto, a: seq<Bytes>, b: seq<Bytes>)
    ensures Digests(c, a + b) == Digests(c, a) + Digests(c, b)
  {
  }

  ghost predicate NoClash(c: Crypto, a: seq<Bytes>, b: seq<Bytes>) {
    forall x, y :: x in a && y in b && c.sha256(x) == c.sha256(y) ==> x == y
  }

  /** Digests agree once expanded exactly when the strings do, unless two of these collide. */
  lemma DigestsExpandAlike(c: Crypto, a: seq<Bytes>, b: seq<Bytes>, h: nat)
    requires 0 < |a| <= Pow2(h) && 0 < |b| <= Pow2(h)
    requires NoClash(c, a, b)
    ensures Merkle.ExpandAlike(Digests(c, a), Digests(c, b), h) <==> Merkle.ExpandAlike(a, b, h)
  {
    hide Merkle.Expand, Pow2;
    var ea, eb := Merkle.Expand(a, h), Merkle.Expand(b, h);
    ExpandDigests(c, a, h);
    ExpandDigests(c, b, h);
    forall i | 0 <= i < |ea|
      ensures Digests(c, ea)[i] == Digests(c, eb)[i] <==> ea[i] == eb[i]
    {
      Merkle.ExpandElements(a, h, i);
      Merkle.ExpandElements(b, h, i);
    }
  }

  /** Exactly when two lists share a root. For non-empty lists of any two lengths, and no
      collision between the strings hashed for them, the roots agree if and only if the strings
      hashed at the height of the lower tree's leaves are, duplicates written out, the same:
      the lower list's signing bytes, and in the taller tree signing bytes or pairs. */
  lemma RootsAgreeIffStringsAgree(c: Crypto, a: seq<Transaction>, b: seq<Transaction>)
    requires a != [] && b != [] && Merkle.Height(|a|) >= Merkle.Height(|b|)
    requires !CollisionBetween(c, TxsInputs(c, a), TxsInputs(c, b))
    ensures MerkleRoot(c, a) == MerkleRoot(c, b)
       <==> Merkle.ExpandAlike(Strings(c, a, Merkle.Height(|a|) - Merkle.Height(|b|)), Signings(b), Merkle.Height(|b|))
  {
    hide *;
    var h, d := Merkle.Height(|b|), Merkle.Height(|a|) - Merkle.Height(|b|);
    var la, lb := Leaves(c, a), Leaves(c, b);
    RootOverLeaves(c, a, b);
    Merkle.RootsAgreeAcrossHeights(c, la, lb);
    StringsHash(c, a, d);
    Merkle.HeightFits(|a|);
    Merkle.HeightFits(|b|);
    Merkle.AscendTree(c, la, Merkle.Height(|a|), d);
    StringsNoClash(c, a, b, d);
    DigestsExpandAlike(c, Strings(c, a, d), Signings(b), h);
  }

  lemma RootOverLeaves(c: Crypto, a: seq<Transaction>, b: seq<Transaction>)
    requires !CollisionBetween(c, TxsInputs(c, a), TxsInputs(c, b))
    ensures !CollisionBetween(c, Merkle.RootInputs(c, Leaves(c, a)), Merkle.RootInputs(c, Leaves(c, b)))
    ensures MerkleRoot(c, a) == Merkle.RootOf(c, Leaves(c, a)) && MerkleRoot(c, b) == Merkle.RootOf(c, Leaves(c, b))
    ensures Leaves(c, b) == Digests(c, Signings(b))
  {
    hide Merkle.RootInputs, Merkle.RootOf, SigningBytes;
    var xs, ys := Merkle.RootInputs(c, Leaves(c, a)), Merkle.RootInputs(c, Leaves(c, b));
    if CollisionBetween(c, xs, ys) {
      CollisionGrows(c, xs, ys, TxsInputs(c, a), TxsInputs(c, b));
    }
  }

  lemma StringsNoClash(c: Crypto, a: seq<Transaction>, b: seq<Transaction>, d: nat)
    requires a != [] && d <= Merkle.Height(|a|) && !CollisionBetween(c, TxsInputs(c, a), TxsInputs(c, b))
    ensures NoClash(c, Strings(c, a, d), Signings(b))
  {
    hide Merkle.Height, Strings, Merkle.RootInputs, SigningBytes;
    forall x, y | x in Strings(c, a, d) && y in Signings(b) && c.sha256(x) == c.sha256(y)
      ensures x == y
    {
      var i :| 0 <= i < |Strings(c, a, d)| && Strings(c, a, d)[i] == x;
      StringsAreInputs(c, a, d, i);
      assert y in TxsInputs(c, b);
    }
  }

  /** Every signing string of the list is as long as a pair of digests, so that its digest can
      be taken for an inner node. */
  predicate InnerSized(txs: seq<Transaction>) {
    txs != [] && forall i :: 0 <= i < |txs| ==> 38 + |txs[i].fromPubPem| + |txs[i].toLabel| == 64
  }

  /** The tree of `b` is lower than that of `a`, and `b` could stand for one of its levels. */
  ghost predicate StandsFor(b: seq<Transaction>, a: seq<Transaction>) {
    a != [] && InnerSized(b) && Merkle.Height(|a|) > Merkle.Height(|b|)
  }

  /** Both lists are empty, or both have the same signing bytes in trees of one height once the
      tree's duplicates are written out. */
  ghost predicate SignedSame(a: seq<Transaction>, b: seq<Transaction>) {
    if a == [] || b == [] then a == b
    else Merkle.Height(|a|) == Merkle.Height(|b|) && Merkle.ExpandAlike(Signings(a), Signings(b), Merkle.Height(|a|))
  }

  /** What one root leaves open between two lists. */
  ghost predicate Bound(a: seq<Transaction>, b: seq<Transaction>) {
    SignedSame(a, b) || StandsFor(a, b) || StandsFor(b, a)
  }

  /** A list whose root is that of a list with a taller tree is inner-sized throughout. */
  lemma LowerListIsInnerSized(c: Crypto, a: seq<Transaction>, b: seq<Transaction>)
    requires a != [] && b != [] && Merkle.Height(|a|) > Merkle.Height(|b|)
    requires !CollisionBetween(c, TxsInputs(c, a), TxsInputs(c, b)) && MerkleRoot(c, a) == MerkleRoot(c, b)
    ensures InnerSized(b)
  {
    hide Merkle.Height, MerkleRoot, Merkle.Expand, TxsInputs, Strings, SigningBytes, CollisionBetween, Pow2;
    var h, d := Merkle.Height(|b|), Merkle.Height(|a|) - Merkle.Height(|b|);
    RootsAgreeIffStringsAgree(c, a, b);
    var upper, lower := Strings(c, a, d), Signings(b);
    Merkle.ExpandStarts(lower, h);
    forall i | 0 <= i < |b|
      ensures 38 + |b[i].fromPubPem| + |b[i].toLabel| == 64
    {
      assert lower[i] == Merkle.Expand(lower, h)[..|lower|][i] == Merkle.Expand(upper, h)[i];
      Merkle.ExpandElements(upper, h, i);
      var k :| 0 <= k < |upper| && upper[k] == lower[i];
      StringsAreInputs(c, a, d, k);
      SigningLength(b[i]);
    }
  }

  lemma SigningLength(tx: Transaction)
    ensures |SigningBytes(tx)| == 38 + |tx.fromPubPem| + |tx.toLabel|
  {
    TxBytesLength(tx.(signature := []));
  }

  /** The root of an empty list belongs to no other list. */
  lemma EmptyRootIsAlone(c: Crypto, a: seq<Transaction>)
    requires a != [] && MerkleRoot(c, a) == MerkleRoot(c, [])
    ensures CollisionBetween(c, TxsInputs(c, a), TxsInputs(c, []))
    ensures CollisionBetween(c, TxsInputs(c, []), TxsInputs(c, a))
  {
    hide SigningBytes;
    var s, h := Leaves(c, a), Merkle.Height(|a|);
    var x := Merkle.Concat(Merkle.Tree(c, Merkle.LeftHalf(s, h), h - 1), Merkle.Tree(c, Merkle.RightHalf(s, h), h - 1));
    assert x in Merkle.TreeInputs(c, s, h);
    assert Leaves(c, []) == [];
    CollisionOf(c, TxsInputs(c, a), TxsInputs(c, []), x, []);
    CollisionOf(c, TxsInputs(c, []), TxsInputs(c, a), [], x);
  }

  /** One root, and no collision, leaves nothing open but what `Bound` says. */
  lemma RootsBind(c: Crypto, a: seq<Transaction>, b: seq<Transaction>)
    requires !CollisionBetween(c, TxsInputs(c, a), TxsInputs(c, b)) && MerkleRoot(c, a) == MerkleRoot(c, b)
    ensures Bound(a, b)
  {
    hide MerkleRoot, TxsInputs, InnerSized, Merkle.ExpandAlike, Merkle.Height, Signings, CollisionBetween;
    if a == [] || b == [] {
      if a != [] {
        EmptyRootIsAlone(c, a);
      } else if b != [] {
        EmptyRootIsAlone(c, b);
      }
    } else if Merkle.Height(|a|) > Merkle.Height(|b|) {
      LowerListIsInnerSized(c, a, b);
    } else if Merkle.Height(|a|) < Merkle.Height(|b|) {
      CollisionSymmetric(c, TxsInputs(c, b), TxsInputs(c, a));
      LowerListIsInnerSized(c, b, a);
    } else {
      RootsAgreeIffStringsAgree(c, a, b);
    }
  }

  lemma CollisionSymmetric(c: Crypto, xs: set<Bytes>, ys: set<Bytes>)
    ensures CollisionBetween(c, xs, ys) <==> CollisionBetween(c, ys, xs)
  {
  }

  /** What a root does commit to. For any two lists, the empty ones included, of which the one
      with the lower tree, if any, is not inner-sized, and no collision between the strings
      hashed for them, the roots agree if and only if the lists have the same signing bytes
      once the tree's duplicates are written out. */
  lemma RootsAgreeIffSignedSame(c: Crypto, a: seq<Transaction>, b: seq<Transaction>)
    requires !StandsFor(a, b) && !StandsFor(b, a)
    requires !CollisionBetween(c, TxsInputs(c, a), TxsInputs(c, b))
    ensures MerkleRoot(c, a) == MerkleRoot(c, b) <==> SignedSame(a, b)
  {
    hide MerkleRoot, TxsInputs, StandsFor, Merkle.ExpandAlike, Merkle.Height, Signings, CollisionBetween;
    if MerkleRoot(c, a) == MerkleRoot(c, b) {
      RootsBind(c, a, b);
    }
    if SignedSame(a, b) && a != [] {
      RootsAgreeIffStringsAgree(c, a, b);
    }
  }

  /** Lists of one length that share a root are signed alike. */
  lemma BoundSameCount(a: seq<Transaction>, b: seq<Transaction>)
    requires Bound(a, b) && |a| == |b|
    ensures SignedAlike(a, b)
  {
    hide Merkle.Height, Merkle.Expand, SigningBytes, Pow2;
    if a != [] {
      var h, sa, sb := Merkle.Height(|a|), Signings(a), Signings(b);
      Merkle.ExpandStarts(sa, h);
      Merkle.ExpandStarts(sb, h);
      assert sa == sb;
      assert forall i :: 0 <= i < |a| ==> sa[i] == SigningBytes(a[i]) && sb[i] == SigningBytes(b[i]);
    }
  }

  /** The trees of a four-leaf list that repeats its first half, and of a single leaf. */
  lemma FourAndOne(c: Crypto, x: Hash256, y: Hash256, z: Hash256)
    requires z == c.sha256(x + y)
    ensures Merkle.RootOf(c, [x, y, x, y]) == Merkle.RootOf(c, [z]) == c.sha256(z + z)
    ensures Merkle.RootInputs(c, [x, y, x, y]) == {x + y, z + z} && Merkle.RootInputs(c, [z]) == {z + z}
  {
    assert Pow2(0) == 1 && Pow2(1) == 2 && Pow2(2) == 4;
    assert Merkle.CeilLog2(4) == 2;
    var four := [x, y, x, y];
    assert four[..2] == [x, y] == four[2..];
    PairTree(c, x, y);
    assert Merkle.Tree(c, four, 2) == Merkle.HashPair(c, z, z);
    assert Merkle.Tree(c, [z], 1) == Merkle.HashPair(c, z, z);
  }

  lemma PairTree(c: Crypto, x: Hash256, y: Hash256)
    ensures Merkle.Tree(c, [x, y], 1) == c.sha256(x + y) && Merkle.TreeInputs(c, [x, y], 1) == {x + y}
  {
    assert Pow2(0) == 1;
    assert [x, y][..1] == [x] && [x, y][1..] == [y];
  }

  /** The exception is real: for every transaction whose signing string is 64 bytes long there
      are a hash function and four other transactions with the same root and no collision. */
  lemma InnerSizedExample(t: Transaction) returns (c: Crypto, a: seq<Transaction>)
    requires InnerSized([t])
    ensures |a| == 4 && MerkleRoot(c, a) == MerkleRoot(c, [t])
    ensures !CollisionBetween(c, TxsInputs(c, a), TxsInputs(c, [t]))
  {
    hide SigningBytes, InnerSized, Merkle.RootOf, Merkle.RootInputs, Coinbase, CollisionBetween, TxsInputs, Leaves;
    var a0, a1 := Coinbase([]), Coinbase([0]);
    var s, s0, s1 := SigningBytes(t), SigningBytes(a0), SigningBytes(a1);
    ExampleLengths(t);
    var x: Hash256, y: Hash256 := s[..32], s[32..];
    var p := if x[0] != 0 && y[0] != 0 then 0 else if x[0] != 1 && y[0] != 1 then 1 else 2;
    var q := if x[0] != 3 && y[0] != 3 then 3 else if x[0] != 4 && y[0] != 4 then 4 else 5;
    var z: Hash256, top: Hash256 := seq(32, _ => p), seq(32, _ => q);
    c := Crypto(m => if m == s0 then x else if m == s1 then y else if m == s then z else top, (k, m, g) => Valid);
    a := [a0, a1, a0, a1];
    assert x + y == s && (z + z)[0] == z[0];
    FourAndOne(c, x, y, z);
    ExampleInputs(c, a0, a1, t, x, y, z);
    DistinctDigests(c, s0, s1, s, z + z);
  }

  lemma ExampleLengths(t: Transaction)
    requires InnerSized([t])
    ensures |SigningBytes(t)| == 64 && |SigningBytes(Coinbase([]))| == 38 && |SigningBytes(Coinbase([0]))| == 39
  {
    hide SigningBytes;
    assert [t][0] == t;
    SigningLength(t);
    SigningLength(Coinbase([]));
    SigningLength(Coinbase([0]));
  }

  lemma ExampleInputs(c: Crypto, a0: Transaction, a1: Transaction, t: Transaction, x: Hash256, y: Hash256, z: Hash256)
    requires TxHash(c, a0) == x && TxHash(c, a1) == y && TxHash(c, t) == z && SigningBytes(t) == x + y
    ensures Leaves(c, [a0, a1, a0, a1]) == [x, y, x, y] && Leaves(c, [t]) == [z]
    ensures TxsInputs(c, [a0, a1, a0, a1])
         == Merkle.RootInputs(c, [x, y, x, y]) + {SigningBytes(a0), SigningBytes(a1)}
    ensures TxsInputs(c, [t]) == Merkle.RootInputs(c, [z]) + {SigningBytes(t)}
  {
    hide SigningBytes, TxHash, Merkle.RootInputs;
    var a := [a0, a1, a0, a1];
    assert Leaves(c, a) == [x, y, x, y];
    assert Leaves(c, [t]) == [z];
    assert (set i | 0 <= i < |a| :: SigningBytes(a[i])) == {SigningBytes(a0), SigningBytes(a1)} by {
      assert SigningBytes(a[0]) == SigningBytes(a0) && SigningBytes(a[1]) == SigningBytes(a1);
    }
    assert (set i | 0 <= i < |[t]| :: SigningBytes([t][i])) == {SigningBytes(t)} by {
      assert SigningBytes([t][0]) == SigningBytes(t);
    }
  }

  lemma DistinctDigests(c: Crypto, s0: Bytes, s1: Bytes, s: Bytes, top: Bytes)
    requires c.sha256(s) != c.sha256(top)
    requires c.sha256(s0) != c.sha256(s) && c.sha256(s0) != c.sha256(top)
    requires c.sha256(s1) != c.sha256(s) && c.sha256(s1) != c.sha256(top)
    ensures !CollisionBetween(c, {s, top} + {s0, s1}, {top} + {s})
  {
  }

  // ---- Blocks and chains ---------------------------------------------------

  lemma LinkedPrefix(c: Crypto, blocks: seq<Block>, n: nat)
    requires Linked(c, blocks) && n <= |blocks|
    ensures Linked(c, blocks[..n])
  {
    hide HeaderHash, MerkleRoot;
  }

  /** Equal roots: bound transactions, the same signed bytes if they are equally many, or a
      collision. */
  lemma TransactionsBound(c: Crypto, a: Block, b: Block)
    requires MerkleRoot(c, a.transactions) == MerkleRoot(c, b.transactions)
    ensures TxsAgree(a, b) || CollisionBetween(c, BlockInputs(c, a), BlockInputs(c, b))
  {
    hide HeaderBytes, MerkleRoot, TxsInputs, Bound, SignedAlike, CollisionBetween;
    if CollisionBetween(c, TxsInputs(c, a.transactions), TxsInputs(c, b.transactions)) {
      CollisionGrows(c, TxsInputs(c, a.transactions), TxsInputs(c, b.transactions), BlockInputs(c, a), BlockInputs(c, b));
    } else {
      RootsBind(c, a.transactions, b.transactions);
      if |a.transactions| == |b.transactions| {
        BoundSameCount(a.transactions, b.transactions);
      }
    }
  }

  ghost predicate TxsAgree(a: Block, b: Block) {
    && Bound(a.transactions, b.transactions)
    && (|a.transactions| == |b.transactions| ==> SignedAlike(a.transactions, b.transactions))
  }

  /** Equal header hashes: equal headers and bound transactions, or a collision. */
  lemma BlocksBound(c: Crypto, a: Block, b: Block)
    requires a.header.merkleRoot == MerkleRoot(c, a.transactions)
    requires b.header.merkleRoot == MerkleRoot(c, b.transactions)
    requires HeaderHash(c, a.header) == HeaderHash(c, b.header)
    ensures (a.header == b.header && TxsAgree(a, b))
         || CollisionBetween(c, BlockInputs(c, a), BlockInputs(c, b))
  {
    hide MerkleRoot, TxsAgree, TxsInputs, HeaderBytes;
    var x, y := HeaderBytes(a.header), HeaderBytes(b.header);
    assert x in BlockInputs(c, a) && y in BlockInputs(c, b);
    if x == y {
      HeaderBytesInjective(a.header, b.header);
      TransactionsBound(c, a, b);
    }
  }

  /** The chains agree: same height, same headers, and in each pair of blocks transactions that
      are bound to one another, signed alike where they are equally many. */
  ghost predicate Agree(a: seq<Block>, b: seq<Block>) {
    && |a| == |b|
    && forall i :: 0 <= i < |a| ==> a[i].header == b[i].header && TxsAgree(a[i], b[i])
  }

  lemma {:induction false} LinkedTamperEvidence(c: Crypto, a: seq<Block>, b: seq<Block>)
    requires Linked(c, a) && Linked(c, b) && a != [] && b != []
    requires HeaderHash(c, Tip(a).header) == HeaderHash(c, Tip(b).header)
    ensures Agree(a, b) || CollisionBetween(c, ChainInputs(c, a), ChainInputs(c, b))
         || ZeroInside(c, a) || ZeroInside(c, b)
    decreases |a|
  {
    hide HeaderHash, MerkleRoot, TxsAgree, BlockInputs;
    var m, n := |a| - 1, |b| - 1;
    var a', b' := a[..m], b[..n];
    BlocksBound(c, Tip(a), Tip(b));
    if CollisionBetween(c, BlockInputs(c, Tip(a)), BlockInputs(c, Tip(b))) {
      CollisionGrows(c, BlockInputs(c, Tip(a)), BlockInputs(c, Tip(b)), ChainInputs(c, a), ChainInputs(c, b));
    } else if m == 0 && n == 0 {
    } else if m == 0 {
      assert HeaderHash(c, b[n - 1].header) == ZERO_HASH;
    } else if n == 0 {
      assert HeaderHash(c, a[m - 1].header) == ZERO_HASH;
    } else {
      LinkedPrefix(c, a, m);
      LinkedPrefix(c, b, n);
      assert Tip(a') == a[m - 1] && Tip(b') == b[n - 1];
      LinkedTamperEvidence(c, a', b');
      if Agree(a', b') {
        AgreeStep(c, a, b);
      } else if ZeroInside(c, a') {
        ZeroInsideStep(c, a);
      } else if ZeroInside(c, b') {
        ZeroInsideStep(c, b);
      } else {
        CollisionGrows(c, ChainInputs(c, a'), ChainInputs(c, b'), ChainInputs(c, a), ChainInputs(c, b));
      }
    }
  }

  /** Lifting the conclusion from the chains without their tips. */
  lemma AgreeStep(c: Crypto, a: seq<Block>, b: seq<Block>)
    requires a != [] && b != []
    requires Tip(a).header == Tip(b).header
    requires TxsAgree(Tip(a), Tip(b))
    requires Agree(a[..|a| - 1], b[..|b| - 1])
    ensures Agree(a, b)
  {
    hide TxsAgree;
    var a', b' := a[..|a| - 1], b[..|b| - 1];
    forall i | 0 <= i < |a|
      ensures a[i].header == b[i].header && TxsAgree(a[i], b[i])
    {
      if i < |a'| {
        assert a'[i] == a[i] && b'[i] == b[i];
      }
    }
  }

  lemma ZeroInsideStep(c: Crypto, a: seq<Block>)
    requires a != [] && ZeroInside(c, a[..|a| - 1])
    ensures ZeroInside(c, a)
  {
    hide HeaderHash;
    var a' := a[..|a| - 1];
    var i :| 0 <= i < |a'| - 1 && HeaderHash(c, a'[i].header) == ZERO_HASH;
    assert HeaderHash(c, a[i].header) == ZERO_HASH;
  }

  /** Two chains, each built by some run of accepted appends at whatever difficulties, whose
      tips have one hash, agree; or two distinct strings, one hashed for each chain, collide;
      or a block inside one of them has an all-zero header hash. */
  lemma TamperEvidence(c: Crypto, a: seq<Block>, b: seq<Block>,
                       enforceA: bool, enforceB: bool, bitsA: seq<U32>, bitsB: seq<U32>)
    requires Reachable(c, enforceA, a, bitsA) && Reachable(c, enforceB, b, bitsB)
    requires a != [] && b != [] && HeaderHash(c, Tip(a).header) == HeaderHash(c, Tip(b).header)
    ensures Agree(a, b) || CollisionBetween(c, ChainInputs(c, a), ChainInputs(c, b))
         || ZeroInside(c, a) || ZeroInside(c, b)
  {
    hide Reachable, Agree, ChainInputs, ZeroInside;
    ReachableIsLinked(c, enforceA, a, bitsA);
    ReachableIsLinked(c, enforceB, b, bitsB);
    LinkedTamperEvidence(c, a, b);
  }

  lemma ReachableIsLinked(c: Crypto, enforce: bool, blocks: seq<Block>, bits: seq<U32>)
    requires Reachable(c, enforce, blocks, bits)
    ensures Linked(c, blocks)
  {
    hide Reachable, HeaderHash, MerkleRoot, VerifyTx;
    ReachableIffInvariant(c, enforce, blocks, bits);
  }

  /** Equal signed bytes are equal signed fields, when the signed lengths are below 2^32. */
  lemma SignedFieldsAgree(a: seq<Transaction>, b: seq<Transaction>)
    requires SignedAlike(a, b)
    requires forall i :: 0 <= i < |a| ==> FieldsFit(a[i].(signature := [])) && FieldsFit(b[i].(signature := []))
    ensures forall i :: 0 <= i < |a| ==> a[i] == b[i].(signature := a[i].signature)
  {
    hide SigningBytes;
    forall i | 0 <= i < |a|
      ensures a[i] == b[i].(signature := a[i].signature)
    {
      SigningBytesInjective(a[i], b[i], [], []);
    }
  }

  /** The proof built for a transaction is accepted for its signing bytes as they are, against
      the root that its block's header carries. */
  lemma TransactionProof(c: Crypto, txs: seq<Transaction>, i: nat)
    requires i < |txs|
    ensures Merkle.Verifies(c, FullBytes(txs[i].(signature := [])), Merkle.Path(c, Leaves(c, txs), i), MerkleRoot(c, txs))
  {
    hide SigningBytes, FullBytes, Merkle.RootOf, Merkle.Path, Merkle.Fold;
    SigningLength(txs[i]);
    UnsignedBytes(txs[i]);
    assert Leaves(c, txs)[i] == TxHash(c, txs[i]);
    Merkle.ProofComplete(c, Leaves(c, txs), i);
  }

  // ---- The header does not commit to the count -----------------------------

  /** Why counts matter: repeating the last of an odd number of transactions keeps the Merkle
      root, so the header does not commit to the count. */
  lemma RootIgnoresOddDuplicate(c: Crypto, txs: seq<Transaction>)
    requires |txs| % 2 == 1
    ensures MerkleRoot(c, txs + [txs[|txs| - 1]]) == MerkleRoot(c, txs)
  {
    hide TxHash, Merkle.RootOf;
    var last := txs[|txs| - 1];
    var leaves := Leaves(c, txs);
    assert leaves[|leaves| - 1] == TxHash(c, last);
    assert Leaves(c, txs + [last]) == leaves + [TxHash(c, last)];
    Merkle.OddDuplicateKeepsRoot(c, leaves);
  }

  /** On a non-empty chain the header of an accepted block is good for exactly the lists with
      its Merkle root whose transactions carry keys and verify. */
  lemma HeaderFitsOtherList(c: Crypto, s: State, b: Block, txs: seq<Transaction>)
    requires s.blocks != [] && Validate(c, s, b) == ACCEPTED
    ensures Validate(c, s, b.(transactions := txs)) == ACCEPTED
       <==> && MerkleRoot(c, txs) == MerkleRoot(c, b.transactions)
            && forall k :: 0 <= k < |txs| ==> txs[k].fromPubPem != [] && VerifyTx(c, txs[k]) == Valid
  {
    hide Validate, MerkleRoot, HeaderHash, VerifyTx, Pow.MeetsDifficulty;
    AcceptedIff(c, s, b);
    AcceptedIff(c, s, b.(transactions := txs));
  }

  /** A block accepted with an odd number of transactions is accepted, with the same header
      hash, when its last transaction is repeated: the tip hash does not fix the count. */
  lemma RepeatedLastAccepted(c: Crypto, s: State, b: Block)
    requires s.blocks != [] && |b.transactions| % 2 == 1 && Validate(c, s, b) == ACCEPTED
    ensures var twin := b.(transactions := b.transactions + [b.transactions[|b.transactions| - 1]]);
            && Validate(c, s, twin) == ACCEPTED
            && HeaderHash(c, twin.header) == HeaderHash(c, b.header)
            && |twin.transactions| != |b.transactions|
  {
    hide Validate, MerkleRoot, HeaderHash, VerifyTx;
    RootIgnoresOddDuplicate(c, b.transactions);
    HeaderFitsOtherList(c, s, b, b.transactions);
    assert b == b.(transactions := b.transactions);
    HeaderFitsOtherList(c, s, b, b.transactions + [b.transactions[|b.transactions| - 1]]);
  }
}
