/** src/core/transaction.cpp, src/core/block.cpp, and the decoder of src/core/block_store.cpp:
    transactions and blocks, their byte forms, and what those bytes determine. */
module Ledger {
  import opened Primitives
  import opened Codec
  import Merkle

  datatype Transaction = Transaction(
    version: U16, nonce: U64, amount: U64, fromPubPem: Bytes, toLabel: Bytes, signature: Bytes)

  datatype BlockHeader = BlockHeader(
    version: U32, prevHash: Hash256, merkleRoot: Hash256, timestamp: U64, nonce: U64)

  datatype Block = Block(header: BlockHeader, transactions: seq<Transaction>)

  // ---- Byte forms ----------------------------------------------------------

  function TxHeadBytes(tx: Transaction): Bytes {
    [0xA1] + [0x01] + U32Bytes(1) + U32Bytes(tx.version) + U64Bytes(tx.nonce) + U64Bytes(tx.amount)
  }

  function TxBytes(tx: Transaction, signature: Bytes): Bytes {
    TxHeadBytes(tx) + Prefixed(tx.fromPubPem) + Prefixed(tx.toLabel) + Prefixed(signature)
  }

  function FullBytes(tx: Transaction): Bytes { TxBytes(tx, tx.signature) }

  function SigningBytes(tx: Transaction): Bytes { TxBytes(tx, []) }

  function TxHash(c: Crypto, tx: Transaction): Hash256 { c.sha256(SigningBytes(tx)) }

  function HeaderBytes(h: BlockHeader): Bytes {
    U32Bytes(h.version) + h.prevHash + h.merkleRoot + U64Bytes(h.timestamp) + U64Bytes(h.nonce)
  }

  function HeaderHash(c: Crypto, h: BlockHeader): Hash256 { c.sha256(HeaderBytes(h)) }

  function TxsBytes(txs: seq<Transaction>): Bytes {
    if txs == [] then [] else Prefixed(FullBytes(txs[0])) + TxsBytes(txs[1..])
  }

  function BodyBytes(txs: seq<Transaction>): Bytes { U32Bytes(|txs| % TWO_32) + TxsBytes(txs) }

  function BlockBytes(b: Block): Bytes {
    HeaderBytes(b.header) + BodyBytes(b.transactions)
  }

  function Leaves(c: Crypto, txs: seq<Transaction>): (r: seq<Hash256>)
    ensures |r| == |txs|
  {
    seq(|txs|, i requires 0 <= i < |txs| => TxHash(c, txs[i]))
  }

  function MerkleRoot(c: Crypto, txs: seq<Transaction>): Hash256 { Merkle.RootOf(c, Leaves(c, txs)) }

  function VerifyTx(c: Crypto, tx: Transaction): Verdict {
    c.verify(tx.fromPubPem, SigningBytes(tx), tx.signature)
  }

  function Coinbase(note: Bytes): Transaction { Transaction(1, 0, 0, [], note, []) }

  function GenesisBlock(c: Crypto, note: Bytes, unixTime: U64): Block {
    Block(BlockHeader(1, ZERO_HASH, MerkleRoot(c, [Coinbase(note)]), unixTime, 0), [Coinbase(note)])
  }

  // ---- The serializers of the source ---------------------------------------

  method SerializeTransaction(tx: Transaction, forSigning: bool) returns (bytes: Bytes)
    ensures bytes == if forSigning then SigningBytes(tx) else FullBytes(tx)
    ensures forSigning ==> bytes == FullBytes(tx.(signature := []))
  {
    hide TxHeadBytes;
    var writer := new ByteWriter();
    WriteTxHead(tx, writer);
    writer.WriteBytes(tx.fromPubPem);
    writer.WriteBytes(tx.toLabel);
    if !forSigning {
      writer.WriteBytes(tx.signature);
    } else {
      assert Prefixed([]) == U32Bytes(0);
      writer.WriteU32(0);
    }
    bytes := writer.buffer;
    UnsignedBytes(tx);
  }

  /** What is signed and hashed is the encoding with an empty signature. */
  lemma UnsignedBytes(tx: Transaction)
    ensures SigningBytes(tx) == FullBytes(tx.(signature := []))
  {
    hide U32Bytes, U64Bytes, Prefixed;
  }

  method WriteTxHead(tx: Transaction, writer: ByteWriter)
    requires writer.buffer == []
    modifies writer
    ensures writer.buffer == TxHeadBytes(tx)
  {
    writer.WriteU8(0xA1);
    writer.WriteU8(0x01);
    writer.WriteU32(1);
    writer.WriteU32(tx.version);
    writer.WriteU64(tx.nonce);
    writer.WriteU64(tx.amount);
  }

  method SerializeHeader(h: BlockHeader) returns (bytes: Bytes)
    ensures bytes == HeaderBytes(h)
  {
    var writer := new ByteWriter();
    writer.WriteU32(h.version);
    writer.WriteRaw(h.prevHash);
    writer.WriteRaw(h.merkleRoot);
    writer.WriteU64(h.timestamp);
    writer.WriteU64(h.nonce);
    bytes := writer.buffer;
  }

  method SerializeBlock(b: Block) returns (bytes: Bytes)
    ensures bytes == BlockBytes(b)
  {
    hide HeaderBytes, FullBytes, U32Bytes;
    var writer := new ByteWriter();
    var headerBytes := SerializeHeader(b.header);
    writer.WriteRaw(headerBytes);
    writer.WriteU32(|b.transactions| % TWO_32);
    Assoc(HeaderBytes(b.header), U32Bytes(|b.transactions| % TWO_32), TxsBytes(b.transactions));
    for i := 0 to |b.transactions|
      invariant writer.buffer + TxsBytes(b.transactions[i..]) == BlockBytes(b)
    {
      ghost var before := writer.buffer;
      var txBytes := SerializeTransaction(b.transactions[i], false);
      writer.WriteU32(|txBytes| % TWO_32);
      writer.WriteRaw(txBytes);
      Assoc(before, U32Bytes(|txBytes| % TWO_32), txBytes);
      Assoc(before, Prefixed(txBytes), TxsBytes(b.transactions[i + 1..]));
      assert b.transactions[i..][1..] == b.transactions[i + 1..];
    }
    bytes := writer.buffer;
  }

  method ComputeMerkleRoot(c: Crypto, txs: seq<Transaction>) returns (root: Hash256)
    ensures root == MerkleRoot(c, txs)
  {
    hide TxHash;
    var leaves := [];
    for i := 0 to |txs|
      invariant leaves == Leaves(c, txs)[..i]
    {
      assert Leaves(c, txs)[i] == TxHash(c, txs[i]);
      leaves := leaves + [TxHash(c, txs[i])];
    }
    assert leaves == Leaves(c, txs);
    root := Merkle.Root(c, leaves);
  }

  // ---- Decoding ------------------------------------------------------------

  function ReadU32(s: Bytes): Parsed<U32> { ReadLe(4, s) }

  function ReadU64(s: Bytes): Parsed<U64> { ReadLe(8, s) }

  function ReadHash(s: Bytes): Parsed<Hash256> {
    if |s| < 32 then Truncated else Parsed(s[..32], s[32..])
  }

  datatype TxHead = TxHead(version: U16, nonce: U64, amount: U64)

  datatype TxTail = TxTail(fromPubPem: Bytes, toLabel: Bytes, signature: Bytes)

  /** Tag, kind and schema, which the decoder reads and does not look at. */
  function ParseTxFormat(s: Bytes): Parsed<nat> {
    var tag := ReadLe(1, s);
    if tag.Truncated? then Truncated else
    var kind := ReadLe(1, tag.rest);
    if kind.Truncated? then Truncated else
    ReadLe(4, kind.rest)
  }

  /** The format is skipped, and the version is narrowed to 16 bits. */
  function ParseTxHead(s: Bytes): Parsed<TxHead> {
    var format := ParseTxFormat(s);
    if format.Truncated? then Truncated else
    var version := ReadU32(format.rest);
    if version.Truncated? then Truncated else
    var nonce := ReadU64(version.rest);
    if nonce.Truncated? then Truncated else
    var amount := ReadU64(nonce.rest);
    if amount.Truncated? then Truncated else
    Parsed(TxHead(version.value % TWO_16, nonce.value, amount.value), amount.rest)
  }

  function ParseTxTail(s: Bytes): Parsed<TxTail> {
    var fromPubPem := ReadPrefixed(s);
    if fromPubPem.Truncated? then Truncated else
    var toLabel := ReadPrefixed(fromPubPem.rest);
    if toLabel.Truncated? then Truncated else
    var signature := ReadPrefixed(toLabel.rest);
    if signature.Truncated? then Truncated else
    Parsed(TxTail(fromPubPem.value, toLabel.value, signature.value), signature.rest)
  }

  function MakeTx(head: TxHead, tail: TxTail): Transaction {
    Transaction(head.version, head.nonce, head.amount, tail.fromPubPem, tail.toLabel, tail.signature)
  }

  function ParseTx(s: Bytes): Parsed<Transaction> {
    var head := ParseTxHead(s);
    if head.Truncated? then Truncated else
    var tail := ParseTxTail(head.rest);
    if tail.Truncated? then Truncated else
    Parsed(MakeTx(head.value, tail.value), tail.rest)
  }

  /** One length-prefixed transaction; bytes left over inside the prefix are ignored. */
  function ParseOneTx(s: Bytes): Parsed<Transaction> {
    var bytes := ReadPrefixed(s);
    if bytes.Truncated? then Truncated else
    var tx := ParseTx(bytes.value);
    if tx.Truncated? then Truncated else
    Parsed(tx.value, bytes.rest)
  }

  function ParseTxs(n: nat, s: Bytes): (r: Parsed<seq<Transaction>>)
    ensures r.Parsed? ==> |r.value| == n
    decreases n, s
  {
    if n == 0 then Parsed([], s)
    else
      var tx := ParseOneTx(s);
      if tx.Truncated? then Truncated else
      var txs := ParseTxs(n - 1, tx.rest);
      if txs.Truncated? then Truncated else
      Parsed([tx.value] + txs.value, txs.rest)
  }

  function ParseHeader(s: Bytes): Parsed<BlockHeader> {
    var version := ReadU32(s);
    if version.Truncated? then Truncated else
    var prevHash := ReadHash(version.rest);
    if prevHash.Truncated? then Truncated else
    var merkleRoot := ReadHash(prevHash.rest);
    if merkleRoot.Truncated? then Truncated else
    var timestamp := ReadU64(merkleRoot.rest);
    if timestamp.Truncated? then Truncated else
    var nonce := ReadU64(timestamp.rest);
    if nonce.Truncated? then Truncated else
    Parsed(BlockHeader(version.value, prevHash.value, merkleRoot.value, timestamp.value, nonce.value), nonce.rest)
  }

  function ParseBody(h: BlockHeader, s: Bytes): Parsed<Block> {
    var n := ReadU32(s);
    if n.Truncated? then Truncated else
    var txs := ParseTxs(n.value, n.rest);
    if txs.Truncated? then Truncated else
    Parsed(Block(h, txs.value), txs.rest)
  }

  function ParseBlock(s: Bytes): Parsed<Block> {
    var header := ParseHeader(s);
    if header.Truncated? then Truncated else ParseBody(header.value, header.rest)
  }

  // ---- Transactions round trip ---------------------------------------------

  predicate FieldsFit(tx: Transaction) {
    |tx.fromPubPem| < TWO_32 && |tx.toLabel| < TWO_32 && |tx.signature| < TWO_32
  }

  predicate EncodableTx(tx: Transaction) { |FullBytes(tx)| < TWO_32 }

  predicate AllEncodable(txs: seq<Transaction>) {
    forall i :: 0 <= i < |txs| ==> EncodableTx(txs[i])
  }

  predicate Encodable(b: Block) {
    |b.transactions| < TWO_32 && AllEncodable(b.transactions)
  }

  lemma TxHeadSplit(tx: Transaction, rest: Bytes)
    ensures TxHeadBytes(tx) + rest
         == [0xA1] + ([0x01] + (U32Bytes(1) + (U32Bytes(tx.version) + (U64Bytes(tx.nonce) + (U64Bytes(tx.amount) + rest)))))
  {
    hide U32Bytes, U64Bytes;
    var a1 := [0xA1] + [0x01];
    var a2 := a1 + U32Bytes(1);
    var a3 := a2 + U32Bytes(tx.version);
    var a4 := a3 + U64Bytes(tx.nonce);
    var r4 := U64Bytes(tx.amount) + rest;
    var r3 := U64Bytes(tx.nonce) + r4;
    var r2 := U32Bytes(tx.version) + r3;
    Assoc(a4, U64Bytes(tx.amount), rest);
    Assoc(a3, U64Bytes(tx.nonce), r4);
    Assoc(a2, U32Bytes(tx.version), r3);
    Assoc(a1, U32Bytes(1), r2);
    Assoc([0xA1], [0x01], U32Bytes(1) + r2);
  }

  lemma TxBytesSplit(tx: Transaction, signature: Bytes, rest: Bytes)
    ensures TxBytes(tx, signature) + rest
         == TxHeadBytes(tx) + (Prefixed(tx.fromPubPem) + (Prefixed(tx.toLabel) + (Prefixed(signature) + rest)))
  {
    hide TxHeadBytes, Prefixed;
    var a1 := TxHeadBytes(tx) + Prefixed(tx.fromPubPem);
    var r2 := Prefixed(signature) + rest;
    Assoc(a1 + Prefixed(tx.toLabel), Prefixed(signature), rest);
    Assoc(a1, Prefixed(tx.toLabel), r2);
    Assoc(TxHeadBytes(tx), Prefixed(tx.fromPubPem), Prefixed(tx.toLabel) + r2);
  }

  lemma ReadU32Written(v: U32, rest: Bytes)
    ensures ReadU32(U32Bytes(v) + rest) == Parsed(v, rest)
  {
    assert Pow256(4) == TWO_32;
    ReadLeWritten(v, 4, rest);
  }

  lemma ReadU64Written(v: U64, rest: Bytes)
    ensures ReadU64(U64Bytes(v) + rest) == Parsed(v, rest)
  {
    assert Pow256(8) == TWO_64;
    ReadLeWritten(v, 8, rest);
  }

  lemma SkipByte(x: Byte, rest: Bytes)
    ensures ReadLe(1, [x] + rest).Parsed? && ReadLe(1, [x] + rest).rest == rest
  {
  }

  lemma ParseHeadWritten(tx: Transaction, rest: Bytes)
    ensures ParseTxHead(TxHeadBytes(tx) + rest) == Parsed(TxHead(tx.version, tx.nonce, tx.amount), rest)
  {
    hide ReadLe, U32Bytes, U64Bytes;
    var r4 := U64Bytes(tx.amount) + rest;
    var r3 := U64Bytes(tx.nonce) + r4;
    var r2 := U32Bytes(tx.version) + r3;
    var r1 := U32Bytes(1) + r2;
    TxHeadSplit(tx, rest);
    SkipByte(0xA1, [0x01] + r1);
    SkipByte(0x01, r1);
    ReadU32Written(1, r2);
    ReadU32Written(tx.version, r3);
    ReadU64Written(tx.nonce, r4);
    ReadU64Written(tx.amount, rest);
  }

  lemma ParseTailWritten(a: Bytes, b: Bytes, d: Bytes, rest: Bytes)
    requires |a| < TWO_32 && |b| < TWO_32 && |d| < TWO_32
    ensures ParseTxTail(Prefixed(a) + (Prefixed(b) + (Prefixed(d) + rest))) == Parsed(TxTail(a, b, d), rest)
  {
    hide ReadPrefixed, Prefixed;
    ReadPrefixedWritten(a, Prefixed(b) + (Prefixed(d) + rest));
    ReadPrefixedWritten(b, Prefixed(d) + rest);
    ReadPrefixedWritten(d, rest);
  }

  lemma ParseWritten(tx: Transaction, signature: Bytes, rest: Bytes)
    requires FieldsFit(tx.(signature := signature))
    ensures ParseTx(TxBytes(tx, signature) + rest) == Parsed(tx.(signature := signature), rest)
  {
    hide ParseTxHead, ParseTxTail, TxHeadBytes, Prefixed, TxBytes;
    TxBytesSplit(tx, signature, rest);
    ParseHeadWritten(tx, Prefixed(tx.fromPubPem) + (Prefixed(tx.toLabel) + (Prefixed(signature) + rest)));
    ParseTailWritten(tx.fromPubPem, tx.toLabel, signature, rest);
  }

  /** Whatever decodes has lengths below 2^32. */
  lemma ReadPrefixedFits(s: Bytes)
    ensures ReadPrefixed(s).Parsed? ==> |ReadPrefixed(s).value| < TWO_32
  {
    assert Pow256(4) == TWO_32;
  }

  lemma ParsedFits(s: Bytes)
    ensures ParseTx(s).Parsed? ==> FieldsFit(ParseTx(s).value)
  {
    hide ParseTxHead, ReadPrefixed;
    if ParseTx(s).Parsed? {
      var t := ParseTxHead(s).rest;
      var u := ReadPrefixed(t).rest;
      ReadPrefixedFits(t);
      ReadPrefixedFits(u);
      ReadPrefixedFits(ReadPrefixed(u).rest);
    }
  }

  /** A transaction decodes from its full bytes, whatever follows, exactly when its three
      variable-length fields are shorter than 2^32. */
  lemma TxRoundTrip(tx: Transaction, rest: Bytes)
    ensures ParseTx(FullBytes(tx) + rest) == Parsed(tx, rest) <==> FieldsFit(tx)
  {
    hide ParseTx, TxBytes;
    if FieldsFit(tx) {
      ParseWritten(tx, tx.signature, rest);
    } else {
      ParsedFits(FullBytes(tx) + rest);
    }
  }

  /** The signing bytes decode, whatever follows, to the transaction without its signature,
      exactly when key and label are shorter than 2^32. */
  lemma SigningRoundTrip(tx: Transaction, rest: Bytes)
    ensures ParseTx(SigningBytes(tx) + rest) == Parsed(tx.(signature := []), rest) <==> FieldsFit(tx.(signature := []))
  {
    hide ParseTx, TxBytes;
    if FieldsFit(tx.(signature := [])) {
      ParseWritten(tx, [], rest);
    } else {
      ParsedFits(SigningBytes(tx) + rest);
    }
  }

  /** The signing bytes are the full bytes up to the signature's length, and then a zero length. */
  lemma SigningIsAPrefix(tx: Transaction)
    ensures |SigningBytes(tx)| == 38 + |tx.fromPubPem| + |tx.toLabel| <= |FullBytes(tx)|
    ensures var n := 34 + |tx.fromPubPem| + |tx.toLabel|;
            SigningBytes(tx)[..n] == FullBytes(tx)[..n] && SigningBytes(tx)[n..] == [0, 0, 0, 0]
  {
    hide Le;
    var body := TxHeadBytes(tx) + Prefixed(tx.fromPubPem) + Prefixed(tx.toLabel);
    ZeroLength();
    assert SigningBytes(tx) == body + Prefixed([]);
    assert FullBytes(tx) == body + Prefixed(tx.signature);
    assert |body| == 34 + |tx.fromPubPem| + |tx.toLabel|;
  }

  lemma ZeroLength()
    ensures Prefixed([]) == [0, 0, 0, 0]
  {
    var z := Prefixed([]);
    assert forall i :: 0 <= i < 4 ==> z[i] == ByteAt(0, i) == 0;
  }

  /** Where the numbers of a transaction stand in its encoding. */
  lemma TxLayout(tx: Transaction)
    ensures var s := FullBytes(tx);
            && |s| == 38 + |tx.fromPubPem| + |tx.toLabel| + |tx.signature|
            && s[..6] == [0xA1, 0x01, 1, 0, 0, 0]
            && FromLe(s[6..10]) == tx.version && FromLe(s[10..18]) == tx.nonce && FromLe(s[18..26]) == tx.amount
            && s[26..] == Prefixed(tx.fromPubPem) + (Prefixed(tx.toLabel) + Prefixed(tx.signature))
  {
    hide U32Bytes, U64Bytes, FromLe, Prefixed;
    TxBytesLength(tx);
    SplitWhole(tx);
    var tail := Prefixed(tx.fromPubPem) + (Prefixed(tx.toLabel) + Prefixed(tx.signature));
    HeadLayout(tx, tail);
  }

  lemma SplitWhole(tx: Transaction)
    ensures FullBytes(tx) == TxHeadBytes(tx) + (Prefixed(tx.fromPubPem) + (Prefixed(tx.toLabel) + Prefixed(tx.signature)))
  {
    hide TxHeadBytes, Prefixed;
    TxBytesSplit(tx, tx.signature, []);
    assert FullBytes(tx) + [] == FullBytes(tx) && Prefixed(tx.signature) + [] == Prefixed(tx.signature);
  }

  lemma HeadLayout(tx: Transaction, tail: Bytes)
    ensures var s := TxHeadBytes(tx) + tail;
            && |TxHeadBytes(tx)| == 26 && s[26..] == tail
            && s[..6] == [0xA1, 0x01, 1, 0, 0, 0]
            && FromLe(s[6..10]) == tx.version && FromLe(s[10..18]) == tx.nonce && FromLe(s[18..26]) == tx.amount
  {
    hide FromLe, Le;
    var s := TxHeadBytes(tx) + tail;
    FieldsRead(tx.version, tx.nonce, tx.amount);
    BytesOfU32One();
    assert s[..6] == [0xA1, 0x01] + Le(1, 4);
    assert s[6..10] == Le(tx.version, 4) && s[10..18] == Le(tx.nonce, 8) && s[18..26] == Le(tx.amount, 8);
  }

  lemma FieldsRead(v: U32, x: U64, y: U64)
    ensures FromLe(Le(v, 4)) == v && FromLe(Le(x, 8)) == x && FromLe(Le(y, 8)) == y
  {
    hide FromLe, Le;
    assert Pow256(4) == TWO_32 && Pow256(8) == TWO_64;
    LeRoundTrip(v, 4);
    LeRoundTrip(x, 8);
    LeRoundTrip(y, 8);
  }

  lemma BytesOfU32One()
    ensures Le(1, 4) == [1, 0, 0, 0]
  {
    assert Pow256(0) == 1 && Pow256(1) == 0x100 && Pow256(2) == 0x1_0000 && Pow256(3) == 0x100_0000;
    var z := Le(1, 4);
    assert z[0] == ByteAt(1, 0) && z[1] == ByteAt(1, 1) && z[2] == ByteAt(1, 2) && z[3] == ByteAt(1, 3);
  }

  /** What the decoder takes from any bytes whatever: it ignores the first six, narrows the
      version to 16 bits, and needs 26 in all. */
  lemma ParseHeadByOffset(s: Bytes)
    ensures ParseTxHead(s).Parsed? <==> |s| >= 26
    ensures |s| >= 26 ==>
              var head := ParseTxHead(s).value;
              && ParseTxHead(s).rest == s[26..]
              && head.version == FromLe(s[6..10]) % TWO_16
              && head.nonce == FromLe(s[10..18]) && head.amount == FromLe(s[18..26])
  {
    hide FromLe;
    if |s| >= 26 {
      assert s[1..][1..] == s[2..] && s[2..][4..] == s[6..] && s[6..][4..] == s[10..];
      assert s[10..][8..] == s[18..] && s[18..][8..] == s[26..];
      assert s[6..][..4] == s[6..10] && s[10..][..8] == s[10..18] && s[18..][..8] == s[18..26];
    }
  }

  /** Where the fields of a header stand in its 84 bytes. */
  lemma HeaderLayout(h: BlockHeader)
    ensures var s := HeaderBytes(h);
            && |s| == 84
            && FromLe(s[..4]) == h.version && s[4..36] == h.prevHash && s[36..68] == h.merkleRoot
            && FromLe(s[68..76]) == h.timestamp && FromLe(s[76..]) == h.nonce
  {
    hide FromLe, Le;
    var s := HeaderBytes(h);
    FieldsRead(h.version, h.timestamp, h.nonce);
    assert s[..4] == Le(h.version, 4) && s[68..76] == Le(h.timestamp, 8) && s[76..] == Le(h.nonce, 8);
    assert s[4..36] == h.prevHash && s[36..68] == h.merkleRoot;
  }

  /** A block's bytes: its header, its count modulo 2^32, its transactions one after the other. */
  lemma BlockLayout(b: Block)
    ensures var s := BlockBytes(b);
            && |s| >= 88 && s[..84] == HeaderBytes(b.header)
            && FromLe(s[84..88]) == |b.transactions| % TWO_32 && s[88..] == TxsBytes(b.transactions)
  {
    hide FromLe, Le, TxsBytes, HeaderBytes;
    var s, n := BlockBytes(b), |b.transactions| % TWO_32;
    HeaderLayout(b.header);
    FieldsRead(n, 0, 0);
    assert s[84..88] == Le(n, 4);
  }

  /** Signing bytes determine the signed fields and where they end. */
  lemma SigningBytesInjective(a: Transaction, b: Transaction, s: Bytes, t: Bytes)
    requires FieldsFit(a.(signature := [])) && FieldsFit(b.(signature := []))
    requires SigningBytes(a) + s == SigningBytes(b) + t
    ensures a.(signature := []) == b.(signature := []) && s == t
  {
    hide ParseTx, TxBytes;
    ParseWritten(a, [], s);
    ParseWritten(b, [], t);
  }

  // ---- Reading is stable under more input ----------------------------------

  lemma ReadLeExtends(n: nat, s: Bytes, t: Bytes)
    requires ReadLe(n, s).Parsed?
    ensures ReadLe(n, s + t) == ReadLe(n, s).(rest := ReadLe(n, s).rest + t)
  {
    assert (s + t)[..n] == s[..n] && (s + t)[n..] == s[n..] + t;
  }

  lemma ReadPrefixedExtends(s: Bytes, t: Bytes)
    requires ReadPrefixed(s).Parsed?
    ensures ReadPrefixed(s + t) == ReadPrefixed(s).(rest := ReadPrefixed(s).rest + t)
  {
    ReadLeExtends(4, s, t);
    var len, u := ReadLe(4, s).value, ReadLe(4, s).rest;
    assert (u + t)[..len] == u[..len] && (u + t)[len..] == u[len..] + t;
  }

  lemma ParseTxHeadExtends(s: Bytes, t: Bytes)
    requires ParseTxHead(s).Parsed?
    ensures ParseTxHead(s + t) == ParseTxHead(s).(rest := ParseTxHead(s).rest + t)
  {
    hide ReadLe;
    var s1 := ReadLe(1, s).rest;
    var s2 := ReadLe(1, s1).rest;
    var s3 := ReadU32(s2).rest;
    var s4 := ReadU32(s3).rest;
    var s5 := ReadU64(s4).rest;
    ReadLeExtends(1, s, t);
    ReadLeExtends(1, s1, t);
    ReadLeExtends(4, s2, t);
    ReadLeExtends(4, s3, t);
    ReadLeExtends(8, s4, t);
    ReadLeExtends(8, s5, t);
  }

  lemma ParseTxExtends(s: Bytes, t: Bytes)
    requires ParseTx(s).Parsed?
    ensures ParseTx(s + t) == ParseTx(s).(rest := ParseTx(s).rest + t)
  {
    hide ParseTxHead, ReadPrefixed;
    ParseTxHeadExtends(s, t);
    var s1 := ParseTxHead(s).rest;
    var s2 := ReadPrefixed(s1).rest;
    ReadPrefixedExtends(s1, t);
    ReadPrefixedExtends(s2, t);
    ReadPrefixedExtends(ReadPrefixed(s2).rest, t);
  }

  /** No proper prefix of a full encoding decodes. */
  lemma CutTxIsTruncated(tx: Transaction, n: nat)
    requires FieldsFit(tx) && n < |FullBytes(tx)|
    ensures ParseTx(FullBytes(tx)[..n]) == Truncated
  {
    hide ParseTx, FullBytes, FieldsFit;
    var s, t := FullBytes(tx)[..n], FullBytes(tx)[n..];
    assert s + t == FullBytes(tx) == FullBytes(tx) + [];
    TxRoundTrip(tx, []);
    if ParseTx(s).Parsed? {
      ParseTxExtends(s, t);
    }
  }

  // ---- Blocks round trip ---------------------------------------------------

  /** One length-prefixed transaction comes back exactly when its encoding fits in 32 bits. */
  lemma OneTxRoundTrip(tx: Transaction, rest: Bytes)
    ensures var p := ParseOneTx(Prefixed(FullBytes(tx)) + rest);
            && (p.Parsed? && p.value == tx <==> EncodableTx(tx))
            && (EncodableTx(tx) ==> p.rest == rest)
  {
    hide ParseTx, ReadPrefixed, Prefixed, TxBytes;
    var bytes := FullBytes(tx);
    TxRoundTrip(tx, []);
    assert bytes + [] == bytes;
    if EncodableTx(tx) {
      ReadPrefixedWritten(bytes, rest);
      TxBytesLength(tx);
    } else {
      ReadPrefixedCut(bytes, rest);
      ParsedFits(bytes[..|bytes| % TWO_32]);
      if FieldsFit(tx) {
        CutTxIsTruncated(tx, |bytes| % TWO_32);
      }
    }
  }

  lemma TxBytesLength(tx: Transaction)
    ensures |FullBytes(tx)| == 38 + |tx.fromPubPem| + |tx.toLabel| + |tx.signature|
  {
  }

  /** Bytes left over inside a transaction's prefix are ignored. */
  lemma PaddedTxDecodes(tx: Transaction, junk: Bytes, rest: Bytes)
    requires FieldsFit(tx) && |FullBytes(tx) + junk| < TWO_32
    ensures ParseOneTx(Prefixed(FullBytes(tx) + junk) + rest) == Parsed(tx, rest)
  {
    hide ParseTx, ReadPrefixed, Prefixed, FullBytes;
    ReadPrefixedWritten(FullBytes(tx) + junk, rest);
    TxRoundTrip(tx, junk);
  }

  /** The list comes back exactly when every encoding fits in 32 bits; otherwise the decoder
      fails or yields another list. */
  lemma {:induction false} TxsRoundTrip(txs: seq<Transaction>, rest: Bytes)
    ensures var p := ParseTxs(|txs|, TxsBytes(txs) + rest);
            && (p.Parsed? && p.value == txs <==> AllEncodable(txs))
            && (AllEncodable(txs) ==> p.rest == rest)
  {
    hide ParseOneTx, Prefixed, FullBytes, EncodableTx;
    if txs != [] {
      var tail := TxsBytes(txs[1..]) + rest;
      Assoc(Prefixed(FullBytes(txs[0])), TxsBytes(txs[1..]), rest);
      assert TxsBytes(txs) + rest == Prefixed(FullBytes(txs[0])) + tail;
      OneTxRoundTrip(txs[0], tail);
      TxsRoundTrip(txs[1..], rest);
      assert AllEncodable(txs) <==> EncodableTx(txs[0]) && AllEncodable(txs[1..]);
      ParseTxsStep(txs, TxsBytes(txs) + rest);
    }
  }

  /** Reading back a non-empty list is reading back its head and then its tail. */
  lemma ParseTxsStep(txs: seq<Transaction>, s: Bytes)
    requires txs != []
    ensures var p, q := ParseTxs(|txs|, s), ParseOneTx(s);
            p.Parsed? && p.value == txs
            <==> q.Parsed? && q.value == txs[0]
                 && var t := ParseTxs(|txs| - 1, q.rest); t.Parsed? && t.value == txs[1..] && p == Parsed(txs, t.rest)
  {
    hide ParseOneTx, ParseTxs;
    ParseTxsUnfold(|txs|, s);
    var q := ParseOneTx(s);
    if q.Parsed? {
      var t := ParseTxs(|txs| - 1, q.rest);
      if t.Parsed? {
        HeadAndTail(q.value, t.value, txs);
      }
    }
  }

  lemma ParseTxsUnfold(n: nat, s: Bytes)
    requires n > 0
    ensures var q := ParseOneTx(s);
            ParseTxs(n, s)
            == if q.Truncated? then Truncated
               else var t := ParseTxs(n - 1, q.rest);
                    if t.Truncated? then Truncated else Parsed([q.value] + t.value, t.rest)
  {
    hide ParseOneTx;
  }

  lemma HeadAndTail(x: Transaction, rest: seq<Transaction>, txs: seq<Transaction>)
    requires txs != []
    ensures [x] + rest == txs <==> x == txs[0] && rest == txs[1..]
  {
    assert txs == [txs[0]] + txs[1..];
    assert ([x] + rest)[1..] == rest;
  }

  lemma HeaderRoundTrip(h: BlockHeader, rest: Bytes)
    ensures ParseHeader(HeaderBytes(h) + rest) == Parsed(h, rest)
  {
    hide ReadLe, U32Bytes, U64Bytes, HeaderBytes;
    var r4 := U64Bytes(h.nonce) + rest;
    var r3 := U64Bytes(h.timestamp) + r4;
    var r2 := h.merkleRoot + r3;
    var r1 := h.prevHash + r2;
    HeaderBytesSplit(h, rest);
    ReadU32Written(h.version, r1);
    assert r1[..32] == h.prevHash && r1[32..] == r2;
    assert r2[..32] == h.merkleRoot && r2[32..] == r3;
    ReadU64Written(h.timestamp, r4);
    ReadU64Written(h.nonce, rest);
  }

  lemma HeaderBytesSplit(h: BlockHeader, rest: Bytes)
    ensures HeaderBytes(h) + rest
         == U32Bytes(h.version) + (h.prevHash + (h.merkleRoot + (U64Bytes(h.timestamp) + (U64Bytes(h.nonce) + rest))))
  {
    hide U32Bytes, U64Bytes;
    var a1 := U32Bytes(h.version) + h.prevHash;
    var a2 := a1 + h.merkleRoot;
    var a3 := a2 + U64Bytes(h.timestamp);
    var r3 := U64Bytes(h.nonce) + rest;
    var r2 := U64Bytes(h.timestamp) + r3;
    Assoc(a3, U64Bytes(h.nonce), rest);
    Assoc(a2, U64Bytes(h.timestamp), r3);
    Assoc(a1, h.merkleRoot, r2);
    Assoc(U32Bytes(h.version), h.prevHash, h.merkleRoot + r2);
  }

  lemma HeaderBytesInjective(a: BlockHeader, b: BlockHeader)
    requires HeaderBytes(a) == HeaderBytes(b)
    ensures a == b
  {
    hide ParseHeader;
    HeaderRoundTrip(a, []);
    HeaderRoundTrip(b, []);
  }

  /** The decoder gives back the identical block and stops exactly at its end, if and only
      if the count and every encoded transaction length fit in 32 bits; otherwise it fails or
      yields another block. */
  lemma BlockRoundTrip(b: Block, rest: Bytes)
    ensures ParseBlock(BlockBytes(b) + rest) == Parsed(b, rest) <==> Encodable(b)
    ensures var p := ParseBlock(BlockBytes(b) + rest); p.Parsed? && p.value == b ==> Encodable(b)
  {
    hide ParseHeader, ParseBody, HeaderBytes, BodyBytes, Encodable;
    var body := BodyBytes(b.transactions) + rest;
    Assoc(HeaderBytes(b.header), BodyBytes(b.transactions), rest);
    HeaderRoundTrip(b.header, body);
    BodyRoundTrip(b.header, b.transactions, rest);
  }

  lemma BodyRoundTrip(h: BlockHeader, txs: seq<Transaction>, rest: Bytes)
    ensures var p := ParseBody(h, BodyBytes(txs) + rest);
            && (p.Parsed? && p.value == Block(h, txs) <==> Encodable(Block(h, txs)))
            && (Encodable(Block(h, txs)) ==> p.rest == rest)
  {
    hide ParseTxs, ParseBody, TxsBytes, BodyBytes;
    var p := ParseTxs(|txs| % TWO_32, TxsBytes(txs) + rest);
    ParseBodyWritten(h, txs, rest);
    if |txs| < TWO_32 {
      TxsRoundTrip(txs, rest);
      assert p.Parsed? && p.value == txs <==> AllEncodable(txs);
    } else {
      assert p.Parsed? ==> |p.value| != |txs|;
    }
  }

  lemma ParseBodyWritten(h: BlockHeader, txs: seq<Transaction>, rest: Bytes)
    ensures var p := ParseTxs(|txs| % TWO_32, TxsBytes(txs) + rest);
            ParseBody(h, BodyBytes(txs) + rest)
            == if p.Truncated? then Truncated else Parsed(Block(h, p.value), p.rest)
  {
    hide ParseTxs, TxsBytes, ReadLe, U32Bytes;
    var n := |txs| % TWO_32;
    Assoc(U32Bytes(n), TxsBytes(txs), rest);
    ReadU32Written(n, TxsBytes(txs) + rest);
  }
}
