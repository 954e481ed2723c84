/** src/core/block_store.cpp: the decoder that drives a `ByteReader`, against the functions
    of `Ledger`. A false `ok` stands for the `SerializeError` that the source throws. */
module Decoder {
  import opened Primitives
  import opened Codec
  import opened Ledger

  method ReadU32Value(reader: ByteReader) returns (ok: bool, value: U32)
    requires reader.Valid()
    modifies reader
    ensures reader.Valid() && reader.Advanced(ReadU32(old(reader.Unread())), ok, value)
  {
    hide ReadLe;
    assert Pow256(4) == TWO_32;
    value := 0;
    var v: nat;
    ok, v := reader.ReadLeValue(4);
    if ok { value := v; }
  }

  method ReadU64Value(reader: ByteReader) returns (ok: bool, value: U64)
    requires reader.Valid()
    modifies reader
    ensures reader.Valid() && reader.Advanced(ReadU64(old(reader.Unread())), ok, value)
  {
    hide ReadLe;
    assert Pow256(8) == TWO_64;
    value := 0;
    var v: nat;
    ok, v := reader.ReadLeValue(8);
    if ok { value := v; }
  }

  method ReadTxFormat(reader: ByteReader) returns (ok: bool, schema: nat)
    requires reader.Valid()
    modifies reader
    ensures reader.Valid() && reader.Advanced(ParseTxFormat(old(reader.Unread())), ok, schema)
  {
    hide ReadLe;
    ok, schema := reader.ReadLeValue(1);
    if !ok { return; }
    ok, schema := reader.ReadLeValue(1);
    if !ok { return; }
    ok, schema := reader.ReadLeValue(4);
  }

  method ReadTxHead(reader: ByteReader) returns (ok: bool, head: TxHead)
    requires reader.Valid()
    modifies reader
    ensures reader.Valid() && reader.Advanced(ParseTxHead(old(reader.Unread())), ok, head)
  {
    hide ReadU32, ReadU64, ParseTxFormat;
    head := TxHead(0, 0, 0);
    var schema: nat;
    ok, schema := ReadTxFormat(reader);
    if !ok { return; }
    var version, nonce, amount;
    ok, version := ReadU32Value(reader);
    if !ok { return; }
    ok, nonce := ReadU64Value(reader);
    if !ok { return; }
    ok, amount := ReadU64Value(reader);
    if !ok { return; }
    head := TxHead(version % TWO_16, nonce, amount);
  }

  method ReadTxTail(reader: ByteReader) returns (ok: bool, tail: TxTail)
    requires reader.Valid()
    modifies reader
    ensures reader.Valid() && reader.Advanced(ParseTxTail(old(reader.Unread())), ok, tail)
  {
    hide ReadPrefixed;
    tail := TxTail([], [], []);
    var fromPubPem, toLabel, signature;
    ok, fromPubPem := reader.ReadBytes();
    if !ok { return; }
    ok, toLabel := reader.ReadBytes();
    if !ok { return; }
    ok, signature := reader.ReadBytes();
    if !ok { return; }
    tail := TxTail(fromPubPem, toLabel, signature);
  }

  method DecodeTransaction(bytes: Bytes) returns (r: Parsed<Transaction>)
    ensures r == ParseTx(bytes)
  {
    hide ParseTxHead, ParseTxTail, ParseTx;
    var reader := new ByteReader(bytes);
    var ok, head := ReadTxHead(reader);
    ghost var u := reader.Unread();
    if !ok {
      TxFromParts(bytes, head, u);
      return Truncated;
    }
    var tail;
    ok, tail := ReadTxTail(reader);
    TxFromParts(bytes, head, u);
    if !ok { return Truncated; }
    r := Parsed(MakeTx(head, tail), reader.src[reader.pos..]);
  }

  lemma TxFromParts(bytes: Bytes, head: TxHead, u: Bytes)
    requires ParseTxHead(bytes).Parsed? ==> ParseTxHead(bytes) == Parsed(head, u)
    ensures ParseTxHead(bytes).Truncated? ==> ParseTx(bytes).Truncated?
    ensures ParseTxHead(bytes).Parsed? ==>
              ParseTx(bytes) == if ParseTxTail(u).Truncated? then Truncated
                                else Parsed(MakeTx(head, ParseTxTail(u).value), ParseTxTail(u).rest)
  {
    hide ParseTxHead, ParseTxTail;
  }

  /** The 32-fold `read_u8` loop over a hash. */
  method ReadHashBytes(reader: ByteReader) returns (ok: bool, h: Hash256)
    requires reader.Valid()
    modifies reader
    ensures reader.Valid() && reader.Advanced(ReadHash(old(reader.Unread())), ok, h)
  {
    ghost var s := reader.Unread();
    var bytes: Bytes := [];
    h := ZERO_HASH;
    for i := 0 to 32
      invariant reader.Valid() && i <= |s| && bytes == s[..i] && reader.Unread() == s[i..]
    {
      var b;
      ok, b := reader.ReadLeValue(1);
      if !ok { return; }
      ReadOneByte(s[i..]);
      bytes := bytes + [b];
    }
    ok, h := true, bytes;
  }

  lemma ReadOneByte(s: Bytes)
    requires s != []
    ensures ReadLe(1, s) == Parsed(s[0], s[1..])
  {
    assert s[..1][1..] == [];
  }

  method ReadHeader(reader: ByteReader) returns (ok: bool, h: BlockHeader)
    requires reader.Valid()
    modifies reader
    ensures reader.Valid() && reader.Advanced(ParseHeader(old(reader.Unread())), ok, h)
  {
    hide ReadU32, ReadU64, ReadHash;
    h := BlockHeader(1, ZERO_HASH, ZERO_HASH, 0, 0);
    var version, timestamp, nonce, prevHash, merkleRoot;
    ok, version := ReadU32Value(reader);
    if !ok { return; }
    ok, prevHash := ReadHashBytes(reader);
    if !ok { return; }
    ok, merkleRoot := ReadHashBytes(reader);
    if !ok { return; }
    ok, timestamp := ReadU64Value(reader);
    if !ok { return; }
    ok, nonce := ReadU64Value(reader);
    if !ok { return; }
    h := BlockHeader(version, prevHash, merkleRoot, timestamp, nonce);
  }

  /** The loop over `num_txs`. */
  method ReadTransactions(n: nat, reader: ByteReader) returns (ok: bool, txs: seq<Transaction>)
    requires reader.Valid()
    modifies reader
    ensures reader.Valid() && reader.Advanced(ParseTxs(n, old(reader.Unread())), ok, txs)
  {
    hide ReadPrefixed, ParseTx;
    ghost var s := reader.Unread();
    txs, ok := [], true;
    assert ParseTxs(n, s).Parsed? ==> [] + ParseTxs(n, s).value == ParseTxs(n, s).value;
    for i := 0 to n
      invariant reader.Valid()
      invariant ok && ParseTxs(n, s) == Before(txs, ParseTxs(n - i, reader.Unread()))
    {
      ghost var u := reader.Unread();
      var bytes;
      ok, bytes := reader.ReadBytes();
      assert ok <==> ReadPrefixed(u).Parsed?;
      if !ok { return; }
      var tx := DecodeTransaction(bytes);
      if tx.Truncated? {
        ok := false;
        return;
      }
      assert ParseOneTx(u) == Parsed(tx.value, reader.Unread());
      BeforeStep(txs, tx.value, n - i, u);
      txs := txs + [tx.value];
    }
    assert txs + [] == txs;
  }

  /** A parse result with transactions that were read before it. */
  ghost function Before(txs: seq<Transaction>, p: Parsed<seq<Transaction>>): Parsed<seq<Transaction>> {
    if p.Truncated? then Truncated else Parsed(txs + p.value, p.rest)
  }

  lemma BeforeStep(txs: seq<Transaction>, tx: Transaction, n: nat, s: Bytes)
    requires n > 0 && ParseOneTx(s).Parsed? && ParseOneTx(s).value == tx
    ensures Before(txs, ParseTxs(n, s)) == Before(txs + [tx], ParseTxs(n - 1, ParseOneTx(s).rest))
  {
    hide ParseOneTx;
    var p := ParseTxs(n - 1, ParseOneTx(s).rest);
    if p.Parsed? {
      assert txs + ([tx] + p.value) == (txs + [tx]) + p.value;
    }
  }

  method DecodeBlock(payload: Bytes) returns (r: Parsed<Block>)
    ensures r == ParseBlock(payload)
  {
    hide ParseHeader, ParseBody, ParseBlock;
    var reader := new ByteReader(payload);
    var ok, header := ReadHeader(reader);
    ghost var u := reader.Unread();
    BlockFromParts(payload);
    if !ok { return Truncated; }
    var txs;
    ok, txs := ReadBody(header, reader);
    if !ok { return Truncated; }
    r := Parsed(Block(header, txs), reader.src[reader.pos..]);
  }

  lemma BlockFromParts(s: Bytes)
    ensures ParseBlock(s) == if ParseHeader(s).Truncated? then Truncated
                             else ParseBody(ParseHeader(s).value, ParseHeader(s).rest)
  {
  }

  method ReadBody(h: BlockHeader, reader: ByteReader) returns (ok: bool, txs: seq<Transaction>)
    requires reader.Valid()
    modifies reader
    ensures reader.Valid() && reader.Advanced(ParseBody(h, old(reader.Unread())), ok, Block(h, txs))
  {
    hide ParseTxs, ReadLe;
    txs := [];
    var n: nat;
    ok, n := reader.ReadLeValue(4);
    if !ok { return; }
    ok, txs := ReadTransactions(n, reader);
  }
}
