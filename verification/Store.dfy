/** src/core/block_store.cpp: the append-only log of checksummed records and its loader. */
module Store {
  import opened Primitives
  import opened Codec
  import opened Ledger
  import Decoder

  const MAGIC: U32 := 0x41535452
  const VERSION: U64 := 1
  const KIND_BLOCK: U16 := 1

  // ---- The log as bytes ----------------------------------------------------

  /** The fourteen constant bytes that open every record. */
  function Preamble(): (r: Bytes)
    ensures |r| == 14
  {
    Le(MAGIC, 4) + Le(VERSION, 8) + Le(KIND_BLOCK, 2)
  }

  /** Magic, version, kind and length, each in its native width, little-endian. */
  function RecordHeader(length: nat): (r: Bytes)
    ensures |r| == 22
  {
    Preamble() + Le(length % TWO_64, 8)
  }

  function RecordOf(c: Crypto, payload: Bytes): Bytes {
    RecordHeader(|payload|) + payload + c.sha256(payload)
  }

  function BlockRecord(c: Crypto, b: Block): Bytes { RecordOf(c, BlockBytes(b)) }

  function LogOf(c: Crypto, blocks: seq<Block>): Bytes {
    if blocks == [] then [] else BlockRecord(c, blocks[0]) + LogOf(c, blocks[1..])
  }

  /** A block whose record reads back: its parts fit in 32 bits and its payload in 64. */
  predicate Storable(b: Block) { Encodable(b) && |BlockBytes(b)| < TWO_64 }

  ghost predicate AllStorable(blocks: seq<Block>) {
    forall i :: 0 <= i < |blocks| ==> Storable(blocks[i])
  }

  // ---- The loader ----------------------------------------------------------

  /** One turn of the load loop: stop quietly, fail while decoding, or take one record. */
  datatype Scan = Stop | Corrupt | Record(block: Block, rest: Bytes)

  /** The payload of the first record, when the record is complete and intact. */
  function FirstPayload(c: Crypto, log: Bytes): Parsed<Bytes> {
    if |log| < 22 || log[..14] != Preamble() then Truncated
    else
      var length := FromLe(log[14..22]);
      if |log| < 22 + length + 32 then Truncated
      else
        var payload := log[22..22 + length];
        if c.sha256(payload) != log[22 + length..54 + length] then Truncated
        else Parsed(payload, log[54 + length..])
  }

  function ScanRecord(c: Crypto, log: Bytes): (r: Scan)
    ensures r.Record? ==> |r.rest| < |log|
  {
    var p := FirstPayload(c, log);
    if p.Truncated? then Stop
    else
      var b := ParseBlock(p.value);
      if b.Truncated? then Corrupt else Record(b.value, p.rest)
  }

  /** What `load_all_blocks` returns, or `DecodeError` for the exception it lets through. */
  datatype Loaded = Blocks(blocks: seq<Block>) | DecodeError

  function Load(c: Crypto, log: Bytes): Loaded
    decreases |log|
  {
    match ScanRecord(c, log)
    case Stop => Blocks([])
    case Corrupt => DecodeError
    case Record(b, rest) =>
      match Load(c, rest)
      case Blocks(bs) => Blocks([b] + bs)
      case DecodeError => DecodeError
  }

  // ---- Whole records -------------------------------------------------------

  /** The three constant fields lead a record header, its length field follows. */
  lemma RecordHeaderParts(length: nat)
    requires length < TWO_64
    ensures RecordHeader(length)[..14] == Preamble()
    ensures FromLe(RecordHeader(length)[14..22]) == length
  {
    hide Preamble, Le, FromLe;
    var field := Le(length % TWO_64, 8);
    assert RecordHeader(length) == Preamble() + field;
    assert RecordHeader(length)[14..22] == field;
    LengthRoundTrip(length);
  }

  lemma LengthRoundTrip(length: nat)
    requires length < TWO_64
    ensures FromLe(Le(length % TWO_64, 8)) == length
  {
    hide Le, FromLe;
    assert Pow256(8) == TWO_64;
    LeRoundTrip(length, 8);
  }

  lemma FirstPayloadWritten(c: Crypto, payload: Bytes, rest: Bytes)
    requires |payload| < TWO_64
    ensures FirstPayload(c, RecordOf(c, payload) + rest) == Parsed(payload, rest)
  {
    hide RecordHeader, FromLe, Le;
    var h, n, log := RecordHeader(|payload|), |payload|, RecordOf(c, payload) + rest;
    RecordHeaderParts(n);
    assert log[..14] == h[..14] && log[14..22] == h[14..22];
    assert log[22..22 + n] == payload;
    assert log[22 + n..54 + n] == c.sha256(payload);
    assert log[54 + n..] == rest;
  }

  lemma ScanWritten(c: Crypto, b: Block, rest: Bytes)
    requires Storable(b)
    ensures ScanRecord(c, BlockRecord(c, b) + rest) == Record(b, rest)
  {
    hide FirstPayload, ParseBlock, BlockBytes, RecordOf, Encodable;
    FirstPayloadWritten(c, BlockBytes(b), rest);
    BlockRoundTrip(b, []);
    assert BlockBytes(b) + [] == BlockBytes(b);
  }

  /** A log of whole records, followed by anything, loads as those blocks and then the rest. */
  lemma {:induction false} LoadWritten(c: Crypto, blocks: seq<Block>, rest: Bytes)
    requires AllStorable(blocks)
    ensures Load(c, LogOf(c, blocks) + rest)
         == match Load(c, rest) case Blocks(bs) => Blocks(blocks + bs) case DecodeError => DecodeError
    decreases |blocks|
  {
    hide ScanRecord, BlockRecord, Storable;
    if blocks == [] {
      assert LogOf(c, blocks) + rest == rest;
      assert forall bs: seq<Block> :: [] + bs == bs;
    } else {
      var tail := LogOf(c, blocks[1..]) + rest;
      Assoc(BlockRecord(c, blocks[0]), LogOf(c, blocks[1..]), rest);
      ScanWritten(c, blocks[0], tail);
      LoadWritten(c, blocks[1..], rest);
      if Load(c, rest).Blocks? {
        assert [blocks[0]] + (blocks[1..] + Load(c, rest).blocks) == blocks + Load(c, rest).blocks;
      }
    }
  }

  lemma {:induction false} LogOfAppend(c: Crypto, blocks: seq<Block>, b: Block)
    ensures LogOf(c, blocks + [b]) == LogOf(c, blocks) + BlockRecord(c, b)
    decreases |blocks|
  {
    hide BlockRecord;
    if blocks == [] {
      assert blocks + [b] == [b];
      assert LogOf(c, [b]) == BlockRecord(c, b) + LogOf(c, []);
    } else {
      assert (blocks + [b])[1..] == blocks[1..] + [b];
      LogOfAppend(c, blocks[1..], b);
      Assoc(BlockRecord(c, blocks[0]), LogOf(c, blocks[1..]), BlockRecord(c, b));
    }
  }

  /** The log of a chain decodes to that chain. */
  lemma LogRoundTrip(c: Crypto, blocks: seq<Block>)
    requires AllStorable(blocks)
    ensures Load(c, LogOf(c, blocks)) == Blocks(blocks)
  {
    hide LogOf;
    LoadWritten(c, blocks, []);
    assert LogOf(c, blocks) + [] == LogOf(c, blocks);
    assert Load(c, []) == Blocks([]);
    assert blocks + [] == blocks;
  }

  /** With payloads below 2^64 bytes the log of a block sequence decodes to that sequence if and
      only if every block is encodable. */
  lemma {:induction false} LogReadsBackIff(c: Crypto, blocks: seq<Block>)
    requires forall i :: 0 <= i < |blocks| ==> |BlockBytes(blocks[i])| < TWO_64
    ensures Load(c, LogOf(c, blocks)) == Blocks(blocks)
       <==> forall i :: 0 <= i < |blocks| ==> Encodable(blocks[i])
    decreases |blocks|
  {
    hide FirstPayload, ParseBlock, BlockBytes, RecordOf, Encodable;
    if blocks != [] {
      var b, tail := blocks[0], LogOf(c, blocks[1..]);
      FirstPayloadWritten(c, BlockBytes(b), tail);
      BlockRoundTrip(b, []);
      assert BlockBytes(b) + [] == BlockBytes(b);
      LogReadsBackIff(c, blocks[1..]);
      assert blocks == [b] + blocks[1..];
      LoadStep(c, BlockRecord(c, b) + tail, blocks);
    } else {
      assert Load(c, []) == Blocks([]) by { EmptyLogStops(c); }
    }
  }

  lemma EmptyLogStops(c: Crypto)
    ensures FirstPayload(c, []).Truncated?
  {
  }

  /** Loading a non-empty sequence is scanning its head and loading its tail. */
  lemma LoadStep(c: Crypto, log: Bytes, blocks: seq<Block>)
    requires blocks != []
    ensures Load(c, log) == Blocks(blocks)
       <==> var r := ScanRecord(c, log);
            r.Record? && r.block == blocks[0] && Load(c, r.rest) == Blocks(blocks[1..])
  {
    hide ScanRecord;
    var r := ScanRecord(c, log);
    if r.Record? && Load(c, r.rest).Blocks? {
      var bs := Load(c, r.rest).blocks;
      assert ([r.block] + bs)[1..] == bs;
      assert blocks == [blocks[0]] + blocks[1..];
    }
  }

  // ---- Cut logs ------------------------------------------------------------

  /** No proper prefix of a record is taken for a record. */
  lemma CutRecordStops(c: Crypto, payload: Bytes, n: nat)
    requires |payload| < TWO_64 && n < |RecordOf(c, payload)|
    ensures FirstPayload(c, RecordOf(c, payload)[..n]).Truncated?
  {
    hide RecordHeader, FromLe, Le, RecordOf;
    var r := RecordOf(c, payload);
    if n >= 22 {
      RecordLength(c, payload);
      SliceOfPrefix(r, n, 14, 22);
    }
  }

  /** A record is 54 bytes longer than its payload, and its length field says so. */
  lemma RecordLength(c: Crypto, payload: Bytes)
    requires |payload| < TWO_64
    ensures |RecordOf(c, payload)| == 54 + |payload|
    ensures RecordOf(c, payload)[..14] == Preamble()
    ensures FromLe(RecordOf(c, payload)[14..22]) == |payload|
  {
    hide RecordHeader, FromLe, Le, Preamble;
    var h, r := RecordHeader(|payload|), RecordOf(c, payload);
    RecordHeaderParts(|payload|);
    assert r == h + (payload + c.sha256(payload));
    assert r[..14] == h[..14] && r[14..22] == h[14..22];
  }

  lemma SliceOfPrefix(s: Bytes, n: nat, i: nat, j: nat)
    requires i <= j <= n <= |s|
    ensures s[..n][i..j] == s[i..j]
  {
  }

  lemma LoadCutRecord(c: Crypto, b: Block, n: nat)
    requires Storable(b) && n < |BlockRecord(c, b)|
    ensures Load(c, BlockRecord(c, b)[..n]) == Blocks([])
  {
    hide FirstPayload, ParseBlock, BlockBytes, RecordOf, Encodable;
    CutRecordStops(c, BlockBytes(b), n);
  }

  /** How many records of a log lie wholly within its first `n` bytes. */
  function CompleteRecords(c: Crypto, blocks: seq<Block>, n: nat): (k: nat)
    ensures k <= |blocks|
    decreases |blocks|
  {
    if blocks == [] || n < |BlockRecord(c, blocks[0])| then 0
    else 1 + CompleteRecords(c, blocks[1..], n - |BlockRecord(c, blocks[0])|)
  }

  /** `CompleteRecords` is the count it claims to be. */
  lemma {:induction false} CompleteRecordsIsMaximal(c: Crypto, blocks: seq<Block>, n: nat)
    ensures var k := CompleteRecords(c, blocks, n);
            && |LogOf(c, blocks[..k])| <= n
            && (k < |blocks| ==> n < |LogOf(c, blocks[..k + 1])|)
    decreases |blocks|
  {
    hide BlockRecord;
    if blocks != [] {
      var m := |BlockRecord(c, blocks[0])|;
      if n >= m {
        var k := CompleteRecords(c, blocks[1..], n - m);
        CompleteRecordsIsMaximal(c, blocks[1..], n - m);
        assert blocks[..k + 1][1..] == blocks[1..][..k];
        if k + 1 < |blocks| {
          assert blocks[..k + 2][1..] == blocks[1..][..k + 1];
        }
      } else {
        assert blocks[..1][1..] == [];
      }
    }
  }

  /** However a log of whole records is cut, exactly the complete records are loaded. */
  lemma {:induction false} CrashPrefix(c: Crypto, blocks: seq<Block>, n: nat)
    requires AllStorable(blocks) && n <= |LogOf(c, blocks)|
    ensures Load(c, LogOf(c, blocks)[..n]) == Blocks(blocks[..CompleteRecords(c, blocks, n)])
    decreases |blocks|
  {
    hide BlockRecord, ScanRecord, Storable;
    if blocks == [] {
      LogRoundTrip(c, []);
    } else {
      var r, tail := BlockRecord(c, blocks[0]), LogOf(c, blocks[1..]);
      assert LogOf(c, blocks) == r + tail;
      if n < |r| {
        assert (r + tail)[..n] == r[..n];
        LoadCutRecord(c, blocks[0], n);
      } else {
        var k := CompleteRecords(c, blocks[1..], n - |r|);
        assert (r + tail)[..n] == r + tail[..n - |r|];
        ScanWritten(c, blocks[0], tail[..n - |r|]);
        CrashPrefix(c, blocks[1..], n - |r|);
        assert [blocks[0]] + blocks[1..][..k] == blocks[..k + 1];
      }
    }
  }

  /** A crash inside one append leaves the old or the new block sequence, and nothing else. */
  lemma CrashDuringAppend(c: Crypto, blocks: seq<Block>, b: Block, n: nat)
    requires AllStorable(blocks + [b]) && n <= |BlockRecord(c, b)|
    ensures Load(c, LogOf(c, blocks) + BlockRecord(c, b)[..n])
         == Blocks(if n == |BlockRecord(c, b)| then blocks + [b] else blocks)
  {
    hide BlockRecord, Storable, LogOf, Load;
    var r := BlockRecord(c, b);
    assert AllStorable(blocks) by {
      assert forall i :: 0 <= i < |blocks| ==> (blocks + [b])[i] == blocks[i];
    }
    assert Storable((blocks + [b])[|blocks|]);
    if n == |r| {
      LogOfAppend(c, blocks, b);
      LogRoundTrip(c, blocks + [b]);
      assert r[..n] == r;
    } else {
      LoadCutRecord(c, b, n);
      LoadWritten(c, blocks, r[..n]);
      assert blocks + [] == blocks;
    }
  }

  // ---- Arbitrary logs ------------------------------------------------------

  /** Bytes behind a complete first record do not change it. */
  lemma FirstPayloadExtends(c: Crypto, log: Bytes, more: Bytes)
    requires FirstPayload(c, log).Parsed?
    ensures FirstPayload(c, log + more)
         == Parsed(FirstPayload(c, log).value, FirstPayload(c, log).rest + more)
  {
    hide FromLe, Le;
    var n := FromLe(log[14..22]);
    assert (log + more)[..14] == log[..14] && (log + more)[14..22] == log[14..22];
    assert (log + more)[22..22 + n] == log[22..22 + n];
    assert (log + more)[22 + n..54 + n] == log[22 + n..54 + n];
    assert (log + more)[54 + n..] == log[54 + n..] + more;
  }

  /** Appending arbitrary bytes to an arbitrary log never loses or alters what was loaded,
      and never repairs a log whose decoding fails. */
  lemma {:induction false} LogMonotone(c: Crypto, log: Bytes, more: Bytes)
    ensures Load(c, log + more).Blocks? ==> Load(c, log).Blocks?
    ensures Load(c, log + more).Blocks? ==> Load(c, log).blocks <= Load(c, log + more).blocks
    decreases |log|
  {
    hide FirstPayload, ParseBlock;
    if FirstPayload(c, log).Parsed? {
      FirstPayloadExtends(c, log, more);
      if ScanRecord(c, log).Record? {
        LogMonotone(c, ScanRecord(c, log).rest, more);
      }
    }
  }

  // ---- Torn tails ----------------------------------------------------------

  lemma BytesOfOne(i: nat)
    ensures ByteAt(1, i) <= 1
  {
    if i > 0 {
      DivModUnique(1, Pow256(i), 0, 1);
    } else {
      assert Pow256(0) == 1;
    }
  }

  lemma BytesOfMagic()
    ensures ByteAt(MAGIC, 0) == 0x52 && ByteAt(MAGIC, 1) == 0x54 && ByteAt(MAGIC, 2) == 0x53 && ByteAt(MAGIC, 3) == 0x41
  {
    assert Pow256(0) == 1 && Pow256(1) == 0x100 && Pow256(2) == 0x1_0000 && Pow256(3) == 0x100_0000;
  }

  /** The first byte of the magic number occurs nowhere else in the preamble. */
  lemma PreambleBytes(n: nat)
    requires 0 < n < 14
    ensures Preamble()[n] != Preamble()[0]
  {
    hide ByteAt;
    var k := Preamble();
    BytesOfMagic();
    assert k[0] == ByteAt(MAGIC, 0);
    if n < 4 {
      assert k[n] == ByteAt(MAGIC, n);
    } else if n < 12 {
      BytesOfOne(n - 4);
      assert k[n] == ByteAt(VERSION, n - 4);
    } else {
      BytesOfOne(n - 12);
      assert k[n] == ByteAt(KIND_BLOCK, n - 12);
    }
  }

  /** The fourteen bytes that open every record. */
  lemma PreambleLiteral()
    ensures Preamble() == [0x52, 0x54, 0x53, 0x41, 1, 0, 0, 0, 0, 0, 0, 0, 1, 0]
  {
    hide ByteAt;
    var k := Preamble();
    BytesOfMagic();
    OneInBytes();
    assert forall i :: 0 <= i < 4 ==> k[i] == ByteAt(MAGIC, i);
    assert forall i :: 0 <= i < 8 ==> k[4 + i] == Le(VERSION, 8)[i] == ByteAt(VERSION, i);
    assert k[12] == ByteAt(KIND_BLOCK, 0) && k[13] == ByteAt(KIND_BLOCK, 1);
  }

  lemma OneInBytes()
    ensures ByteAt(1, 0) == 1 && forall i :: 0 < i < 8 ==> ByteAt(1, i) == 0
  {
    assert Pow256(0) == 1;
    forall i | 0 < i < 8
      ensures ByteAt(1, i) == 0
    {
      DivModUnique(1, Pow256(i), 0, 1);
    }
  }

  /** A record, byte by byte. */
  lemma RecordLayout(c: Crypto, b: Block)
    requires |BlockBytes(b)| < TWO_64
    ensures var r, n := BlockRecord(c, b), |BlockBytes(b)|;
            && |r| == 54 + n
            && r[..14] == [0x52, 0x54, 0x53, 0x41, 1, 0, 0, 0, 0, 0, 0, 0, 1, 0]
            && FromLe(r[14..22]) == n && r[22..22 + n] == BlockBytes(b) && r[22 + n..] == c.sha256(BlockBytes(b))
  {
    hide RecordOf, BlockBytes, FromLe, Preamble;
    RecordLength(c, BlockBytes(b));
    RecordContent(c, BlockBytes(b));
    PreambleLiteral();
  }

  /** The bytes open with an intact record: constants, length, payload and matching digest. */
  predicate Intact(c: Crypto, s: Bytes) {
    && |s| >= 54 && s[..14] == [0x52, 0x54, 0x53, 0x41, 1, 0, 0, 0, 0, 0, 0, 0, 1, 0]
    && var n := FromLe(s[14..22]);
       |s| >= 54 + n && c.sha256(s[22..22 + n]) == s[22 + n..54 + n]
  }

  /** What is loaded behind whole records, for arbitrary bytes there: nothing more unless they
      open with an intact record; a decode error if its payload is no block; otherwise that
      block, whatever follows it inside the payload, and then what is behind the record. */
  lemma LoadBehindRecords(c: Crypto, blocks: seq<Block>, s: Bytes)
    requires AllStorable(blocks)
    ensures Load(c, LogOf(c, blocks) + s)
         == if !Intact(c, s) then Blocks(blocks)
            else
              var n := FromLe(s[14..22]);
              var p, more := ParseBlock(s[22..22 + n]), Load(c, s[54 + n..]);
              if p.Truncated? || more.DecodeError? then DecodeError else Blocks(blocks + [p.value] + more.blocks)
  {
    hide *;
    LoadWritten(c, blocks, s);
    IntactIsFirst(c, s);
    LoadOnce(c, s);
    assert blocks + [] == blocks;
    if Intact(c, s) {
      var n := FromLe(s[14..22]);
      var p, more := ParseBlock(s[22..22 + n]), Load(c, s[54 + n..]);
      if p.Parsed? && more.Blocks? {
        assert blocks + ([p.value] + more.blocks) == blocks + [p.value] + more.blocks;
      }
    }
  }

  lemma IntactIsFirst(c: Crypto, s: Bytes)
    ensures Intact(c, s) ==> |s| >= 54 && |s| >= 54 + FromLe(s[14..22])
    ensures FirstPayload(c, s)
         == if Intact(c, s) then Parsed(s[22..22 + FromLe(s[14..22])], s[54 + FromLe(s[14..22])..]) else Truncated
  {
    hide FromLe, Preamble;
    PreambleLiteral();
  }

  lemma LoadOnce(c: Crypto, s: Bytes)
    ensures var p := FirstPayload(c, s);
            Load(c, s)
            == if p.Truncated? then Blocks([])
               else
                 var b, more := ParseBlock(p.value), Load(c, p.rest);
                 if b.Truncated? || more.DecodeError? then DecodeError else Blocks([b.value] + more.blocks)
  {
    hide FirstPayload, ParseBlock;
  }

  /** What a log holds behind its whole records once a write of `torn` stopped after `n` bytes
      and another record was written behind it. */
  function Torn(c: Crypto, torn: Block, n: nat, next: Block, more: Bytes): Bytes
    requires n <= |BlockRecord(c, torn)|
  {
    BlockRecord(c, torn)[..n] + (BlockRecord(c, next) + more)
  }

  /** The loader's window, of the length that stands in the log, reaches across byte `n` and
      hashes to the 32 bytes behind it. */
  ghost predicate SpansTear(c: Crypto, tail: Bytes, n: nat) {
    && 14 <= n && |tail| >= 22
    && var len := FromLe(tail[14..22]);
       && n < 54 + len <= |tail|
       && c.sha256(tail[22..22 + len]) == tail[22 + len..54 + len]
  }

  /** Nothing repairs a torn tail. Wherever a write stopped inside a record, the log loads as
      the blocks before it, hiding every record written later, if and only if the window
      across the tear does not happen to hash to the bytes behind it. */
  lemma TornRecordHidesLaterRecords(c: Crypto, blocks: seq<Block>, torn: Block, n: nat, next: Block, more: Bytes)
    requires AllStorable(blocks) && |BlockBytes(torn)| < TWO_64
    requires 0 < n < |BlockRecord(c, torn)|
    ensures Load(c, LogOf(c, blocks) + Torn(c, torn, n, next, more)) == Blocks(blocks)
       <==> !SpansTear(c, Torn(c, torn, n, next, more), n)
  {
    hide BlockBytes, Load, LogOf, FirstPayload, SpansTear, AllStorable;
    var tail := Torn(c, torn, n, next, more);
    if n < 14 {
      TornPreambleStops(c, BlockBytes(torn), n, BlockBytes(next), more);
    } else {
      TornBehindPreamble(c, BlockBytes(torn), n, BlockRecord(c, next) + more);
    }
    LoadWritten(c, blocks, tail);
    if FirstPayload(c, tail).Truncated? {
      StopsAtOnce(c, tail);
      assert blocks + [] == blocks;
    } else {
      MovesOn(c, tail);
      assert Load(c, tail).Blocks? ==> |blocks + Load(c, tail).blocks| > |blocks|;
    }
  }

  lemma TornPreambleStops(c: Crypto, payload: Bytes, n: nat, nextPayload: Bytes, more: Bytes)
    requires 0 < n < 14
    ensures |RecordOf(c, payload)| >= 22
    ensures var tail := RecordOf(c, payload)[..n] + (RecordOf(c, nextPayload) + more);
            FirstPayload(c, tail).Truncated? && !SpansTear(c, tail, n)
  {
    hide RecordOf, Preamble, FromLe;
    RecordOpens(c, payload);
    RecordOpens(c, nextPayload);
    var tail := RecordOf(c, payload)[..n] + (RecordOf(c, nextPayload) + more);
    PreambleBytes(n);
    assert tail[n] == RecordOf(c, nextPayload)[0];
    assert |tail| >= 22 ==> tail[..14][n] == tail[n];
  }

  lemma TornBehindPreamble(c: Crypto, payload: Bytes, n: nat, behind: Bytes)
    requires |payload| < TWO_64 && 14 <= n < |RecordOf(c, payload)|
    ensures var tail := RecordOf(c, payload)[..n] + behind;
            FirstPayload(c, tail).Parsed? <==> SpansTear(c, tail, n)
  {
    hide RecordOf, Preamble, FromLe;
    var r := RecordOf(c, payload);
    var tail := r[..n] + behind;
    RecordLength(c, payload);
    assert tail[..14] == r[..14];
    if n >= 22 {
      assert tail[14..22] == r[14..22];
    }
  }

  lemma MovesOn(c: Crypto, log: Bytes)
    requires FirstPayload(c, log).Parsed?
    ensures Load(c, log).Blocks? ==> Load(c, log).blocks != []
  {
    hide FirstPayload, ParseBlock;
  }

  /** A tear inside the checksum, whatever was written behind it: the torn block comes back,
      although its write was not completed, if and only if the missing digest bytes are the
      first bytes behind the tear. */
  lemma TornChecksum(c: Crypto, blocks: seq<Block>, torn: Block, n: nat, behind: Bytes)
    requires AllStorable(blocks + [torn])
    requires var r := |BlockRecord(c, torn)|; r - 32 <= n < r
    ensures var r := BlockRecord(c, torn);
            var m := |r| - n;
            Load(c, LogOf(c, blocks) + (r[..n] + behind))
            == if |behind| >= m && behind[..m] == r[n..]
               then match Load(c, behind[m..])
                    case Blocks(bs) => Blocks(blocks + [torn] + bs)
                    case DecodeError => DecodeError
               else Blocks(blocks)
  {
    hide BlockRecord, Load, LogOf, Storable;
    var r := BlockRecord(c, torn);
    var m := |r| - n;
    assert AllStorable(blocks) by {
      assert forall i :: 0 <= i < |blocks| ==> (blocks + [torn])[i] == blocks[i];
    }
    assert Storable((blocks + [torn])[|blocks|]);
    if |behind| >= m && behind[..m] == r[n..] {
      assert r[..n] + behind == r + behind[m..] by {
        assert behind == behind[..m] + behind[m..];
        assert r == r[..n] + r[n..];
      }
      LogOfAppend(c, blocks, torn);
      Assoc(LogOf(c, blocks), r, behind[m..]);
      LoadWritten(c, blocks + [torn], behind[m..]);
    } else {
      WrongChecksumStops(c, torn, n, behind);
      LoadWritten(c, blocks, r[..n] + behind);
      assert blocks + [] == blocks;
    }
  }

  lemma WrongChecksumStops(c: Crypto, torn: Block, n: nat, behind: Bytes)
    requires Storable(torn)
    requires var r := |BlockRecord(c, torn)|; r - 32 <= n < r
    requires var r := BlockRecord(c, torn); |behind| < |r| - n || behind[..|r| - n] != r[n..]
    ensures Load(c, BlockRecord(c, torn)[..n] + behind) == Blocks([])
  {
    hide BlockBytes, RecordOf, FromLe, Load, Encodable;
    var payload := BlockBytes(torn);
    var r, len := RecordOf(c, payload), |payload|;
    var tail := r[..n] + behind;
    RecordLength(c, payload);
    RecordContent(c, payload);
    assert tail[14..22] == r[14..22];
    if |tail| >= 54 + len {
      assert tail[22..22 + len] == r[22..22 + len];
      var k := n - 22 - len;
      assert tail[22 + len..54 + len][k..] == tail[n..54 + len] == behind[..|r| - n];
      assert r[22 + len..][k..] == r[n..];
    }
    StopsAtOnce(c, tail);
  }

  lemma RecordContent(c: Crypto, payload: Bytes)
    ensures |RecordOf(c, payload)| == 54 + |payload|
    ensures RecordOf(c, payload)[22..22 + |payload|] == payload
    ensures RecordOf(c, payload)[22 + |payload|..] == c.sha256(payload)
  {
    hide RecordHeader;
  }

  /** In particular, when fewer than fourteen digest bytes are missing and they are the first
      bytes of the next record, the block whose write failed comes back and the one written
      after it is lost. */
  lemma TornBlockReturns(c: Crypto, blocks: seq<Block>, torn: Block, n: nat, next: Block, more: Bytes)
    requires AllStorable(blocks + [torn])
    requires var r := BlockRecord(c, torn);
             && |r| - 14 < n < |r| && |r| - n <= |BlockRecord(c, next)|
             && r[n..] == BlockRecord(c, next)[..|r| - n]
    ensures Load(c, LogOf(c, blocks) + Torn(c, torn, n, next, more)) == Blocks(blocks + [torn])
  {
    hide BlockRecord, Load, LogOf, AllStorable;
    var r, behind := BlockRecord(c, torn), BlockRecord(c, next) + more;
    var m := |r| - n;
    assert behind[..m] == BlockRecord(c, next)[..m];
    TornChecksum(c, blocks, torn, n, behind);
    RestStops(c, next, m, more);
    assert blocks + [torn] + [] == blocks + [torn];
  }

  /** It does happen: with a digest that ends in the first byte of a record, for any blocks. */
  lemma TornBlockReturnsExample(blocks: seq<Block>, torn: Block, next: Block, more: Bytes) returns (c: Crypto)
    requires AllStorable(blocks + [torn])
    ensures var n := |BlockRecord(c, torn)| - 1;
            && n > 0
            && Load(c, LogOf(c, blocks) + Torn(c, torn, n, next, more)) == Blocks(blocks + [torn])
  {
    hide BlockBytes, Load, LogOf, AllStorable, Preamble;
    var first := Preamble()[0];
    var digest: Hash256 := seq(32, _ => first);
    c := Crypto(x => digest, (key, message, signature) => Valid);
    var r, s := BlockRecord(c, torn), BlockRecord(c, next);
    RecordContent(c, BlockBytes(torn));
    RecordOpens(c, BlockBytes(next));
    assert r[|r| - 1] == r[22 + |BlockBytes(torn)|..][31] == first;
    assert r[|r| - 1..] == [first] == s[..1];
    TornBlockReturns(c, blocks, torn, |r| - 1, next, more);
  }

  lemma RestStops(c: Crypto, next: Block, m: nat, more: Bytes)
    requires 0 < m < 14 && m <= |BlockRecord(c, next)|
    ensures Load(c, (BlockRecord(c, next) + more)[m..]) == Blocks([])
  {
    hide BlockBytes, RecordOf, Preamble, FromLe, Load;
    RecordOpensFully(c, BlockBytes(next));
    var s := (BlockRecord(c, next) + more)[m..];
    PreambleBytes(m);
    assert s[0] == RecordOf(c, BlockBytes(next))[..14][m];
    assert |s| >= 22 ==> s[..14][0] == s[0];
    StopsAtOnce(c, s);
  }

  lemma RecordOpensFully(c: Crypto, payload: Bytes)
    ensures |RecordOf(c, payload)| >= 22 && RecordOf(c, payload)[..14] == Preamble()
  {
    hide Le, Preamble;
    var r := RecordOf(c, payload);
    assert r == Preamble() + (Le(|payload| % TWO_64, 8) + payload + c.sha256(payload));
  }

  lemma RecordOpens(c: Crypto, payload: Bytes)
    ensures |RecordOf(c, payload)| >= 22
    ensures RecordOf(c, payload)[0] == Preamble()[0]
  {
    hide Le;
    var h := RecordHeader(|payload|);
    assert RecordOf(c, payload)[0] == h[0] == Le(MAGIC, 4)[0];
    assert Preamble()[0] == Le(MAGIC, 4)[0];
  }

  lemma StopsAtOnce(c: Crypto, log: Bytes)
    requires FirstPayload(c, log).Truncated?
    ensures Load(c, log) == Blocks([])
  {
    hide FirstPayload;
  }

  // ---- The store -----------------------------------------------------------

  /** What the stream does with a record: all of it arrives; a part arrives and `good()`
      reports it; or a part arrives because only the unchecked `flush` fails. */
  datatype Write = Completed | Detected(n: nat) | Undetected(n: nat)

  /** The bytes that reach the log. */
  function Arrived(record: Bytes, io: Write): Bytes {
    if io.Completed? || io.n >= |record| then record else record[..io.n]
  }

  class BlockStore {
    const crypto: Crypto
    var log: Bytes

    constructor (crypto: Crypto, log: Bytes)
      ensures this.crypto == crypto && this.log == log
    {
      this.crypto, this.log := crypto, log;
    }

    /** Returns false where the source throws "write failed". */
    method AppendBlock(b: Block, io: Write) returns (ok: bool)
      modifies this
      ensures ok == !io.Detected?
      ensures log == old(log) + Arrived(BlockRecord(crypto, b), io)
    {
      hide BlockBytes, RecordHeader;
      var payload := SerializeBlock(b);
      var check := crypto.sha256(payload);
      var record := RecordHeader(|payload|) + payload + check;
      log := log + Arrived(record, io);
      ok := !io.Detected?;
    }

    method LoadAllBlocks() returns (r: Loaded)
      ensures r == Load(crypto, log)
    {
      hide ParseBlock, Le, FromLe;
      var out := [];
      var pos := 0;
      while pos < |log|
        invariant 0 <= pos <= |log|
        invariant Load(crypto, log)
               == match Load(crypto, log[pos..])
                  case Blocks(bs) => Blocks(out + bs)
                  case DecodeError => DecodeError
        decreases |log| - pos
      {
        var payload, next := ReadRecord(pos);
        if next == pos {
          break;
        }
        var b := Decoder.DecodeBlock(payload);
        if b.Truncated? {
          return DecodeError;
        }
        ghost var tail := Load(crypto, log[next..]);
        assert tail.Blocks? ==> out + ([b.value] + tail.blocks) == (out + [b.value]) + tail.blocks;
        out := out + [b.value];
        pos := next;
      }
      assert Load(crypto, log[pos..]) == Blocks([]);
      return Blocks(out);
    }

    /** The stream reads of one turn; `next == pos` stands for the source's `break`. */
    method ReadRecord(pos: nat) returns (payload: Bytes, next: nat)
      requires pos < |log|
      ensures pos <= next <= |log|
      ensures next == pos <==> FirstPayload(crypto, log[pos..]).Truncated?
      ensures next > pos ==> FirstPayload(crypto, log[pos..]) == Parsed(payload, log[next..])
    {
      payload, next := [], pos;
      var s := log[pos..];
      if |s| < 4 {
        return;
      }
      var magic := FromLe(s[..4]);
      if |s| < 22 {
        return;
      }
      var version := FromLe(s[4..12]);
      var kind := FromLe(s[12..14]);
      var length := FromLe(s[14..22]);
      ConstantsByValue(s);
      if magic != MAGIC || version != VERSION || kind != KIND_BLOCK {
        return;
      }
      if |s| < 22 + length {
        return;
      }
      if |s| < 22 + length + 32 {
        return;
      }
      if crypto.sha256(s[22..22 + length]) != s[22 + length..54 + length] {
        return;
      }
      payload, next := s[22..22 + length], pos + 54 + length;
      assert log[next..] == s[54 + length..];
    }
  }

  /** Comparing the three numbers is comparing the fourteen bytes. */
  lemma ConstantsByValue(s: Bytes)
    requires |s| >= 22
    ensures s[..14] == Preamble()
       <==> FromLe(s[..4]) == MAGIC && FromLe(s[4..12]) == VERSION && FromLe(s[12..14]) == KIND_BLOCK
  {
    hide Le, FromLe;
    FieldByValue(s[..4], MAGIC);
    FieldByValue(s[4..12], VERSION);
    FieldByValue(s[12..14], KIND_BLOCK);
    var k := Le(MAGIC, 4) + Le(VERSION, 8) + Le(KIND_BLOCK, 2);
    assert s[..14] == s[..4] + s[4..12] + s[12..14];
    assert k[..4] == Le(MAGIC, 4) && k[4..12] == Le(VERSION, 8) && k[12..14] == Le(KIND_BLOCK, 2);
    assert s[..14][..4] == s[..4] && s[..14][4..12] == s[4..12] && s[..14][12..14] == s[12..14];
  }

  lemma FieldByValue(s: Bytes, v: nat)
    requires v < Pow256(|s|)
    ensures s == Le(v, |s|) <==> FromLe(s) == v
  {
    LeSurjective(s);
    LeRoundTrip(v, |s|);
    DivModUnique(v, Pow256(|s|), 0, v);
  }
}
