/** src/core/chain.cpp with src/core/block_store.cpp: the `Chain` object, the chain together
    with its log, and restart. */
module Node {
  import opened Primitives
  import opened Ledger
  import opened Pow
  import opened Store
  import opened ChainCore

  datatype Node = Node(log: Bytes, chain: State)

  datatype Committed = Committed(node: Node, outcome: Outcome)

  /** `append_and_store`: validate, write, and only then push. A reported write failure
      leaves the chain as it was and whatever bytes arrived in the log. */
  function AppendStored(c: Crypto, n: Node, b: Block, io: Write): Committed {
    var o := Validate(c, n.chain, b);
    if o != ACCEPTED then Committed(n, o)
    else
      var log := n.log + Arrived(BlockRecord(c, b), io);
      if io.Detected? then Committed(Node(log, n.chain), Rejected(NoError))
      else Committed(Node(log, n.chain.(blocks := n.chain.blocks + [b])), ACCEPTED)
  }

  /** `build_block_from_transactions`. */
  function Template(c: Crypto, blocks: seq<Block>, txs: seq<Transaction>, timestamp: U64): Block {
    Block(BlockHeader(1, if blocks == [] then ZERO_HASH else HeaderHash(c, Tip(blocks).header),
                      MerkleRoot(c, txs), timestamp, 0), txs)
  }

  // ---- The object ----------------------------------------------------------

  datatype Option<+T> = None | Some(value: T)

  method IsZeroHash(hash: Hash256) returns (zero: bool)
    ensures zero == (hash == ZERO_HASH)
  {
    for i := 0 to 32
      invariant forall k :: 0 <= k < i ==> hash[k] == 0
    {
      if hash[i] != 0 {
        assert ZERO_HASH[i] == 0;
        return false;
      }
    }
    assert hash == ZERO_HASH;
    return true;
  }

  class Chain {
    const crypto: Crypto
    var blocks: seq<Block>
    var config: Config

    constructor (crypto: Crypto, config: Config)
      ensures this.crypto == crypto && View() == State([], config)
    {
      this.crypto, this.config, blocks := crypto, config, [];
    }

    ghost function View(): State
      reads this
    {
      State(blocks, config)
    }

    method SetDifficultyBits(bits: U32)
      modifies this
      ensures View() == Apply(crypto, old(View()), SetDifficulty(bits))
    {
      config := config.(difficultyBits := bits);
    }

    method BuildBlockFromTransactions(txs: seq<Transaction>, timestamp: U64) returns (b: Block)
      ensures b == Template(crypto, blocks, txs, timestamp)
    {
      var prevHash := ZERO_HASH;
      if blocks != [] {
        prevHash := HeaderHash(crypto, blocks[|blocks| - 1].header);
      }
      var root := ComputeMerkleRoot(crypto, txs);
      return Block(BlockHeader(1, prevHash, root, timestamp, 0), txs);
    }

    method ValidateBlock(b: Block) returns (o: Outcome)
      ensures o == Validate(crypto, View(), b)
    {
      hide MerkleRoot, HeaderHash, VerifyTx, MeetsDifficulty, FirstCoinbase, CheckSignatures;
      var first := blocks == [];
      if first {
        var zero := IsZeroHash(b.header.prevHash);
        if !zero {
          return Rejected(NonZeroPrevHashForGenesis);
        }
        if b.transactions != [] {
          if b.transactions[0].fromPubPem != [] {
            return Result(false, CoinBaseMisplaced, 0);
          }
          var i := FindCoinbase(b.transactions, 1);
          if i < |b.transactions| {
            return Result(false, CoinBaseMisplaced, i);
          }
        }
      } else {
        var parent := blocks[|blocks| - 1];
        if b.header.prevHash != HeaderHash(crypto, parent.header) {
          return Rejected(BadPrevLink);
        }
        if b.header.timestamp < parent.header.timestamp {
          return Rejected(NonMonotonicTimestamp);
        }
        var i := FindCoinbase(b.transactions, 0);
        if i < |b.transactions| {
          return Result(false, CoinbaseInNonGenesisBlock, i);
        }
      }
      var root := ComputeMerkleRoot(crypto, b.transactions);
      if root != b.header.merkleRoot {
        return Rejected(BadMerkleRoot);
      }
      var signed := VerifyAll(first, b.transactions);
      if signed != ACCEPTED {
        return signed;
      }
      if config.difficultyBits > 0 {
        if first && !config.enforceGenesisPow {
        } else {
          var z := MeetsBits(config.difficultyBits, HeaderHash(crypto, b.header));
          if !z {
            return Rejected(InsufficientPow);
          }
        }
      }
      return ACCEPTED;
    }

    /** The scans for an empty `from_pub_pem`. */
    static method FindCoinbase(txs: seq<Transaction>, from: nat) returns (i: nat)
      requires from <= |txs|
      ensures i == FirstCoinbase(txs, from)
      ensures from <= i <= |txs|
    {
      i := from;
      while i < |txs|
        invariant from <= i <= |txs| && FirstCoinbase(txs, from) == FirstCoinbase(txs, i)
      {
        if txs[i].fromPubPem == [] {
          return;
        }
        i := i + 1;
      }
    }

    /** The signature loop. */
    method VerifyAll(first: bool, txs: seq<Transaction>) returns (o: Outcome)
      ensures o == CheckSignatures(crypto, first, txs)
    {
      hide VerifyTx;
      var i := 0;
      while i < |txs|
        invariant 0 <= i <= |txs|
        invariant var start := FirstToVerify(first, txs);
                  FirstUnverified(crypto, txs, start)
                  == if i < start then FirstUnverified(crypto, txs, start) else FirstUnverified(crypto, txs, i)
      {
        if first && i == 0 && txs[i].fromPubPem == [] {
          i := i + 1;
          continue;
        }
        var verdict := VerifyTx(crypto, txs[i]);
        if verdict == Throws {
          return Threw;
        }
        if verdict != Valid {
          return Result(false, BadTransactionSignature, i);
        }
        i := i + 1;
      }
      return ACCEPTED;
    }

    static method MeetsBits(bits: nat, hash: Hash256) returns (ok: bool)
      ensures ok == MeetsDifficulty(bits, hash)
    {
      var z := LeadingZeroBits(hash);
      return z >= bits;
    }

    method AppendBlock(b: Block) returns (o: Outcome)
      modifies this
      ensures o == Validate(crypto, old(View()), b)
      ensures View() == Apply(crypto, old(View()), Append(b))
    {
      o := ValidateBlock(b);
      if o != ACCEPTED {
        return;
      }
      blocks := blocks + [b];
    }

    method AppendAndStore(b: Block, store: BlockStore, io: Write) returns (o: Outcome)
      requires store.crypto == crypto
      modifies this, store
      ensures Committed(Node(store.log, View()), o) == AppendStored(crypto, old(Node(store.log, View())), b, io)
    {
      hide Validate, BlockRecord;
      o := ValidateBlock(b);
      if o != ACCEPTED {
        return;
      }
      var ok := store.AppendBlock(b, io);
      if !ok {
        return Rejected(NoError);
      }
      blocks := blocks + [b];
    }

    /** `threw` is true where the source lets an exception escape. */
    method RestoreFromStore(store: BlockStore) returns (threw: bool)
      requires store.crypto == crypto
      modifies this
      ensures Restored(View(), threw) == Restore(crypto, old(View()), store.log)
    {
      hide Validate, Load;
      var loaded := store.LoadAllBlocks();
      if loaded.DecodeError? {
        return true;
      }
      var stored := loaded.blocks;
      for i := 0 to |stored|
        invariant Replay(crypto, View(), stored[i..]) == Replay(crypto, old(View()), stored)
      {
        assert stored[i..][1..] == stored[i + 1..];
        var o := AppendBlock(stored[i]);
        if o.Threw? {
          return true;
        }
        if o != ACCEPTED {
          return false;
        }
      }
      return false;
    }
  }

  /** On a non-empty chain a built block fits exactly when it is not older than the tip and its
      transactions carry keys and verify. */
  lemma TemplateFits(c: Crypto, blocks: seq<Block>, txs: seq<Transaction>, timestamp: U64)
    requires blocks != []
    ensures Fits(c, blocks, Template(c, blocks, txs, timestamp))
       <==> && timestamp >= Tip(blocks).header.timestamp
            && forall k :: 0 <= k < |txs| ==> txs[k].fromPubPem != [] && VerifyTx(c, txs[k]) == Valid
  {
    hide MerkleRoot, HeaderHash, VerifyTx;
  }

  // ---- Runs with a log -----------------------------------------------------

  datatype NodeOp = Commit(block: Block, io: Write) | Tune(bits: U32)

  function NodeStep(c: Crypto, n: Node, op: NodeOp): Node {
    match op
    case Commit(b, io) => AppendStored(c, n, b, io).node
    case Tune(bits) => n.(chain := Apply(c, n.chain, SetDifficulty(bits)))
  }

  function NodeRun(c: Crypto, n: Node, ops: seq<NodeOp>): Node
    decreases |ops|
  {
    if ops == [] then n else NodeStep(c, NodeRun(c, n, ops[..|ops| - 1]), ops[|ops| - 1])
  }

  /** A write that arrived whole, or failed before any byte arrived. */
  predicate CleanWrite(io: Write) { io.Completed? || (io.Detected? && io.n == 0) }

  /** If validation lets the block through, the log can hold it and its write is clean. */
  ghost predicate CleanOp(c: Crypto, n: Node, op: NodeOp) {
    op.Commit? && Validate(c, n.chain, op.block) == ACCEPTED ==> Storable(op.block) && CleanWrite(op.io)
  }

  /** Every operation of the run is clean in the state it meets. */
  ghost predicate CleanRun(c: Crypto, n: Node, ops: seq<NodeOp>) {
    forall i :: 0 <= i < |ops| ==> CleanOp(c, NodeRun(c, n, ops[..i]), ops[i])
  }

  /** The chain operations of a run with a log: failed writes append nothing. */
  function Effective(ops: seq<NodeOp>): seq<Op>
    decreases |ops|
  {
    if ops == [] then []
    else
      var rest := Effective(ops[..|ops| - 1]);
      match ops[|ops| - 1]
      case Commit(b, io) => if io.Completed? then rest + [Append(b)] else rest
      case Tune(bits) => rest + [SetDifficulty(bits)]
  }

  /** The log holds exactly the records of the chain. */
  ghost predicate InStep(c: Crypto, n: Node) {
    n.log == LogOf(c, n.chain.blocks) && AllStorable(n.chain.blocks)
  }

  /** A clean commit keeps log and chain in step. */
  lemma CommitInStep(c: Crypto, n: Node, b: Block, io: Write)
    requires InStep(c, n) && CleanOp(c, n, Commit(b, io))
    ensures InStep(c, AppendStored(c, n, b, io).node)
    ensures AppendStored(c, n, b, io).node.chain
         == if io.Completed? then Apply(c, n.chain, Append(b)) else n.chain
  {
    hide Validate, BlockRecord, LogOf, Storable;
    if Validate(c, n.chain, b) == ACCEPTED {
      if io.Completed? {
        LogOfAppend(c, n.chain.blocks, b);
      } else {
        assert n.log + Arrived(BlockRecord(c, b), io) == n.log;
      }
    }
  }

  /** After one commit of an accepted block, whatever the stream did, the log decodes to the
      in-memory chain exactly when the caller was told the truth, failure without the whole
      record in the log or success with it, and a block reported as stored is encodable. */
  lemma CommitDecodesIff(c: Crypto, n: Node, b: Block, io: Write)
    requires InStep(c, n) && |BlockBytes(b)| < TWO_64 && Validate(c, n.chain, b) == ACCEPTED
    ensures var after := AppendStored(c, n, b, io).node;
            var whole := Arrived(BlockRecord(c, b), io) == BlockRecord(c, b);
            Load(c, after.log) == Blocks(after.chain.blocks)
            <==> if io.Detected? then !whole else whole && Encodable(b)
  {
    hide Load, LogOf, BlockRecord, AllStorable, Validate, Encodable;
    var r, blocks := BlockRecord(c, b), n.chain.blocks;
    if Arrived(r, io) == r {
      WholeRecordLoads(c, blocks, b);
    } else {
      CutRecordLoads(c, blocks, b, io.n);
    }
    assert |blocks + [b]| != |blocks|;
  }

  lemma WholeRecordLoads(c: Crypto, blocks: seq<Block>, b: Block)
    requires AllStorable(blocks) && |BlockBytes(b)| < TWO_64
    ensures Load(c, LogOf(c, blocks) + BlockRecord(c, b)) == Blocks(blocks + [b]) <==> Encodable(b)
    ensures Load(c, LogOf(c, blocks) + BlockRecord(c, b)) != Blocks(blocks)
  {
    hide Load, BlockBytes, RecordOf, FirstPayload, AllStorable, Encodable;
    var r := BlockRecord(c, b);
    assert LogOf(c, [b]) == r + LogOf(c, []) == r;
    LoadWritten(c, blocks, r);
    LogReadsBackIff(c, [b]);
    FirstPayloadWritten(c, BlockBytes(b), []);
    assert r + [] == r;
    MovesOn(c, r);
    if Load(c, r).Blocks? {
      var bs := Load(c, r).blocks;
      assert |blocks + bs| != |blocks|;
      assert blocks + bs == blocks + [b] <==> bs == [b] by {
        assert (blocks + bs)[|blocks|..] == bs && (blocks + [b])[|blocks|..] == [b];
      }
    }
  }

  lemma CutRecordLoads(c: Crypto, blocks: seq<Block>, b: Block, n: nat)
    requires AllStorable(blocks) && |BlockBytes(b)| < TWO_64 && n < |BlockRecord(c, b)|
    ensures Load(c, LogOf(c, blocks) + BlockRecord(c, b)[..n]) == Blocks(blocks)
  {
    hide Load, LogOf, BlockBytes, RecordOf, FirstPayload, AllStorable;
    var cut := BlockRecord(c, b)[..n];
    CutRecordStops(c, BlockBytes(b), n);
    StopsAtOnce(c, cut);
    LoadWritten(c, blocks, cut);
    assert blocks + [] == blocks;
  }

  lemma {:induction false} NodeRunInStep(c: Crypto, config: Config, ops: seq<NodeOp>)
    requires CleanRun(c, Node([], State([], config)), ops)
    ensures var n := NodeRun(c, Node([], State([], config)), ops);
            InStep(c, n) && n.chain == Run(c, State([], config), Effective(ops))
    decreases |ops|
  {
    hide Validate, Apply, AppendStored, CleanOp;
    if ops != [] {
      var start, init, op := Node([], State([], config)), ops[..|ops| - 1], ops[|ops| - 1];
      var before := NodeRun(c, start, init);
      assert CleanRun(c, start, init) by {
        assert forall i :: 0 <= i < |init| ==> init[..i] == ops[..i];
      }
      NodeRunInStep(c, config, init);
      assert CleanOp(c, before, op);
      match op
      case Commit(b, io) =>
        CommitInStep(c, before, b, io);
        if io.Completed? {
          RunSnoc(c, State([], config), Effective(init), Append(b));
        }
      case Tune(bits) =>
        RunSnoc(c, State([], config), Effective(init), SetDifficulty(bits));
        TuneKeepsBlocks(c, before.chain, bits);
    }
  }

  lemma TuneKeepsBlocks(c: Crypto, s: State, bits: U32)
    ensures Apply(c, s, SetDifficulty(bits)).blocks == s.blocks
  {
  }

  /** Restoring a log that is in step with a reachable chain, at a difficulty no higher than
      any in force at an append, gives back exactly that chain. */
  lemma RestoreInStep(c: Crypto, n: Node, bits: seq<U32>, reboot: Config)
    requires InStep(c, n) && Admitted(c, reboot.enforceGenesisPow, n.chain.blocks, bits)
    requires forall i :: 0 <= i < |bits| ==> reboot.difficultyBits <= bits[i]
    ensures Restore(c, State([], reboot), n.log) == Restored(State(n.chain.blocks, reboot), false)
  {
    hide Load, LogOf, Admitted, ChainInvariant, AllStorable, Replay;
    LogRoundTrip(c, n.chain.blocks);
    AdmittedIffInvariant(c, reboot.enforceGenesisPow, n.chain.blocks, bits);
    ReplayAtLowerDifficulty(c, reboot, n.chain.blocks, bits);
  }

  /** Restart: after any run of clean commits and difficulty changes from an empty store, a
      fresh chain with the same genesis flag, and a difficulty no higher than any in force
      at an accepted append, restores exactly the same blocks. */
  lemma RestartReplay(c: Crypto, config: Config, ops: seq<NodeOp>, reboot: Config)
    requires CleanRun(c, Node([], State([], config)), ops)
    requires reboot.enforceGenesisPow == config.enforceGenesisPow
    requires var bits := Difficulties(c, State([], config), Effective(ops));
             forall i :: 0 <= i < |bits| ==> reboot.difficultyBits <= bits[i]
    ensures var n := NodeRun(c, Node([], State([], config)), ops);
            Restore(c, State([], reboot), n.log) == Restored(State(n.chain.blocks, reboot), false)
  {
    hide NodeRun, Run, Difficulties, Restore, Admitted, CleanRun, InStep;
    NodeRunInStep(c, config, ops);
    RunAdmits(c, config, Effective(ops));
    RestoreInStep(c, NodeRun(c, Node([], State([], config)), ops),
                  Difficulties(c, State([], config), Effective(ops)), reboot);
  }

  /** A crash at any byte of the last commit: restart finds the chain with or without the
      new block, and nothing else. */
  lemma CrashRestart(c: Crypto, n: Node, bits: seq<U32>, b: Block, m: nat, reboot: Config)
    requires InStep(c, n) && Admitted(c, reboot.enforceGenesisPow, n.chain.blocks, bits)
    requires n.chain.config.enforceGenesisPow == reboot.enforceGenesisPow
    requires Storable(b) && Validate(c, n.chain, b) == ACCEPTED && m <= |BlockRecord(c, b)|
    requires reboot.difficultyBits <= n.chain.config.difficultyBits
    requires forall i :: 0 <= i < |bits| ==> reboot.difficultyBits <= bits[i]
    ensures Restore(c, State([], reboot), n.log + BlockRecord(c, b)[..m])
         == Restored(State(if m == |BlockRecord(c, b)| then n.chain.blocks + [b] else n.chain.blocks, reboot), false)
  {
    hide Load, LogOf, Admitted, BlockRecord, Storable, Validate, Fits, Worked;
    var d, enforce := n.chain.config.difficultyBits, reboot.enforceGenesisPow;
    assert AllStorable(n.chain.blocks + [b]);
    CrashDuringAppend(c, n.chain.blocks, b, m);
    AcceptedIff(c, n.chain, b);
    assert n.chain.config == Config(d, enforce);
    AdmittedAppend(c, enforce, n.chain.blocks, bits, b, d);
    ReplayAdmitted(c, reboot, n.chain.blocks, bits);
    ReplayAdmitted(c, reboot, n.chain.blocks + [b], bits + [d]);
  }

  lemma ReplayAdmitted(c: Crypto, reboot: Config, blocks: seq<Block>, bits: seq<U32>)
    requires Admitted(c, reboot.enforceGenesisPow, blocks, bits)
    requires forall i :: 0 <= i < |bits| ==> reboot.difficultyBits <= bits[i]
    ensures Replay(c, State([], reboot), blocks) == Restored(State(blocks, reboot), false)
  {
    hide Admitted, ChainInvariant, Replay;
    AdmittedIffInvariant(c, reboot.enforceGenesisPow, blocks, bits);
    ReplayAtLowerDifficulty(c, reboot, blocks, bits);
  }
}
