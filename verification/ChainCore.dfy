/** src/core/chain.cpp and include/astro/core/chain.hpp: validation, runs of a chain, and replay. */
module ChainCore {
  import opened Primitives
  import opened Ledger
  import opened Pow
  import opened Store

  datatype ValidationError =
    | NoError
    | EmptyChainButNotGenesis
    | NonZeroPrevHashForGenesis
    | BadPrevLink
    | NonMonotonicTimestamp
    | BadMerkleRoot
    | BadTransactionSignature
    | CoinBaseMisplaced
    | CoinbaseInNonGenesisBlock
    | InsufficientPow

  /** The index reported when no transaction is to blame, `~0ull`. */
  const NO_INDEX: nat := 0xFFFF_FFFF_FFFF_FFFF

  /** A `ValidationResult`, or the exception of an unreadable key. */
  datatype Outcome = Result(isValid: bool, error: ValidationError, index: nat) | Threw

  const ACCEPTED := Result(true, NoError, NO_INDEX)

  function Rejected(error: ValidationError): Outcome { Result(false, error, NO_INDEX) }

  datatype Config = Config(difficultyBits: U32, enforceGenesisPow: bool)

  datatype State = State(blocks: seq<Block>, config: Config)

  function Tip(blocks: seq<Block>): Block
    requires blocks != []
  {
    blocks[|blocks| - 1]
  }

  // ---- Validation, check by check ------------------------------------------

  function FirstCoinbase(txs: seq<Transaction>, from: nat): (i: nat)
    requires from <= |txs|
    ensures from <= i <= |txs|
    ensures forall k :: from <= k < i ==> txs[k].fromPubPem != []
    ensures i < |txs| ==> txs[i].fromPubPem == []
    decreases |txs| - from
  {
    if from == |txs| || txs[from].fromPubPem == [] then from else FirstCoinbase(txs, from + 1)
  }

  function FirstUnverified(c: Crypto, txs: seq<Transaction>, from: nat): (i: nat)
    requires from <= |txs|
    ensures from <= i <= |txs|
    ensures forall k :: from <= k < i ==> VerifyTx(c, txs[k]) == Valid
    ensures i < |txs| ==> VerifyTx(c, txs[i]) != Valid
    decreases |txs| - from
  {
    if from == |txs| || VerifyTx(c, txs[from]) != Valid then from else FirstUnverified(c, txs, from + 1)
  }

  function CheckGenesis(b: Block): Outcome {
    if b.header.prevHash != ZERO_HASH then Rejected(NonZeroPrevHashForGenesis)
    else if b.transactions == [] then ACCEPTED
    else if b.transactions[0].fromPubPem != [] then Result(false, CoinBaseMisplaced, 0)
    else
      var i := FirstCoinbase(b.transactions, 1);
      if i < |b.transactions| then Result(false, CoinBaseMisplaced, i) else ACCEPTED
  }

  function CheckSuccessor(c: Crypto, parent: Block, b: Block): Outcome {
    if b.header.prevHash != HeaderHash(c, parent.header) then Rejected(BadPrevLink)
    else if b.header.timestamp < parent.header.timestamp then Rejected(NonMonotonicTimestamp)
    else
      var i := FirstCoinbase(b.transactions, 0);
      if i < |b.transactions| then Result(false, CoinbaseInNonGenesisBlock, i) else ACCEPTED
  }

  /** The genesis coinbase is not verified. */
  function FirstToVerify(first: bool, txs: seq<Transaction>): (i: nat)
    ensures i <= |txs|
  {
    if first && txs != [] && txs[0].fromPubPem == [] then 1 else 0
  }

  function CheckSignatures(c: Crypto, first: bool, txs: seq<Transaction>): Outcome {
    var i := FirstUnverified(c, txs, FirstToVerify(first, txs));
    if i == |txs| then ACCEPTED
    else if VerifyTx(c, txs[i]) == Throws then Threw
    else Result(false, BadTransactionSignature, i)
  }

  predicate PowRequired(config: Config, first: bool) {
    config.difficultyBits > 0 && (!first || config.enforceGenesisPow)
  }

  function Validate(c: Crypto, s: State, b: Block): Outcome {
    var first := s.blocks == [];
    var placed := if first then CheckGenesis(b) else CheckSuccessor(c, Tip(s.blocks), b);
    if placed != ACCEPTED then placed
    else if MerkleRoot(c, b.transactions) != b.header.merkleRoot then Rejected(BadMerkleRoot)
    else
      var signed := CheckSignatures(c, first, b.transactions);
      if signed != ACCEPTED then signed
      else if PowRequired(s.config, first) && !MeetsDifficulty(s.config.difficultyBits, HeaderHash(c, b.header))
      then Rejected(InsufficientPow)
      else ACCEPTED
  }

  // ---- Acceptance, declaratively -------------------------------------------

  /** `b` stands where block number `|before|` belongs: it links to its parent, is not older,
      and has an empty key first in genesis and nowhere else. */
  ghost predicate Placed(c: Crypto, before: seq<Block>, b: Block) {
    && (before == [] ==> b.header.prevHash == ZERO_HASH)
    && (before != [] ==> && b.header.prevHash == HeaderHash(c, Tip(before).header)
                         && b.header.timestamp >= Tip(before).header.timestamp)
    && forall k :: 0 <= k < |b.transactions| ==> (b.transactions[k].fromPubPem == [] <==> before == [] && k == 0)
  }

  /** Every transaction but the genesis coinbase verifies. */
  ghost predicate Signed(c: Crypto, before: seq<Block>, b: Block) {
    forall k :: 0 <= k < |b.transactions| && (before != [] || k > 0) ==> VerifyTx(c, b.transactions[k]) == Valid
  }

  /** Everything about a block except its proof of work. */
  ghost predicate Fits(c: Crypto, before: seq<Block>, b: Block) {
    && Placed(c, before, b)
    && b.header.merkleRoot == MerkleRoot(c, b.transactions)
    && Signed(c, before, b)
  }

  ghost predicate Worked(c: Crypto, config: Config, first: bool, b: Block) {
    PowRequired(config, first) ==> MeetsDifficulty(config.difficultyBits, HeaderHash(c, b.header))
  }

  lemma PlacedIff(c: Crypto, before: seq<Block>, b: Block)
    ensures Placed(c, before, b)
       <==> (if before == [] then CheckGenesis(b) else CheckSuccessor(c, Tip(before), b)) == ACCEPTED
  {
    hide HeaderHash;
  }

  lemma SignedIff(c: Crypto, before: seq<Block>, b: Block)
    requires Placed(c, before, b)
    ensures Signed(c, before, b) <==> CheckSignatures(c, before == [], b.transactions) == ACCEPTED
  {
    hide HeaderHash, VerifyTx;
  }

  /** `validate_block` accepts exactly the blocks that fit and carry the work. */
  lemma AcceptedIff(c: Crypto, s: State, b: Block)
    ensures Validate(c, s, b) == ACCEPTED <==> Fits(c, s.blocks, b) && Worked(c, s.config, s.blocks == [], b)
  {
    hide MerkleRoot, HeaderHash, MeetsDifficulty, Placed, Signed, CheckGenesis, CheckSuccessor, CheckSignatures;
    PlacedIff(c, s.blocks, b);
    if Placed(c, s.blocks, b) {
      SignedIff(c, s.blocks, b);
    }
  }

  /** Work at one difficulty is work at every lower one. */
  lemma LessWorkSuffices(c: Crypto, bits: U32, lower: U32, enforce: bool, first: bool, b: Block)
    requires lower <= bits && Worked(c, Config(bits, enforce), first, b)
    ensures Worked(c, Config(lower, enforce), first, b)
  {
  }

  /** The first transaction to be verified that is not valid has this verdict. */
  ghost predicate FirstBad(c: Crypto, before: seq<Block>, txs: seq<Transaction>, v: Verdict) {
    exists j :: && 0 <= j < |txs| && (before != [] || j > 0) && VerifyTx(c, txs[j]) == v
                && forall k :: 0 <= k < j && (before != [] || k > 0) ==> VerifyTx(c, txs[k]) == Valid
  }

  /** What validation returns, for every block and every state: the checks run in the order link,
      time, coinbase, Merkle root, signatures, work, the first failure is reported, and it
      throws exactly when the first transaction that is not valid has an unreadable key. */
  lemma ErrorReported(c: Crypto, s: State, b: Block)
    ensures var o := Validate(c, s, b);
            var linked := s.blocks != [] && b.header.prevHash == HeaderHash(c, Tip(s.blocks).header);
            var late := s.blocks != [] && b.header.timestamp >= Tip(s.blocks).header.timestamp;
            var placed := Placed(c, s.blocks, b);
            var rooted := placed && b.header.merkleRoot == MerkleRoot(c, b.transactions);
            var signed := rooted && Signed(c, s.blocks, b);
            var idle := && s.config.difficultyBits > 0 && (s.blocks != [] || s.config.enforceGenesisPow)
                        && !MeetsDifficulty(s.config.difficultyBits, HeaderHash(c, b.header));
            var none := 0xFFFF_FFFF_FFFF_FFFF;
            && (o == Result(false, NonZeroPrevHashForGenesis, none) <==> s.blocks == [] && b.header.prevHash != ZERO_HASH)
            && (o == Result(false, BadPrevLink, none) <==> s.blocks != [] && !linked)
            && (o == Result(false, NonMonotonicTimestamp, none) <==> linked && !late)
            && (o.Result? && !o.isValid && o.error == CoinBaseMisplaced <==>
                  s.blocks == [] && b.header.prevHash == ZERO_HASH && !placed)
            && (o.Result? && !o.isValid && o.error == CoinbaseInNonGenesisBlock <==> linked && late && !placed)
            && (o == Result(false, BadMerkleRoot, none) <==> placed && !rooted)
            && (o.Result? && !o.isValid && o.error == BadTransactionSignature <==>
                  rooted && FirstBad(c, s.blocks, b.transactions, Invalid))
            && (o.Threw? <==> rooted && FirstBad(c, s.blocks, b.transactions, Throws))
            && (o == Result(false, InsufficientPow, none) <==> signed && idle)
            && (o == Result(true, NoError, none) <==> signed && !idle)
  {
    hide MerkleRoot, HeaderHash, VerifyTx, MeetsDifficulty, Signed, CheckSignatures, FirstCoinbase, Placed, FirstBad;
    PlacedIff(c, s.blocks, b);
    PlacedLink(c, s.blocks, b);
    if Placed(c, s.blocks, b) {
      SignedIff(c, s.blocks, b);
      SignatureOutcome(c, s.blocks, b);
    }
  }

  lemma SignatureOutcome(c: Crypto, before: seq<Block>, b: Block)
    requires Placed(c, before, b)
    ensures var o := CheckSignatures(c, before == [], b.transactions);
            && (o.Threw? <==> FirstBad(c, before, b.transactions, Throws))
            && (o.Result? && !o.isValid <==> FirstBad(c, before, b.transactions, Invalid))
            && (o.Result? && !o.isValid ==> o.error == BadTransactionSignature)
            && (o.Result? && o.isValid ==> o == ACCEPTED)
  {
    hide HeaderHash, VerifyTx;
    var txs, start := b.transactions, FirstToVerify(before == [], b.transactions);
    assert start == if before == [] && txs != [] then 1 else 0;
    var i := FirstUnverified(c, txs, start);
    if i < |txs| {
      assert FirstBad(c, before, txs, VerifyTx(c, txs[i]));
    }
  }

  lemma PlacedLink(c: Crypto, before: seq<Block>, b: Block)
    ensures Placed(c, before, b) && before == [] ==> b.header.prevHash == ZERO_HASH
    ensures Placed(c, before, b) && before != [] ==>
              && b.header.prevHash == HeaderHash(c, Tip(before).header)
              && b.header.timestamp >= Tip(before).header.timestamp
  {
    hide HeaderHash;
  }

  /** A transaction whose key is missing where it must not be, or present where it must not be. */
  predicate Misplaced(first: bool, txs: seq<Transaction>, k: nat)
    requires k < |txs|
  {
    (txs[k].fromPubPem == []) != (first && k == 0)
  }

  /** A coinbase error names the first misplaced transaction. */
  lemma CoinbaseIndex(c: Crypto, s: State, b: Block, first: bool)
    requires first == (s.blocks == [])
    ensures var o := Validate(c, s, b);
            o.Result? && (o.error == CoinBaseMisplaced || o.error == CoinbaseInNonGenesisBlock) ==>
              && o.index < |b.transactions| && Misplaced(first, b.transactions, o.index)
              && forall k :: 0 <= k < o.index ==> !Misplaced(first, b.transactions, k)
  {
    hide MerkleRoot, HeaderHash, VerifyTx, MeetsDifficulty;
  }

  /** The signature check stops at the first transaction, past an allowed coinbase, that does
      not verify; it throws exactly when the key of that one is unreadable, and otherwise
      reports its index. */
  lemma SignatureVerdict(c: Crypto, first: bool, txs: seq<Transaction>)
    ensures var o, start := CheckSignatures(c, first, txs), FirstToVerify(first, txs);
            && (o.Threw? <==> exists j :: && start <= j < |txs| && VerifyTx(c, txs[j]) == Throws
                                          && forall k :: start <= k < j ==> VerifyTx(c, txs[k]) == Valid)
            && (o.Result? && !o.isValid ==>
                  && o.error == BadTransactionSignature
                  && start <= o.index < |txs| && VerifyTx(c, txs[o.index]) == Invalid
                  && forall k :: start <= k < o.index ==> VerifyTx(c, txs[k]) == Valid)
            && (o.Result? && o.isValid ==> o == ACCEPTED)
  {
    hide VerifyTx;
  }

  /** A signature error of the whole validation names the first transaction that is not valid. */
  lemma SignatureIndex(c: Crypto, s: State, b: Block)
    ensures var o := Validate(c, s, b);
            o.Result? && o.error == BadTransactionSignature ==>
              && o.index < |b.transactions| && (s.blocks != [] || o.index > 0)
              && VerifyTx(c, b.transactions[o.index]) == Invalid
              && forall k :: 0 <= k < o.index && (s.blocks != [] || k > 0) ==> VerifyTx(c, b.transactions[k]) == Valid
  {
    hide MerkleRoot, HeaderHash, VerifyTx, MeetsDifficulty, Placed, FirstCoinbase;
    PlacedIff(c, s.blocks, b);
    if Placed(c, s.blocks, b) {
      PlacedStart(c, s.blocks, b);
      SignatureVerdict(c, s.blocks == [], b.transactions);
    }
  }

  lemma PlacedStart(c: Crypto, before: seq<Block>, b: Block)
    requires Placed(c, before, b)
    ensures FirstToVerify(before == [], b.transactions) == if before == [] && b.transactions != [] then 1 else 0
  {
    hide HeaderHash;
  }

  /** The triples of key, message and signature that verify. */
  ghost predicate VerifiesExactly(c: Crypto, signed: set<(Bytes, Bytes, Bytes)>) {
    forall key, message, signature :: c.verify(key, message, signature) == Valid <==> (key, message, signature) in signed
  }

  /** What a signature is over. If exactly the triples of `signed` verify, a block goes onto a
      non-empty chain if and only if it links, is not older, has its root and its work, and each
      transaction carries a key that has signed, with the signature it carries, its encoding
      with an empty signature. */
  lemma AcceptedIffAuthorised(c: Crypto, signed: set<(Bytes, Bytes, Bytes)>, s: State, b: Block)
    requires VerifiesExactly(c, signed) && s.blocks != []
    ensures Validate(c, s, b) == ACCEPTED
       <==> && b.header.prevHash == HeaderHash(c, Tip(s.blocks).header)
            && b.header.timestamp >= Tip(s.blocks).header.timestamp
            && b.header.merkleRoot == MerkleRoot(c, b.transactions)
            && MeetsDifficulty(s.config.difficultyBits, HeaderHash(c, b.header))
            && forall k :: 0 <= k < |b.transactions| ==>
                 var tx := b.transactions[k];
                 tx.fromPubPem != [] && (tx.fromPubPem, FullBytes(tx.(signature := [])), tx.signature) in signed
  {
    hide HeaderHash, MerkleRoot, Validate, LeadingZeros, FullBytes, SigningBytes;
    AcceptedIff(c, s, b);
    forall k | 0 <= k < |b.transactions|
      ensures var tx := b.transactions[k];
              VerifyTx(c, tx) == Valid <==> (tx.fromPubPem, FullBytes(tx.(signature := [])), tx.signature) in signed
    {
      UnsignedBytes(b.transactions[k]);
    }
  }

  /** The genesis block of `make_genesis_block` opens every chain that does not ask it for work. */
  lemma GenesisAccepted(c: Crypto, config: Config, note: Bytes, unixTime: U64)
    ensures var g := GenesisBlock(c, note, unixTime);
            Validate(c, State([], config), g) == ACCEPTED <==> Worked(c, config, true, g)
  {
    hide MerkleRoot, HeaderHash, VerifyTx, MeetsDifficulty;
    AcceptedIff(c, State([], config), GenesisBlock(c, note, unixTime));
  }

  // ---- Runs ----------------------------------------------------------------

  datatype Op = Append(block: Block) | SetDifficulty(bits: U32)

  function Apply(c: Crypto, s: State, op: Op): State {
    match op
    case Append(b) => if Validate(c, s, b) == ACCEPTED then s.(blocks := s.blocks + [b]) else s
    case SetDifficulty(bits) => s.(config := s.config.(difficultyBits := bits))
  }

  function Run(c: Crypto, s: State, ops: seq<Op>): State
    decreases |ops|
  {
    if ops == [] then s else Apply(c, Run(c, s, ops[..|ops| - 1]), ops[|ops| - 1])
  }

  /** The difficulty in force at each accepted append of a run. */
  function Difficulties(c: Crypto, s: State, ops: seq<Op>): seq<U32>
    decreases |ops|
  {
    if ops == [] then []
    else
      var before, op := Run(c, s, ops[..|ops| - 1]), ops[|ops| - 1];
      var bits := Difficulties(c, s, ops[..|ops| - 1]);
      if op.Append? && Validate(c, before, op.block) == ACCEPTED then bits + [before.config.difficultyBits] else bits
  }

  /** Block by block: each was admissible, at its difficulty, on top of those before it. */
  ghost predicate Admitted(c: Crypto, enforce: bool, blocks: seq<Block>, bits: seq<U32>) {
    && |bits| == |blocks|
    && forall i :: 0 <= i < |blocks| ==>
         Fits(c, blocks[..i], blocks[i]) && Worked(c, Config(bits[i], enforce), i == 0, blocks[i])
  }

  lemma AdmittedAppend(c: Crypto, enforce: bool, blocks: seq<Block>, bits: seq<U32>, b: Block, d: U32)
    requires Admitted(c, enforce, blocks, bits)
    requires Fits(c, blocks, b) && Worked(c, Config(d, enforce), blocks == [], b)
    ensures Admitted(c, enforce, blocks + [b], bits + [d])
  {
    hide Fits, Worked;
    var bs, ds := blocks + [b], bits + [d];
    forall i | 0 <= i < |bs|
      ensures Fits(c, bs[..i], bs[i]) && Worked(c, Config(ds[i], enforce), i == 0, bs[i])
    {
      if i < |blocks| {
        assert bs[..i] == blocks[..i] && bs[i] == blocks[i] && ds[i] == bits[i];
      } else {
        assert bs[..i] == blocks;
      }
    }
  }

  lemma AdmittedPrefix(c: Crypto, enforce: bool, blocks: seq<Block>, bits: seq<U32>, n: nat)
    requires Admitted(c, enforce, blocks, bits) && n <= |blocks|
    ensures Admitted(c, enforce, blocks[..n], bits[..n])
  {
    hide Fits, Worked;
    forall i | 0 <= i < n
      ensures Fits(c, blocks[..n][..i], blocks[..n][i])
      ensures Worked(c, Config(bits[..n][i], enforce), i == 0, blocks[..n][i])
    {
      assert blocks[..n][..i] == blocks[..i];
    }
  }

  lemma {:induction false} RunAdmits(c: Crypto, config: Config, ops: seq<Op>)
    ensures Run(c, State([], config), ops).config.enforceGenesisPow == config.enforceGenesisPow
    ensures Admitted(c, config.enforceGenesisPow, Run(c, State([], config), ops).blocks,
                     Difficulties(c, State([], config), ops))
    decreases |ops|
  {
    hide Validate, Fits, Worked;
    if ops != [] {
      var init, op := ops[..|ops| - 1], ops[|ops| - 1];
      var before := Run(c, State([], config), init);
      RunAdmits(c, config, init);
      if op.Append? && Validate(c, before, op.block) == ACCEPTED {
        AcceptedIff(c, before, op.block);
        assert before.config == Config(before.config.difficultyBits, config.enforceGenesisPow);
        AdmittedAppend(c, config.enforceGenesisPow, before.blocks, Difficulties(c, State([], config), init),
                       op.block, before.config.difficultyBits);
      }
    }
  }

  /** The invariant of a chain, over all its blocks at once. */
  ghost predicate ChainInvariant(c: Crypto, enforce: bool, blocks: seq<Block>, bits: seq<U32>) {
    && |bits| == |blocks|
    && (blocks != [] ==> blocks[0].header.prevHash == ZERO_HASH)
    && (forall i :: 0 < i < |blocks| ==> blocks[i].header.prevHash == HeaderHash(c, blocks[i - 1].header))
    && (forall i, j :: 0 <= i <= j < |blocks| ==> blocks[i].header.timestamp <= blocks[j].header.timestamp)
    && (forall i :: 0 <= i < |blocks| ==> blocks[i].header.merkleRoot == MerkleRoot(c, blocks[i].transactions))
    && (forall i, k :: 0 <= i < |blocks| && 0 <= k < |blocks[i].transactions| ==>
          (blocks[i].transactions[k].fromPubPem == [] <==> i == 0 && k == 0))
    && (forall i, k :: 0 <= i < |blocks| && 0 <= k < |blocks[i].transactions| && (i > 0 || k > 0) ==>
          VerifyTx(c, blocks[i].transactions[k]) == Valid)
    && (forall i :: 0 <= i < |blocks| && bits[i] > 0 && (i > 0 || enforce) ==>
          MeetsDifficulty(bits[i], HeaderHash(c, blocks[i].header)))
  }

  lemma {:induction false} TimestampsOrdered(c: Crypto, enforce: bool, blocks: seq<Block>, bits: seq<U32>, i: nat, j: nat)
    requires Admitted(c, enforce, blocks, bits) && i <= j < |blocks|
    ensures blocks[i].header.timestamp <= blocks[j].header.timestamp
    decreases j - i
  {
    hide MerkleRoot, HeaderHash, VerifyTx, MeetsDifficulty;
    if i < j {
      TimestampsOrdered(c, enforce, blocks, bits, i, j - 1);
      assert Fits(c, blocks[..j], blocks[j]);
      assert Tip(blocks[..j]) == blocks[j - 1];
    }
  }

  lemma AdmittedIffInvariant(c: Crypto, enforce: bool, blocks: seq<Block>, bits: seq<U32>)
    ensures Admitted(c, enforce, blocks, bits) <==> ChainInvariant(c, enforce, blocks, bits)
  {
    if Admitted(c, enforce, blocks, bits) {
      AdmittedGivesInvariant(c, enforce, blocks, bits);
    }
    if ChainInvariant(c, enforce, blocks, bits) {
      InvariantGivesAdmitted(c, enforce, blocks, bits);
    }
  }

  lemma AdmittedGivesInvariant(c: Crypto, enforce: bool, blocks: seq<Block>, bits: seq<U32>)
    requires Admitted(c, enforce, blocks, bits)
    ensures ChainInvariant(c, enforce, blocks, bits)
  {
    hide MerkleRoot, HeaderHash, VerifyTx, MeetsDifficulty;
    forall i, j | 0 <= i <= j < |blocks|
      ensures blocks[i].header.timestamp <= blocks[j].header.timestamp
    {
      TimestampsOrdered(c, enforce, blocks, bits, i, j);
    }
    forall i | 0 <= i < |blocks|
      ensures Fits(c, blocks[..i], blocks[i]) && Worked(c, Config(bits[i], enforce), i == 0, blocks[i])
      ensures i > 0 ==> blocks[i].header.prevHash == HeaderHash(c, blocks[i - 1].header)
    {
      assert i > 0 ==> Tip(blocks[..i]) == blocks[i - 1];
    }
    forall i, k | 0 <= i < |blocks| && 0 <= k < |blocks[i].transactions|
      ensures blocks[i].transactions[k].fromPubPem == [] <==> i == 0 && k == 0
      ensures i > 0 || k > 0 ==> VerifyTx(c, blocks[i].transactions[k]) == Valid
    {
      assert Fits(c, blocks[..i], blocks[i]);
    }
  }

  lemma InvariantGivesAdmitted(c: Crypto, enforce: bool, blocks: seq<Block>, bits: seq<U32>)
    requires ChainInvariant(c, enforce, blocks, bits)
    ensures Admitted(c, enforce, blocks, bits)
  {
    hide MerkleRoot, HeaderHash, VerifyTx, MeetsDifficulty;
    forall i | 0 <= i < |blocks|
      ensures Fits(c, blocks[..i], blocks[i]) && Worked(c, Config(bits[i], enforce), i == 0, blocks[i])
    {
      assert i > 0 ==> Tip(blocks[..i]) == blocks[i - 1];
    }
  }

  /** Some run of appends and difficulty changes, from an empty chain, ends in `blocks`,
      having accepted each of them at its difficulty in `bits`. */
  ghost predicate Reachable(c: Crypto, enforce: bool, blocks: seq<Block>, bits: seq<U32>) {
    exists d: U32, ops: seq<Op> ::
      && Run(c, State([], Config(d, enforce)), ops).blocks == blocks
      && Difficulties(c, State([], Config(d, enforce)), ops) == bits
  }

  /** The canonical run: set the difficulty, append the block. */
  function Rebuild(blocks: seq<Block>, bits: seq<U32>): seq<Op>
    requires |blocks| == |bits|
    decreases |blocks|
  {
    if blocks == [] then []
    else
      var n := |blocks| - 1;
      Rebuild(blocks[..n], bits[..n]) + [SetDifficulty(bits[n])] + [Append(blocks[n])]
  }

  lemma RunSnoc(c: Crypto, s: State, ops: seq<Op>, op: Op)
    ensures Run(c, s, ops + [op]) == Apply(c, Run(c, s, ops), op)
    ensures Difficulties(c, s, ops + [op])
         == var before := Run(c, s, ops);
            if op.Append? && Validate(c, before, op.block) == ACCEPTED
            then Difficulties(c, s, ops) + [before.config.difficultyBits] else Difficulties(c, s, ops)
  {
    hide Validate, Apply;
    assert (ops + [op])[..|ops|] == ops;
  }

  lemma {:induction false} RebuildWorks(c: Crypto, config: Config, blocks: seq<Block>, bits: seq<U32>)
    requires Admitted(c, config.enforceGenesisPow, blocks, bits)
    ensures Run(c, State([], config), Rebuild(blocks, bits)).blocks == blocks
    ensures Difficulties(c, State([], config), Rebuild(blocks, bits)) == bits
    decreases |blocks|
  {
    hide Validate, Fits, Worked;
    if blocks != [] {
      var n := |blocks| - 1;
      var ops := Rebuild(blocks[..n], bits[..n]);
      AdmittedPrefix(c, config.enforceGenesisPow, blocks, bits, n);
      RebuildWorks(c, config, blocks[..n], bits[..n]);
      RunAdmits(c, config, ops);
      RebuildStep(c, State([], config), ops, blocks, bits);
    }
  }

  /** One more block of the canonical run. */
  lemma RebuildStep(c: Crypto, s: State, ops: seq<Op>, blocks: seq<Block>, bits: seq<U32>)
    requires |blocks| == |bits| > 0
    requires var n, before := |blocks| - 1, Run(c, s, ops);
             && before.blocks == blocks[..n] && Difficulties(c, s, ops) == bits[..n]
             && Fits(c, blocks[..n], blocks[n])
             && Worked(c, Config(bits[n], before.config.enforceGenesisPow), n == 0, blocks[n])
    ensures var n := |blocks| - 1;
            var more := ops + [SetDifficulty(bits[n])] + [Append(blocks[n])];
            Run(c, s, more).blocks == blocks && Difficulties(c, s, more) == bits
  {
    hide Run, Difficulties, Validate, Fits, Worked;
    var n := |blocks| - 1;
    var aimed := ops + [SetDifficulty(bits[n])];
    RunSnoc(c, s, ops, SetDifficulty(bits[n]));
    RunSnoc(c, s, aimed, Append(blocks[n]));
    AcceptedIff(c, Run(c, s, aimed), blocks[n]);
    assert blocks[..n] + [blocks[n]] == blocks && bits[..n] + [bits[n]] == bits;
  }

  /** The reachable chains are exactly the block sequences that satisfy the invariant. */
  lemma ReachableIffInvariant(c: Crypto, enforce: bool, blocks: seq<Block>, bits: seq<U32>)
    ensures Reachable(c, enforce, blocks, bits) <==> ChainInvariant(c, enforce, blocks, bits)
  {
    hide ChainInvariant, Admitted;
    AdmittedIffInvariant(c, enforce, blocks, bits);
    if Reachable(c, enforce, blocks, bits) {
      var d: U32, ops: seq<Op> :|
        && Run(c, State([], Config(d, enforce)), ops).blocks == blocks
        && Difficulties(c, State([], Config(d, enforce)), ops) == bits;
      RunAdmits(c, Config(d, enforce), ops);
    }
    if ChainInvariant(c, enforce, blocks, bits) {
      RebuildIsReachable(c, enforce, blocks, bits);
    }
  }

  lemma RebuildIsReachable(c: Crypto, enforce: bool, blocks: seq<Block>, bits: seq<U32>)
    requires Admitted(c, enforce, blocks, bits)
    ensures Reachable(c, enforce, blocks, bits)
  {
    hide Run, Difficulties;
    RebuildWorks(c, Config(0, enforce), blocks, bits);
  }

  // ---- Replay --------------------------------------------------------------

  /** The state after `restore_from_store`, and whether an exception cut it short. */
  datatype Restored = Restored(state: State, threw: bool)

  function Replay(c: Crypto, s: State, blocks: seq<Block>): Restored
    decreases |blocks|
  {
    if blocks == [] then Restored(s, false)
    else
      var o := Validate(c, s, blocks[0]);
      if o.Threw? then Restored(s, true)
      else if o == ACCEPTED then Replay(c, s.(blocks := s.blocks + [blocks[0]]), blocks[1..])
      else Restored(s, false)
  }

  function Restore(c: Crypto, s: State, log: Bytes): Restored {
    match Load(c, log)
    case Blocks(blocks) => Replay(c, s, blocks)
    case DecodeError => Restored(s, true)
  }

  /** The chain in front of block `i` of a replay that has accepted all before it. */
  function ReplayedTo(s: State, blocks: seq<Block>, i: nat): State
    requires i <= |blocks|
  {
    s.(blocks := s.blocks + blocks[..i])
  }

  /** Replay of any blocks onto any chain: it takes them one by one up to the first that is not
      accepted there, and it throws exactly when validating that one does. */
  lemma {:induction false} ReplayStopsAt(c: Crypto, s: State, blocks: seq<Block>) returns (n: nat)
    ensures n <= |blocks|
    ensures forall i :: 0 <= i < n ==> Validate(c, ReplayedTo(s, blocks, i), blocks[i]) == ACCEPTED
    ensures n < |blocks| ==> Validate(c, ReplayedTo(s, blocks, n), blocks[n]) != ACCEPTED
    ensures Replay(c, s, blocks)
         == Restored(ReplayedTo(s, blocks, n), n < |blocks| && Validate(c, ReplayedTo(s, blocks, n), blocks[n]).Threw?)
    decreases |blocks|
  {
    hide Validate;
    assert s.blocks + blocks[..0] == s.blocks;
    if blocks == [] || Validate(c, s, blocks[0]) != ACCEPTED {
      n := 0;
    } else {
      var s', rest := s.(blocks := s.blocks + [blocks[0]]), blocks[1..];
      var m := ReplayStopsAt(c, s', rest);
      n := m + 1;
      forall i | 0 <= i <= |rest|
        ensures ReplayedTo(s', rest, i) == ReplayedTo(s, blocks, i + 1)
      {
        assert s.blocks + [blocks[0]] + rest[..i] == s.blocks + blocks[..i + 1];
      }
      forall i | 0 <= i < n
        ensures Validate(c, ReplayedTo(s, blocks, i), blocks[i]) == ACCEPTED
      {
        if i > 0 {
          assert ReplayedTo(s', rest, i - 1) == ReplayedTo(s, blocks, i) && rest[i - 1] == blocks[i];
        }
      }
    }
  }

  /** The first block, from `i` on, without the work that `config` asks of it. */
  ghost function FirstIdle(c: Crypto, config: Config, blocks: seq<Block>, i: nat): (k: nat)
    requires i <= |blocks|
    ensures i <= k <= |blocks|
    ensures forall j :: i <= j < k ==> Worked(c, config, j == 0, blocks[j])
    ensures k < |blocks| ==> !Worked(c, config, k == 0, blocks[k])
    decreases |blocks| - i
  {
    if i == |blocks| || !Worked(c, config, i == 0, blocks[i]) then i else FirstIdle(c, config, blocks, i + 1)
  }

  lemma {:induction false} ReplayFrom(c: Crypto, config: Config, blocks: seq<Block>, bits: seq<U32>, i: nat)
    requires Admitted(c, config.enforceGenesisPow, blocks, bits) && i <= |blocks|
    ensures Replay(c, State(blocks[..i], config), blocks[i..])
         == Restored(State(blocks[..FirstIdle(c, config, blocks, i)], config), false)
    decreases |blocks| - i
  {
    hide Validate, Fits, Worked;
    if i < |blocks| {
      var s := State(blocks[..i], config);
      AcceptedIff(c, s, blocks[i]);
      assert Fits(c, blocks[..i], blocks[i]);
      assert blocks[i..][1..] == blocks[i + 1..] && blocks[..i] + [blocks[i]] == blocks[..i + 1];
      if Worked(c, config, i == 0, blocks[i]) {
        ReplayFrom(c, config, blocks, bits, i + 1);
      } else {
        FitsDoesNotThrow(c, s, blocks[i]);
      }
    }
  }

  lemma FitsDoesNotThrow(c: Crypto, s: State, b: Block)
    requires Fits(c, s.blocks, b)
    ensures !Validate(c, s, b).Threw?
  {
    hide MerkleRoot, HeaderHash, VerifyTx, MeetsDifficulty;
  }

  /** Replaying a reachable chain at any difficulty restores its longest prefix of blocks
      that carry the work of that difficulty; it restores all of it exactly when all do. */
  lemma ReplayLongestPrefix(c: Crypto, config: Config, blocks: seq<Block>, bits: seq<U32>)
    requires ChainInvariant(c, config.enforceGenesisPow, blocks, bits)
    ensures Replay(c, State([], config), blocks)
         == Restored(State(blocks[..FirstIdle(c, config, blocks, 0)], config), false)
    ensures Replay(c, State([], config), blocks) == Restored(State(blocks, config), false)
       <==> forall i :: 0 <= i < |blocks| ==> Worked(c, config, i == 0, blocks[i])
  {
    hide Worked, ChainInvariant, Replay, Admitted;
    AdmittedIffInvariant(c, config.enforceGenesisPow, blocks, bits);
    ReplayFrom(c, config, blocks, bits, 0);
    assert blocks[..0] == [] && blocks[0..] == blocks && blocks[..|blocks|] == blocks;
  }

  /** At a difficulty no higher than any in force at an append, nothing is lost. */
  lemma ReplayAtLowerDifficulty(c: Crypto, config: Config, blocks: seq<Block>, bits: seq<U32>)
    requires ChainInvariant(c, config.enforceGenesisPow, blocks, bits)
    requires forall i :: 0 <= i < |bits| ==> config.difficultyBits <= bits[i]
    ensures Replay(c, State([], config), blocks) == Restored(State(blocks, config), false)
  {
    hide Replay;
    ReplayLongestPrefix(c, config, blocks, bits);
  }
}
