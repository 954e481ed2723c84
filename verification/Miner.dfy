/** src/core/miner.cpp: the nonce search, for every clock and every cancellation trace. */
module Miner {
  import opened Primitives
  import opened Ledger
  import opened Pow
  import opened ChainCore
  import opened Node

  /** What one search meets: the first clock reading, the reading that attempt `n` would take,
      and the cancel flag as polled before attempt `n`. */
  datatype World = World(now: U64, clock: nat -> U64, cancel: nat -> bool)

  /** The 64-bit nonce of attempt `n` wraps around. */
  function NonceAt(n: nat): U64 { n % TWO_64 }

  datatype Timing = Timing(timestamp: U64, lastBump: U64)

  /** Header timestamp and last bump when attempt `n` starts. */
  function TimingAt(w: World, n: nat): Timing {
    if n == 0 then Timing(w.now, 0)
    else
      var before := TimingAt(w, n - 1);
      if NonceAt(n - 1) % 1_000_000 == 0 && w.clock(n - 1) > before.lastBump
      then Timing(w.clock(n - 1), w.clock(n - 1))
      else before
  }

  /** The candidate of attempt `n`: the built block with that nonce and timestamp. */
  function Attempt(built: Block, w: World, n: nat): Block {
    built.(header := built.header.(nonce := NonceAt(n), timestamp := TimingAt(w, n).timestamp))
  }

  predicate Hit(c: Crypto, b: Block, difficulty: nat) {
    LeadingZeros(HeaderHash(c, b.header)) >= difficulty
  }

  /** Attempt `n` was reached: nothing before it hit, and no poll so far saw the flag. */
  ghost predicate Reached(c: Crypto, built: Block, difficulty: nat, w: World, n: nat) {
    && (forall k :: 0 <= k < n ==> !w.cancel(k))
    && (forall k :: 0 <= k < n ==> !Hit(c, Attempt(built, w, k), difficulty))
  }

  /** A returned block, the exception on cancellation, or a search still under way. */
  datatype Mining = Mined(block: Block) | Cancelled | Searching

  /** What a search of at most `steps` attempts ends with. */
  ghost predicate Ends(c: Crypto, built: Block, difficulty: nat, w: World, steps: nat, r: Mining) {
    match r
    case Mined(b) =>
      exists n :: && 0 <= n < steps && Reached(c, built, difficulty, w, n) && !w.cancel(n)
                  && b == Attempt(built, w, n) && Hit(c, b, difficulty)
    case Cancelled => exists n :: 0 <= n < steps && Reached(c, built, difficulty, w, n) && w.cancel(n)
    case Searching => Reached(c, built, difficulty, w, steps)
  }

  /** The source's loop has no bound; `steps` is how much of it is observed, and is arbitrary. */
  method MineBlock(chain: Chain, txs: seq<Transaction>, difficulty: U32, w: World, steps: nat) returns (r: Mining)
    ensures Ends(chain.crypto, Template(chain.crypto, chain.blocks, txs, w.now), difficulty, w, steps, r)
  {
    hide HeaderHash, LeadingZeros, Template, NonceAt;
    var block := chain.BuildBlockFromTransactions(txs, w.now);
    ghost var built := block;
    TemplateTime(chain.crypto, chain.blocks, txs, w.now);
    NonceStep(0);
    var nonce: U64, lastBump: U64 := 0, 0;
    for n := 0 to steps
      invariant nonce == NonceAt(n)
      invariant Timing(block.header.timestamp, lastBump) == TimingAt(w, n)
      invariant block == built.(header := built.header.(nonce := block.header.nonce, timestamp := block.header.timestamp))
      invariant Reached(chain.crypto, built, difficulty, w, n)
    {
      if w.cancel(n) {
        return Cancelled;
      }
      block := block.(header := block.header.(nonce := nonce));
      assert block == Attempt(built, w, n);
      var zeros := LeadingZeroBits(HeaderHash(chain.crypto, block.header));
      if zeros >= difficulty {
        return Mined(block);
      }
      if nonce % 1_000_000 == 0 {
        var reading := w.clock(n);
        if reading > lastBump {
          block := block.(header := block.header.(timestamp := reading));
          lastBump := reading;
        }
      }
      NonceStep(n);
      nonce := (nonce + 1) % TWO_64;
    }
    return Searching;
  }

  lemma TemplateTime(c: Crypto, blocks: seq<Block>, txs: seq<Transaction>, now: U64)
    ensures Template(c, blocks, txs, now).header.timestamp == now
  {
  }

  lemma NonceStep(n: nat)
    ensures NonceAt(0) == 0 && NonceAt(n + 1) == (NonceAt(n) + 1) % TWO_64
  {
  }

  /** A search ends in one way only. */
  lemma EndsUniquely(c: Crypto, built: Block, difficulty: nat, w: World, steps: nat, r: Mining, r': Mining)
    requires Ends(c, built, difficulty, w, steps, r) && Ends(c, built, difficulty, w, steps, r')
    ensures r == r'
  {
    hide Hit, Attempt;
    if r.Searching? || r'.Searching? {
    } else {
      var n := StopOf(c, built, difficulty, w, steps, r);
      var n' := StopOf(c, built, difficulty, w, steps, r');
    }
  }

  /** The attempt at which a search that ended did end. */
  lemma StopOf(c: Crypto, built: Block, difficulty: nat, w: World, steps: nat, r: Mining) returns (n: nat)
    requires Ends(c, built, difficulty, w, steps, r) && !r.Searching?
    ensures n < steps && Reached(c, built, difficulty, w, n)
    ensures r.Mined? ==> !w.cancel(n) && r.block == Attempt(built, w, n) && Hit(c, Attempt(built, w, n), difficulty)
    ensures r.Cancelled? ==> w.cancel(n)
  {
    hide Hit, Attempt, Reached;
    match r
    case Mined(b) =>
      n :| 0 <= n < steps && Reached(c, built, difficulty, w, n) && !w.cancel(n)
           && b == Attempt(built, w, n) && Hit(c, b, difficulty);
    case Cancelled =>
      n :| 0 <= n < steps && Reached(c, built, difficulty, w, n) && w.cancel(n);
  }

  /** What the worker hands over: the built block with another nonce and timestamp, and the work. */
  predicate MinerResult(c: Crypto, built: Block, difficulty: nat, b: Block) {
    && b == built.(header := built.header.(nonce := b.header.nonce, timestamp := b.header.timestamp))
    && Hit(c, b, difficulty)
  }

  lemma MinedIsMinerResult(c: Crypto, built: Block, difficulty: nat, w: World, steps: nat, b: Block)
    requires Ends(c, built, difficulty, w, steps, Mined(b))
    ensures MinerResult(c, built, difficulty, b)
  {
    hide Hit, Reached;
    var n := StopOf(c, built, difficulty, w, steps, Mined(b));
  }

  /** The built header, with this nonce and timestamp, meets the difficulty. */
  predicate HitsAt(c: Crypto, built: Block, difficulty: nat, nonce: U64, timestamp: U64) {
    MeetsDifficulty(difficulty, HeaderHash(c, built.header.(nonce := nonce, timestamp := timestamp)))
  }

  /** Which header a search returns, for every clock: attempt `n` tries nonce `n` modulo 2^64,
      none before it hit, and the block is the built one with that nonce and its timestamp. */
  lemma SearchOverHeaders(c: Crypto, built: Block, difficulty: nat, w: World, steps: nat, b: Block) returns (n: nat)
    requires Ends(c, built, difficulty, w, steps, Mined(b))
    ensures n < steps && b.header.nonce == n % TWO_64 && b.header.timestamp == TimingAt(w, n).timestamp
    ensures b == built.(header := built.header.(nonce := b.header.nonce, timestamp := b.header.timestamp))
    ensures HitsAt(c, built, difficulty, b.header.nonce, b.header.timestamp)
    ensures forall k :: 0 <= k < n ==> !HitsAt(c, built, difficulty, k % TWO_64, TimingAt(w, k).timestamp)
    ensures forall k :: 0 <= k <= n ==> !w.cancel(k)
  {
    hide HeaderHash, LeadingZeros, TimingAt;
    n := StopOf(c, built, difficulty, w, steps, Mined(b));
    forall k | 0 <= k < n
      ensures !HitsAt(c, built, difficulty, k % TWO_64, TimingAt(w, k).timestamp)
    {
      assert !Hit(c, Attempt(built, w, k), difficulty);
    }
  }

  lemma {:induction false} StillClock(w: World, n: nat)
    requires forall k: nat :: w.clock(k) == w.now
    ensures TimingAt(w, n).timestamp == w.now
  {
    hide NonceAt;
    if n > 0 {
      StillClock(w, n - 1);
    }
  }

  /** Over headers alone: while the clock stands still, a search of at most 2^64 attempts returns
      the header with the least nonce that meets the difficulty, and is still searching only if
      no nonce tried so far does. */
  lemma LeastNonceFound(c: Crypto, built: Block, difficulty: nat, w: World, steps: nat, r: Mining)
    requires Ends(c, built, difficulty, w, steps, r) && steps <= TWO_64
    requires forall k: nat :: w.clock(k) == w.now
    ensures r.Mined? ==>
              var h := r.block.header;
              && r.block == built.(header := built.header.(nonce := h.nonce, timestamp := w.now))
              && h.nonce < steps && HitsAt(c, built, difficulty, h.nonce, w.now)
              && forall m: U64 :: m < h.nonce ==> !HitsAt(c, built, difficulty, m, w.now)
    ensures r.Searching? ==> forall m: U64 :: m < steps ==> !HitsAt(c, built, difficulty, m, w.now)
    ensures r.Cancelled? ==>
              exists n: nat :: && n < steps && w.cancel(n)
                               && forall m: U64 :: m < n ==> !HitsAt(c, built, difficulty, m, w.now)
  {
    hide HeaderHash, LeadingZeros, TimingAt;
    match r
    case Mined(b) =>
      var n := StopOf(c, built, difficulty, w, steps, r);
      StillClock(w, n);
      NoneBefore(c, built, difficulty, w, n);
    case Searching =>
      NoneBefore(c, built, difficulty, w, steps);
    case Cancelled =>
      var n := StopOf(c, built, difficulty, w, steps, r);
      NoneBefore(c, built, difficulty, w, n);
  }

  lemma NoneBefore(c: Crypto, built: Block, difficulty: nat, w: World, n: nat)
    requires Reached(c, built, difficulty, w, n) && n <= TWO_64
    requires forall k: nat :: w.clock(k) == w.now
    ensures forall m: U64 :: m < n ==> !HitsAt(c, built, difficulty, m, w.now)
  {
    hide HeaderHash, LeadingZeros, TimingAt;
    forall m: U64 | m < n
      ensures !HitsAt(c, built, difficulty, m, w.now)
    {
      StillClock(w, m);
      assert !Hit(c, Attempt(built, w, m), difficulty);
    }
  }

  /** Attempts after which the clock is read. */
  predicate ReadsClock(k: nat) { k % TWO_64 % 1_000_000 == 0 }

  /** The timestamp is the first reading until a later reading above zero exists; from then on
      it is the largest of the later readings, even where that is below the first. */
  lemma {:induction false} TimestampIsMaxReading(w: World, n: nat)
    ensures var t := TimingAt(w, n);
            && (forall k :: 0 <= k < n && ReadsClock(k) ==> w.clock(k) <= t.lastBump)
            && (t.lastBump == 0 || exists k :: 0 <= k < n && ReadsClock(k) && w.clock(k) == t.lastBump)
            && t.timestamp == (if t.lastBump == 0 then w.now else t.lastBump)
  {
    if n > 0 {
      TimestampIsMaxReading(w, n - 1);
      var before := TimingAt(w, n - 1);
      if ReadsClock(n - 1) && w.clock(n - 1) > before.lastBump {
        assert TimingAt(w, n).lastBump == w.clock(n - 1);
      } else {
        assert TimingAt(w, n) == before;
      }
    }
  }

  /** No candidate is older than the oldest reading that the search takes. */
  lemma TimestampNotBelow(w: World, n: nat, least: U64)
    requires w.now >= least && forall k :: 0 <= k < n && ReadsClock(k) ==> w.clock(k) >= least
    ensures TimingAt(w, n).timestamp >= least
  {
    hide TimingAt, ReadsClock;
    TimestampIsMaxReading(w, n);
  }

  /** On the unchanged, non-empty chain, at whatever difficulty that chain asks, a mined block is
      accepted exactly when its transactions carry keys and verify, it is not older than the
      tip, and it carries the chain's work, which mining at that difficulty or above gives. */
  lemma MinedAcceptedIff(c: Crypto, s: State, txs: seq<Transaction>, now: U64, difficulty: U32, b: Block)
    requires s.blocks != []
    requires MinerResult(c, Template(c, s.blocks, txs, now), difficulty, b)
    ensures Validate(c, s, b) == ACCEPTED
       <==> && b.header.timestamp >= Tip(s.blocks).header.timestamp
            && (forall k :: 0 <= k < |txs| ==> txs[k].fromPubPem != [] && VerifyTx(c, txs[k]) == Valid)
            && MeetsDifficulty(s.config.difficultyBits, HeaderHash(c, b.header))
    ensures s.config.difficultyBits <= difficulty ==> MeetsDifficulty(s.config.difficultyBits, HeaderHash(c, b.header))
  {
    hide HeaderHash, MerkleRoot, VerifyTx, Validate, LeadingZeros;
    AcceptedIff(c, s, b);
  }

  /** Mining succeeds end to end: with honest transactions and a clock that never reads below
      the tip's timestamp, whatever the search returns is accepted at no higher difficulty. */
  lemma MinedIsAccepted(c: Crypto, s: State, txs: seq<Transaction>, difficulty: U32, w: World, steps: nat, b: Block)
    requires s.blocks != [] && s.config.difficultyBits <= difficulty
    requires Ends(c, Template(c, s.blocks, txs, w.now), difficulty, w, steps, Mined(b))
    requires forall k :: 0 <= k < |txs| ==> txs[k].fromPubPem != [] && VerifyTx(c, txs[k]) == Valid
    requires w.now >= Tip(s.blocks).header.timestamp
    requires forall k :: 0 <= k < steps && ReadsClock(k) ==> w.clock(k) >= Tip(s.blocks).header.timestamp
    ensures Validate(c, s, b) == ACCEPTED
  {
    hide VerifyTx, Validate, Hit, Reached, Template, MeetsDifficulty, ReadsClock;
    var built := Template(c, s.blocks, txs, w.now);
    var n := StopOf(c, built, difficulty, w, steps, Mined(b));
    MinedIsMinerResult(c, built, difficulty, w, steps, b);
    TimestampNotBelow(w, n, Tip(s.blocks).header.timestamp);
    MinedAcceptedIff(c, s, txs, w.now, difficulty, b);
  }

  // ---- The promised difficulty ---------------------------------------------

  /** Whatever the hash function, the built block, the clock and the cancel flag: every block
      that a search at `difficulty` returns meets `bits`. */
  ghost predicate AlwaysMeets(difficulty: U32, bits: U32) {
    forall c: Crypto, built: Block, w: World, steps: nat, b: Block ::
      Ends(c, built, difficulty, w, steps, Mined(b)) ==> MeetsDifficulty(bits, HeaderHash(c, b.header))
  }

  /** A search that returns, at its first attempt, a block short of `bits`. */
  lemma ShortfallExample(difficulty: U32, bits: U32, built: Block) returns (c: Crypto, w: World, b: Block)
    requires difficulty <= 256 && difficulty < bits
    ensures Ends(c, built, difficulty, w, 1, Mined(b))
    ensures !MeetsDifficulty(bits, HeaderHash(c, b.header))
  {
    hide HeaderBytes, LeadingZeros, BytesWithZeros;
    var digest: Hash256 := BytesWithZeros(32, difficulty);
    BytesWithZerosCount(32, difficulty);
    c := Crypto(x => digest, (key, message, signature) => Valid);
    w := World(0, k => 0, k => false);
    b := Attempt(built, w, 0);
    assert HeaderHash(c, b.header) == digest;
    assert Reached(c, built, difficulty, w, 0) && Hit(c, b, difficulty);
  }

  /** The search takes its own difficulty and not the chain's: everything it returns meets
      `bits` if and only if `bits` is no higher, or nothing can be returned at all. */
  lemma PromisedDifficultyIff(difficulty: U32, bits: U32)
    ensures AlwaysMeets(difficulty, bits) <==> bits <= difficulty || difficulty > 256
  {
    hide HeaderHash, Ends;
    if bits <= difficulty || difficulty > 256 {
      forall c: Crypto, built: Block, w: World, steps: nat, b: Block | Ends(c, built, difficulty, w, steps, Mined(b))
        ensures MeetsDifficulty(bits, HeaderHash(c, b.header))
      {
        MinedIsMinerResult(c, built, difficulty, w, steps, b);
        assert LeadingZeros(HeaderHash(c, b.header)) <= 256;
      }
    } else {
      var built := Block(BlockHeader(1, ZERO_HASH, ZERO_HASH, 0, 0), []);
      var c, w, b := ShortfallExample(difficulty, bits, built);
      assert Ends(c, built, difficulty, w, 1, Mined(b));
    }
  }
}
