/** src/cli/tui.cpp, handler by handler: what each key does to chain, log and threads, in terms
    of blocks and bytes, and what a whole key press leads to once the worker has been joined. */
module Handlers {
  import opened Primitives
  import opened Codec
  import opened Ledger
  import opened Pow
  import opened Store
  import opened ChainCore
  import opened Node
  import opened Session
  import Miner

  // ---- The blocks that the handlers write ----------------------------------

  /** `b` is on top of `blocks`, at `time`, with the defaults of a block not yet mined. */
  ghost predicate NewHeader(c: Crypto, blocks: seq<Block>, b: Block, time: U64) {
    && b.header.version == 1 && b.header.nonce == 0 && b.header.timestamp == time
    && b.header.prevHash == (if blocks == [] then ZERO_HASH else HeaderHash(c, Tip(blocks).header))
    && b.header.merkleRoot == MerkleRoot(c, b.transactions)
  }

  /** The one change between two states: this block is in the chain and its record in the log. */
  ghost predicate Grown(c: Crypto, s: App, t: App, b: Block, io: Write) {
    && t.node.chain == s.node.chain.(blocks := s.node.chain.blocks + [b])
    && t.node.log == s.node.log + Arrived(BlockRecord(c, b), io)
  }

  /** "Astro: Born from bytes." */
  const NOTE_BYTES: Bytes := [65, 115, 116, 114, 111, 58, 32, 66, 111, 114, 110, 32,
                              102, 114, 111, 109, 32, 98, 121, 116, 101, 115, 46]

  /** "darth vader" */
  const APPEND_BYTES: Bytes := [100, 97, 114, 116, 104, 32, 118, 97, 100, 101, 114]

  /** "miner-reward" */
  const REWARD_BYTES: Bytes := [109, 105, 110, 101, 114, 45, 114, 101, 119, 97, 114, 100]

  lemma LabelBytes()
    ensures Ascii(GENESIS_NOTE) == NOTE_BYTES && Ascii(APPEND_LABEL) == APPEND_BYTES && Ascii(REWARD_LABEL) == REWARD_BYTES
  {
    hide Ascii;
    NoteBytes();
    AppendBytes();
    RewardBytes();
  }

  lemma NoteBytes()
    ensures Ascii(GENESIS_NOTE) == NOTE_BYTES
  {
  }

  lemma AppendBytes()
    ensures Ascii(APPEND_LABEL) == APPEND_BYTES
  {
  }

  lemma RewardBytes()
    ensures Ascii(REWARD_LABEL) == REWARD_BYTES
  {
  }

  /** The genesis key: on an empty chain that asks no work of it, and with a write that is not
      reported to fail, it puts in exactly this block; otherwise the chain stays. */
  lemma GenesisEffect(c: Crypto, s: App, time: U64, io: Write)
    requires s.main == Running && !s.node.chain.config.enforceGenesisPow
    ensures var t := Step(c, s, Genesis(time, io));
            && t.main == Running
            && (t.node.chain != s.node.chain <==> s.node.chain.blocks == [] && !io.Detected?)
            && (t.node.chain != s.node.chain ==>
                  var b := Tip(t.node.chain.blocks);
                  && Grown(c, s, t, b, io) && NewHeader(c, [], b, time)
                  && b.transactions == [Transaction(1, 0, 0, [], NOTE_BYTES, [])])
  {
    hide MerkleRoot, HeaderHash, Validate, BlockRecord, Ascii;
    LabelBytes();
    GenesisAccepted(c, s.node.chain.config, Ascii(GENESIS_NOTE), time);
  }

  /** The nonce that the tip's last transaction carries, or 0. */
  function LastNonce(b: Block): U64 {
    if b.transactions == [] then 0 else b.transactions[|b.transactions| - 1].nonce
  }

  /** The append key: on a non-empty chain it puts in one transaction with the next nonce, and it
      does so if and only if the clock is not behind the tip, the key signs, the block happens
      to have the chain's work and the write is not reported to fail. Only an unreadable key
      ends the process. */
  lemma AppendSignedEffect(c: Crypto, s: App, pubPem: Bytes, signature: Bytes, time: U64, io: Write) returns (b: Block)
    requires s.main == Running && s.node.chain.blocks != []
    ensures var tip, t := Tip(s.node.chain.blocks), Step(c, s, AppendSigned(pubPem, signature, time, io));
            && NewHeader(c, s.node.chain.blocks, b, time)
            && b.transactions == [Transaction(1, (LastNonce(tip) + 1) % TWO_64, 42, pubPem, APPEND_BYTES, signature)]
            && (t.node.chain != s.node.chain <==>
                  && time >= tip.header.timestamp && pubPem != [] && VerifyTx(c, b.transactions[0]) == Valid
                  && MeetsDifficulty(s.node.chain.config.difficultyBits, HeaderHash(c, b.header)) && !io.Detected?)
            && (t.node.chain != s.node.chain ==> Grown(c, s, t, b, io))
            && (t.main == if KeyThrows(c, tip, b) then Down else Running)
  {
    hide MerkleRoot, HeaderHash, Validate, BlockRecord, Ascii, VerifyTx, LeadingZeros, Fits;
    var blocks := s.node.chain.blocks;
    var tx := SignedTx(Tip(blocks), pubPem, signature);
    b := Template(c, blocks, [tx], time);
    LabelBytes();
    TemplateFits(c, blocks, [tx], time);
    AcceptedIff(c, s.node.chain, b);
    TemplateThrows(c, s.node.chain, tx, time);
  }

  /** In time, with a key that cannot be read. */
  ghost predicate KeyThrows(c: Crypto, tip: Block, b: Block) {
    && |b.transactions| == 1 && b.transactions[0].fromPubPem != []
    && b.header.timestamp >= tip.header.timestamp && VerifyTx(c, b.transactions[0]) == Throws
  }

  lemma TemplateThrows(c: Crypto, s: State, tx: Transaction, time: U64)
    requires s.blocks != []
    ensures var b := Template(c, s.blocks, [tx], time); Validate(c, s, b).Threw? <==> KeyThrows(c, Tip(s.blocks), b)
  {
    hide MerkleRoot, HeaderHash, VerifyTx, Validate, MeetsDifficulty;
    var b := Template(c, s.blocks, [tx], time);
    ErrorReported(c, s, b);
    assert FirstBad(c, s.blocks, b.transactions, Throws) <==> VerifyTx(c, b.transactions[0]) == Throws;
  }

  /** On an empty chain the append key does nothing. */
  lemma AppendNeedsChain(c: Crypto, s: App, pubPem: Bytes, signature: Bytes, time: U64, io: Write)
    ensures s.node.chain.blocks == [] ==> Step(c, s, AppendSigned(pubPem, signature, time, io)) == s
  {
  }

  // ---- Runs put end to end -------------------------------------------------

  lemma {:induction false} RunAllConcat(c: Crypto, s: App, a: seq<Event>, b: seq<Event>)
    ensures RunAll(c, s, a + b) == RunAll(c, RunAll(c, s, a), b)
    decreases |b|
  {
    hide RunAll, Step;
    if b == [] {
      assert a + b == a;
      RunAllEmpty(c, RunAll(c, s, a));
    } else {
      var init, e := b[..|b| - 1], b[|b| - 1];
      RunAllConcat(c, s, a, init);
      assert a + b == a + init + [e] && b == init + [e];
      RunAllSnoc(c, s, a + init, e);
      RunAllSnoc(c, RunAll(c, s, a), init, e);
    }
  }

  lemma RunOne(c: Crypto, s: App, e: Event)
    ensures RunAll(c, s, [e]) == Step(c, s, e)
  {
    hide RunAll, Step;
    RunAllEmpty(c, s);
    RunAllSnoc(c, s, [], e);
    assert [] + [e] == [e];
  }

  lemma RunCons(c: Crypto, s: App, e: Event, es: seq<Event>)
    ensures RunAll(c, s, [e] + es) == RunAll(c, Step(c, s, e), es)
  {
    hide RunAll, Step;
    RunAllConcat(c, s, [e], es);
    RunOne(c, s, e);
  }

  // ---- Joining the worker --------------------------------------------------

  /** The rest of a cancelled worker's life. */
  function Drain(w: Worker): seq<Event> {
    match w
    case Launched(_, _) => [WorkerReads(0)] + ([WorkerSeesCancel] + [WorkerExits])
    case AtWork(_, _) => [WorkerSeesCancel] + [WorkerExits]
    case Found => [WorkerAnnounces] + [WorkerExits]
    case Announced => [WorkerExits]
    case Cancelling => [WorkerExits]
    case _ => []
  }

  /** A joined worker comes to its end and leaves everything but its own flags alone. */
  lemma DrainExits(c: Crypto, s: App)
    requires Joining(s) && WorkerInv(s)
    ensures var t := RunAll(c, s, Drain(s.worker));
            && t.worker == Exited && t.main == s.main && t.node == s.node && t.ui == s.ui
            && (s.worker == Exited || !t.mining)
  {
    hide RunAll, Template, Step;
    match s.worker
    case Launched(_, _) =>
      RunCons(c, s, WorkerReads(0), [WorkerSeesCancel] + [WorkerExits]);
      LaunchedReads(c, s);
      DrainAtWork(c, Step(c, s, WorkerReads(0)));
    case AtWork(_, _) =>
      DrainAtWork(c, s);
    case Found =>
      RunCons(c, s, WorkerAnnounces, [WorkerExits]);
      RunOne(c, Step(c, s, WorkerAnnounces), WorkerExits);
      FoundExits(c, s);
    case Announced =>
      RunOne(c, s, WorkerExits);
      LastStep(c, s);
    case Cancelling =>
      RunOne(c, s, WorkerExits);
      LastStep(c, s);
    case Exited =>
      RunAllEmpty(c, s);
  }

  lemma LaunchedReads(c: Crypto, s: App)
    requires s.main != Down && s.worker.Launched?
    ensures var t := Step(c, s, WorkerReads(0));
            t.worker.AtWork? && t.main == s.main && t.node == s.node && t.ui == s.ui && t.cancel == s.cancel
  {
    hide Template;
  }

  lemma DrainAtWork(c: Crypto, s: App)
    requires s.main != Down && s.worker.AtWork? && s.cancel
    ensures var t := RunAll(c, s, [WorkerSeesCancel] + [WorkerExits]);
            t.worker == Exited && t.main == s.main && t.node == s.node && t.ui == s.ui && !t.mining
  {
    hide RunAll;
    RunCons(c, s, WorkerSeesCancel, [WorkerExits]);
    RunOne(c, Step(c, s, WorkerSeesCancel), WorkerExits);
  }

  lemma FoundExits(c: Crypto, s: App)
    requires s.main != Down && s.worker == Found
    ensures var t := Step(c, Step(c, s, WorkerAnnounces), WorkerExits);
            t.worker == Exited && t.main == s.main && t.node == s.node && t.ui == s.ui && !t.mining
  {
  }

  lemma LastStep(c: Crypto, s: App)
    requires s.main != Down && (s.worker == Announced || s.worker == Cancelling)
    ensures var t := Step(c, s, WorkerExits);
            t.worker == Exited && t.main == s.main && t.node == s.node && t.ui == s.ui && !t.mining
  {
  }

  // ---- Clearing and quitting, from the key press to the end ----------------

  /** What follows a clear: nothing, or the worker's end and the join. */
  function ClearRun(s: App, opens: bool): seq<Event> {
    [Clear(opens)] + (if s.mining && s.worker != NoThread then Drain(s.worker) + [JoinedForClear(opens)] else [])
  }

  /** Clear, in every run: once the worker is joined the program runs on, not mining, with an
      empty log and an empty chain at the same configuration; or with both as they were if the
      log could not be opened. */
  lemma ClearCompletes(c: Crypto, start: App, es: seq<Event>, opens: bool)
    requires start.main == Down && forall i :: 0 <= i < |es| ==> KeyPresent(es[i])
    requires RunAll(c, start, es).main == Running
    ensures var s := RunAll(c, start, es);
            var t := RunAll(c, start, es + ClearRun(s, opens));
            && t.main == Running && !t.mining && t.ui == s.ui
            && (opens ==> t.node.log == [] && t.node.chain.blocks == [] && t.node.chain.config == s.node.chain.config)
            && (!opens ==> t.node == s.node)
            && (s.mining ==> t.worker == NoThread)
  {
    hide RunAll, Step, ClearRun, Drain;
    var s := RunAll(c, start, es);
    WorkerInvariant(c, start, es);
    RunAllConcat(c, start, es, ClearRun(s, opens));
    ClearHere(c, s, opens);
  }

  lemma ClearHere(c: Crypto, s: App, opens: bool)
    requires s.main == Running && WorkerInv(s)
    ensures var t := RunAll(c, s, ClearRun(s, opens));
            && t.main == Running && !t.mining && t.ui == s.ui
            && (opens ==> t.node.log == [] && t.node.chain.blocks == [] && t.node.chain.config == s.node.chain.config)
            && (!opens ==> t.node == s.node)
            && (s.mining ==> t.worker == NoThread)
  {
    hide RunAll, Drain, WorkerInv;
    var rest := if s.mining && s.worker != NoThread then Drain(s.worker) + [JoinedForClear(opens)] else [];
    RunCons(c, s, Clear(opens), rest);
    var u := Step(c, s, Clear(opens));
    if s.mining && s.worker != NoThread {
      MainKeepsWorker(c, s, Clear(opens));
      DrainExits(c, u);
      RunAllConcat(c, u, Drain(s.worker), [JoinedForClear(opens)]);
      RunOne(c, RunAll(c, u, Drain(s.worker)), JoinedForClear(opens));
    } else {
      RunAllEmpty(c, u);
    }
  }

  /** After a clear, in every run: a restart finds nothing, and the next genesis goes in, to
      chain and log. */
  lemma ClearStartsOver(c: Crypto, start: App, es: seq<Event>, time: U64)
    requires start.main == Down && forall i :: 0 <= i < |es| ==> KeyPresent(es[i])
    requires RunAll(c, start, es).main == Running
    ensures var t := RunAll(c, start, es + ClearRun(RunAll(c, start, es), true));
            var g := Step(c, t, Genesis(time, Completed));
            var r := Step(c, Step(c, t, Killed), Restart);
            && r.main == Running && r.node.log == [] && r.node.chain.blocks == []
            && |g.node.chain.blocks| == 1 && g.node.log == LogOf(c, g.node.chain.blocks)
  {
    hide RunAll, Step, ClearRun, BlockRecord, Boot, GenesisBlock;
    var s := RunAll(c, start, es);
    var t := RunAll(c, start, es + ClearRun(s, true));
    ClearCompletes(c, start, es, true);
    TameRun(c, start, es);
    GenesisEffect(c, t, time, Completed);
    KillAndRestart(c, t);
    EmptyBoot(c, t.node.chain.blocks, t.bits);
    var g := Step(c, t, Genesis(time, Completed));
    var b := Tip(g.node.chain.blocks);
    assert g.node.chain.blocks == [b];
    assert LogOf(c, [b]) == BlockRecord(c, b) + LogOf(c, []);
  }

  lemma EmptyBoot(c: Crypto, last: seq<Block>, bits: seq<U32>)
    ensures var r := Boot(c, [], last, bits); r.main == Running && r.node == Node([], State([], Config(0, false)))
  {
    hide FirstPayload;
    EmptyLogStops(c);
    StopsAtOnce(c, []);
  }

  /** Quit, in every run: the process ends, at once or after the join, with chain and log as
      they were. */
  lemma QuitEnds(c: Crypto, start: App, es: seq<Event>)
    requires start.main == Down && forall i :: 0 <= i < |es| ==> KeyPresent(es[i])
    requires RunAll(c, start, es).main == Running
    ensures var s := RunAll(c, start, es);
            var t := RunAll(c, start, es + QuitRun(s));
            t.main == Down && t.node == s.node
  {
    hide RunAll, Drain, WorkerInv, Step;
    var s := RunAll(c, start, es);
    WorkerInvariant(c, start, es);
    RunAllConcat(c, start, es, QuitRun(s));
    var rest := if s.worker == NoThread then [] else Drain(s.worker) + [JoinedForQuit];
    RunCons(c, s, Quit, rest);
    var u := Step(c, s, Quit);
    QuitStep(c, s);
    if s.worker == NoThread {
      RunAllEmpty(c, u);
    } else {
      MainKeepsWorker(c, s, Quit);
      DrainExits(c, u);
      RunAllConcat(c, u, Drain(s.worker), [JoinedForQuit]);
      RunOne(c, RunAll(c, u, Drain(s.worker)), JoinedForQuit);
      JoinedQuits(c, RunAll(c, u, Drain(s.worker)));
    }
  }

  function QuitRun(s: App): seq<Event> {
    [Quit] + (if s.worker == NoThread then [] else Drain(s.worker) + [JoinedForQuit])
  }

  lemma QuitStep(c: Crypto, s: App)
    requires s.main == Running
    ensures var u := Step(c, s, Quit);
            && u == MainStep(c, s, Quit) && u.node == s.node && u.worker == s.worker
            && u.main == if s.worker == NoThread then Down else JoiningToQuit
  {
  }

  lemma JoinedQuits(c: Crypto, s: App)
    requires s.main == JoiningToQuit && s.worker == Exited
    ensures Step(c, s, JoinedForQuit) == s.(main := Down)
  {
  }

  // ---- Difficulty keys and configuration -----------------------------------

  /** The selected difficulty never exceeds 32, and genesis is never asked for work. */
  ghost predicate Tame(s: App) { s.ui <= 32 && !s.node.chain.config.enforceGenesisPow }

  lemma TameStep(c: Crypto, s: App, e: Event)
    requires s.main == Down || Tame(s)
    ensures Step(c, s, e).main == Down || Tame(Step(c, s, e))
  {
    hide Template, GenesisBlock, SignedTx, RewardTx, AppendStored, Restore, WorkerStep;
    WorkerKeepsMain(c, s, e);
    WorkerKeepsUi(c, s, e);
    match e
    case Genesis(time, io) =>
      CommitKeepsConfig(c, s.node, GenesisBlock(c, Ascii(GENESIS_NOTE), time), io);
    case AppendSigned(pubPem, signature, time, io) =>
      var blocks := s.node.chain.blocks;
      if blocks != [] {
        CommitKeepsConfig(c, s.node, Template(c, blocks, [SignedTx(Tip(blocks), pubPem, signature)], time), io);
      }
    case Consume(io) =>
      if s.mined.Some? {
        CommitKeepsConfig(c, Tuned(s).node, s.mined.value, io);
      }
    case Restart => BootKeepsConfig(c, s.node.log);
    case _ =>
  }

  lemma WorkerKeepsUi(c: Crypto, s: App, e: Event)
    ensures WorkerStep(c, s, e).ui == s.ui
  {
    hide Template, Miner.MinerResult;
  }

  lemma CommitKeepsConfig(c: Crypto, n: Node, b: Block, io: Write)
    ensures AppendStored(c, n, b, io).node.chain.config == n.chain.config
  {
    hide Validate, BlockRecord;
  }

  lemma BootKeepsConfig(c: Crypto, log: Bytes)
    ensures Restore(c, State([], Config(0, false)), log).state.config == Config(0, false)
  {
    hide Load, Validate;
    match Load(c, log)
    case Blocks(bs) =>
      var n := ReplayStopsAt(c, State([], Config(0, false)), bs);
    case DecodeError =>
  }

  lemma {:induction false} TameRun(c: Crypto, start: App, es: seq<Event>)
    requires start.main == Down
    ensures RunAll(c, start, es).main == Down || Tame(RunAll(c, start, es))
    decreases |es|
  {
    hide Step, Tame;
    if es != [] {
      TameRun(c, start, es[..|es| - 1]);
      TameStep(c, RunAll(c, start, es[..|es| - 1]), es[|es| - 1]);
    }
  }

  /** Any number of presses of the two difficulty keys moves the selected difficulty by as much,
      within 0 and 32, and nothing else; in every run. */
  lemma DifficultyKeys(c: Crypto, start: App, es: seq<Event>, k: nat)
    requires start.main == Down && RunAll(c, start, es).main == Running
    ensures var s := RunAll(c, start, es);
            && RunAll(c, start, es + Lowered(k)) == s.(ui := if k <= s.ui then s.ui - k else 0)
            && RunAll(c, start, es + Raised(k)) == s.(ui := if s.ui + k <= 32 then s.ui + k else 32)
  {
    hide RunAll;
    TameRun(c, start, es);
    LoweredRun(c, start, es, k);
    RaisedRun(c, start, es, k);
  }

  function Raised(k: nat): seq<Event> { seq(k, _ => Harder) }

  lemma {:induction false} RaisedRun(c: Crypto, s: App, es: seq<Event>, k: nat)
    requires var t := RunAll(c, s, es); t.main == Running && t.ui <= 32
    ensures var t := RunAll(c, s, es);
            RunAll(c, s, es + Raised(k)) == t.(ui := if t.ui + k <= 32 then t.ui + k else 32)
  {
    hide RunAll;
    if k == 0 {
      assert es + Raised(0) == es;
    } else {
      RaisedRun(c, s, es, k - 1);
      assert es + Raised(k) == es + Raised(k - 1) + [Harder];
      RunAllSnoc(c, s, es + Raised(k - 1), Harder);
    }
  }

  // ---- Starting a process --------------------------------------------------

  /** A start over any log whatever: what loads is taken block by block up to the first that is
      not accepted at difficulty 0, and the process comes up unless the log does not decode or
      validating that block throws. */
  lemma BootOutcome(c: Crypto, log: Bytes, last: seq<Block>, bits: seq<U32>) returns (n: nat)
    ensures var t, empty := Boot(c, log, last, bits), State([], Config(0, false));
            && t.node.log == log && t.ui == 16 && !t.mining && !t.cancel && !t.done && t.worker == NoThread
            && (Load(c, log).DecodeError? ==> t.main == Down && t.node.chain == empty)
            && (Load(c, log).Blocks? ==>
                  var bs := Load(c, log).blocks;
                  && n <= |bs| && t.node.chain == State(bs[..n], Config(0, false))
                  && (forall i :: 0 <= i < n ==> Validate(c, ReplayedTo(empty, bs, i), bs[i]) == ACCEPTED)
                  && (n < |bs| ==> Validate(c, ReplayedTo(empty, bs, n), bs[n]) != ACCEPTED)
                  && (t.main == Down <==> n < |bs| && Validate(c, ReplayedTo(empty, bs, n), bs[n]).Threw?)
                  && (t.main == Down || t.main == Running))
  {
    hide Load, Validate, Replay;
    n := 0;
    if Load(c, log).Blocks? {
      var bs := Load(c, log).blocks;
      n := ReplayStopsAt(c, State([], Config(0, false)), bs);
      assert [] + bs[..n] == bs[..n];
    }
  }

  // ---- What a worker announces ---------------------------------------------

  /** Event `i` launched the last worker before event `j`. */
  ghost predicate LastLaunch(c: Crypto, s: App, es: seq<Event>, i: nat, j: nat)
    requires i < j <= |es|
  {
    Launches(c, s, es, i) && forall k :: i < k < j ==> !Launches(c, s, es, k)
  }

  /** The worker has work in hand, or a result of it is waiting. */
  predicate Holding(s: App) { s.worker.Launched? || s.worker.AtWork? || s.worker.Found? || s.done }

  /** The reward of the start event: nonce 1, amount 1, its key and its signature. */
  predicate RewardOf(txs: seq<Transaction>, e: Event) {
    e.Start? && txs == [Transaction(1, 1, 1, e.pubPem, REWARD_BYTES, e.signature)]
  }

  /** All that the worker has in hand belongs to a start at difficulty `d`. */
  ghost predicate Carries(c: Crypto, d: U32, e: Event, s: App) {
    && (s.worker.Launched? ==> s.worker.difficulty == d && RewardOf([s.worker.tx], e))
    && (s.worker.AtWork? ==>
          s.worker.difficulty == d && RewardOf(s.worker.built.transactions, e) && s.worker.built.header.version == 1)
    && (s.worker.Found? || s.done ==> s.mined.Some? && Announces(c, d, e, s.mined.value))
  }

  ghost predicate Announces(c: Crypto, d: U32, e: Event, b: Block) {
    && RewardOf(b.transactions, e) && b.header.version == 1
    && MeetsDifficulty(d, HeaderHash(c, b.header))
  }

  lemma MainCarries(c: Crypto, d: U32, e: Event, s: App, x: Event)
    requires s.main != Down && MainStep(c, s, x).main != Down && Carries(c, d, e, s)
    requires !(x.Start? && !s.worker.Launched? && MainStep(c, s, x).worker.Launched?)
    ensures Carries(c, d, e, MainStep(c, s, x)) && (Holding(MainStep(c, s, x)) ==> Holding(s))
  {
    hide AppendStored, Template, GenesisBlock, SignedTx, RewardTx, Boot, RewardOf, Announces;
  }

  lemma WorkerCarries(c: Crypto, d: U32, e: Event, s: App, x: Event)
    requires Carries(c, d, e, s)
    ensures Carries(c, d, e, WorkerStep(c, s, x)) && (Holding(WorkerStep(c, s, x)) ==> Holding(s))
  {
    hide MerkleRoot, HeaderHash, LeadingZeros;
  }

  lemma LaunchCarries(c: Crypto, s: App, x: Event)
    requires x.Start? && !s.worker.Launched? && Step(c, s, x).worker.Launched?
    ensures Carries(c, s.ui, x, Step(c, s, x))
  {
    hide Ascii;
    LabelBytes();
  }

  lemma BootHoldsNothing(c: Crypto, s: App, e: Event)
    requires s.main == Down && Step(c, s, e).main != Down
    ensures !Holding(Step(c, s, e))
  {
    hide Restore;
  }

  /** In every run, whatever a worker has in hand and whatever result waits is that of the last
      launch: for its transaction, at the difficulty selected when it was launched. */
  lemma {:induction false} HoldingIsOfLastLaunch(c: Crypto, s: App, es: seq<Event>, j: nat)
    requires s.main == Down && j <= |es|
    ensures var t := At(c, s, es, j);
            t.main == Down || !Holding(t)
            || exists i :: 0 <= i < j && LastLaunch(c, s, es, i, j) && Carries(c, At(c, s, es, i).ui, es[i], t)
    decreases j
  {
    hide Step, RunAll, Carries, Holding;
    if j == 0 {
      assert es[..0] == [];
      RunAllEmpty(c, s);
    } else {
      HoldingIsOfLastLaunch(c, s, es, j - 1);
      AtNext(c, s, es, j - 1);
      HoldingStep(c, s, es, j - 1);
    }
  }

  lemma HoldingStep(c: Crypto, s: App, es: seq<Event>, j: nat)
    requires j < |es| && At(c, s, es, j + 1) == Step(c, At(c, s, es, j), es[j])
    requires var t := At(c, s, es, j);
             t.main == Down || !Holding(t)
             || exists i :: 0 <= i < j && LastLaunch(c, s, es, i, j) && Carries(c, At(c, s, es, i).ui, es[i], t)
    ensures var t := At(c, s, es, j + 1);
            t.main == Down || !Holding(t)
            || exists i :: 0 <= i < j + 1 && LastLaunch(c, s, es, i, j + 1) && Carries(c, At(c, s, es, i).ui, es[i], t)
  {
    hide Step, At, Carries, Holding;
    var before, after := At(c, s, es, j), At(c, s, es, j + 1);
    if after.main != Down && Holding(after) {
      if before.main == Down {
        BootHoldsNothing(c, before, es[j]);
      } else if Launches(c, s, es, j) {
        LaunchCarries(c, before, es[j]);
        assert LastLaunch(c, s, es, j, j + 1);
      } else {
        NothingHeld(c, before, es[j]);
        var i :| 0 <= i < j && LastLaunch(c, s, es, i, j) && Carries(c, At(c, s, es, i).ui, es[i], before);
        StepCarries(c, At(c, s, es, i).ui, es[i], before, es[j]);
        assert LastLaunch(c, s, es, i, j + 1);
      }
    }
  }

  lemma StepCarries(c: Crypto, d: U32, e: Event, s: App, x: Event)
    requires s.main != Down && Step(c, s, x).main != Down && Carries(c, d, e, s)
    requires !(x.Start? && !s.worker.Launched? && Step(c, s, x).worker.Launched?)
    ensures Carries(c, d, e, Step(c, s, x))
  {
    hide MainStep, WorkerStep, Carries, Holding;
    if IsWorkerEvent(x) {
      WorkerCarries(c, d, e, s, x);
    } else {
      MainCarries(c, d, e, s, x);
    }
  }

  /** Without a launch nothing comes into hand that was not there before. */
  lemma NothingHeld(c: Crypto, s: App, x: Event)
    requires s.main != Down && Step(c, s, x).main != Down && Holding(Step(c, s, x))
    requires !(x.Start? && !s.worker.Launched? && Step(c, s, x).worker.Launched?)
    ensures Holding(s)
  {
    hide AppendStored, Template, GenesisBlock, SignedTx, RewardTx, Boot, Miner.MinerResult;
  }

  /** An announced block carries the reward of the start that launched its worker, and meets the
      difficulty that was selected then; in every run. */
  lemma AnnouncedMeetsLaunch(c: Crypto, s: App, es: seq<Event>)
    requires s.main == Down && RunAll(c, s, es).main != Down && RunAll(c, s, es).done
    ensures var t := RunAll(c, s, es);
            && t.mined.Some?
            && exists i :: && 0 <= i < |es| && LastLaunch(c, s, es, i, |es|)
                           && Announces(c, At(c, s, es, i).ui, es[i], t.mined.value)
  {
    hide RunAll, LastLaunch, Announces;
    HoldingIsOfLastLaunch(c, s, es, |es|);
    assert es[..|es|] == es;
    var i :| 0 <= i < |es| && LastLaunch(c, s, es, i, |es|) && Carries(c, At(c, s, es, i).ui, es[i], RunAll(c, s, es));
  }
}
