/** src/cli/tui.cpp, step level: the key handlers, the mining worker and the main loop as one
    state machine in which worker steps and main-thread steps interleave freely. */
module Session {
  import opened Primitives
  import opened Codec
  import opened Ledger
  import opened Pow
  import opened Store
  import opened ChainCore
  import opened Node
  import Miner

  /** Where the worker thread is. `Exited` is a finished thread that nobody has joined. */
  datatype Worker =
    | NoThread
    | Launched(tx: Transaction, difficulty: U32)
    | AtWork(built: Block, difficulty: U32)
    | Found
    | Announced
    | Cancelling
    | Exited

  /** Where the main thread is. `Down` is a process that has ended, in whatever way. */
  datatype Main = Running | JoiningToClear | JoiningToQuit | Down

  /** The application, with two history variables: the tip hash that the last worker read, and
      the difficulty in force when each block of the chain was accepted. */
  datatype App = App(
    node: Node, ui: U32, main: Main,
    mining: bool, cancel: bool, done: bool, mined: Option<Block>, worker: Worker,
    readTip: Option<Hash256>, bits: seq<U32>)

  datatype Event =
    | Genesis(time: U64, io: Write)
    | AppendSigned(pubPem: Bytes, signature: Bytes, time: U64, io: Write)
    | Start(pubPem: Bytes, signature: Bytes)
    | Clear(opens: bool)
    | JoinedForClear(opens: bool)
    | Easier
    | Harder
    | Consume(io: Write)
    | Quit
    | JoinedForQuit
    | Killed
    | Restart
    | WorkerReads(now: U64)
    | WorkerFinds(block: Block)
    | WorkerAnnounces
    | WorkerSeesCancel
    | WorkerExits

  const GENESIS_NOTE := "Astro: Born from bytes."
  const APPEND_LABEL := "darth vader"
  const REWARD_LABEL := "miner-reward"

  function TipHash(c: Crypto, blocks: seq<Block>): Option<Hash256> {
    if blocks == [] then None else Some(HeaderHash(c, Tip(blocks).header))
  }

  /** `append_and_store` from the main thread; an escaping exception ends the process. */
  function Persist(c: Crypto, s: App, b: Block, io: Write): App {
    var r := AppendStored(c, s.node, b, io);
    s.(node := r.node,
       main := if r.outcome.Threw? then Down else s.main,
       bits := if r.outcome == ACCEPTED then s.bits + [s.node.chain.config.difficultyBits] else s.bits)
  }

  function SignedTx(tip: Block, pubPem: Bytes, signature: Bytes): Transaction {
    var last := if tip.transactions == [] then 0 else tip.transactions[|tip.transactions| - 1].nonce;
    Transaction(1, (1 + last) % TWO_64, 42, pubPem, Ascii(APPEND_LABEL), signature)
  }

  function RewardTx(pubPem: Bytes, signature: Bytes): Transaction {
    Transaction(1, 1, 1, pubPem, Ascii(REWARD_LABEL), signature)
  }

  /** Assigning a new thread over one that was never joined terminates the process. */
  function StartMining(s: App, pubPem: Bytes, signature: Bytes): App {
    if s.mining || s.node.chain.blocks == [] then s
    else if s.worker != NoThread then s.(main := Down)
    else s.(mining := true, cancel := false, done := false, worker := Launched(RewardTx(pubPem, signature), s.ui))
  }

  /** Truncate the log and reset the chain, unless the log cannot be opened. */
  function Truncate(s: App, opens: bool): App {
    if !opens then s else s.(node := Node([], State([], s.node.chain.config)), bits := [])
  }

  function ClearStore(s: App, opens: bool): App {
    if !s.mining then Truncate(s, opens)
    else if s.worker == NoThread then Truncate(s.(cancel := true, mining := false), opens)
    else s.(cancel := true, main := JoiningToClear)
  }

  /** The tuned node that the main loop appends a mined block to. */
  function Tuned(s: App): App {
    s.(done := false, mining := false,
       node := s.node.(chain := s.node.chain.(config := s.node.chain.config.(difficultyBits := s.ui))))
  }

  function ConsumeMined(c: Crypto, s: App, io: Write): App {
    if s.done && s.mined.Some? then Persist(c, Tuned(s), s.mined.value, io) else s
  }

  /** The difficulties of restored blocks, as far as they are known: a block that stood at its
      place before keeps the one it was accepted at, any other was accepted at 0 by the restore. */
  function Remembered(blocks: seq<Block>, last: seq<Block>, bits: seq<U32>): (r: seq<U32>)
    ensures |r| == |blocks|
  {
    seq(|blocks|, i requires 0 <= i < |blocks| =>
      if i < |last| && i < |bits| && last[i] == blocks[i] then bits[i] else 0)
  }

  /** A new process: default configuration, fresh flags, and whatever the log restores. The last
      two arguments only feed the history of difficulties. */
  function Boot(c: Crypto, log: Bytes, last: seq<Block>, bits: seq<U32>): App {
    var r := Restore(c, State([], Config(0, false)), log);
    App(Node(log, r.state), 16, if r.threw then Down else Running, false, false, false, None, NoThread, None,
        Remembered(r.state.blocks, last, bits))
  }

  /** Steps of the main thread, each enabled only while the main thread is free for it. */
  function MainStep(c: Crypto, s: App, e: Event): App {
    match e
    case Genesis(time, io) =>
      if s.main != Running || s.node.chain.blocks != [] then s
      else Persist(c, s, GenesisBlock(c, Ascii(GENESIS_NOTE), time), io)
    case AppendSigned(pubPem, signature, time, io) =>
      var blocks := s.node.chain.blocks;
      if s.main != Running || blocks == [] then s
      else Persist(c, s, Template(c, blocks, [SignedTx(Tip(blocks), pubPem, signature)], time), io)
    case Start(pubPem, signature) => if s.main != Running then s else StartMining(s, pubPem, signature)
    case Clear(opens) => if s.main != Running then s else ClearStore(s, opens)
    case JoinedForClear(opens) =>
      if s.main != JoiningToClear || s.worker != Exited then s
      else Truncate(s.(main := Running, mining := false, worker := NoThread), opens)
    case Easier => if s.main != Running || s.ui == 0 then s else s.(ui := s.ui - 1)
    case Harder => if s.main != Running || s.ui >= 32 then s else s.(ui := s.ui + 1)
    case Consume(io) => if s.main != Running then s else ConsumeMined(c, s, io)
    case Quit =>
      if s.main != Running then s
      else s.(cancel := s.cancel || s.mining, main := if s.worker == NoThread then Down else JoiningToQuit)
    case JoinedForQuit => if s.main != JoiningToQuit || s.worker != Exited then s else s.(main := Down)
    case Killed => s.(main := Down)
    case Restart => if s.main != Down then s else Boot(c, s.node.log, s.node.chain.blocks, s.bits)
    case _ => s
  }

  /** Steps of the worker thread, which reads the chain once and atomically. */
  function WorkerStep(c: Crypto, s: App, e: Event): App {
    match e
    case WorkerReads(now) =>
      if !s.worker.Launched? then s
      else s.(worker := AtWork(Template(c, s.node.chain.blocks, [s.worker.tx], now), s.worker.difficulty),
              readTip := TipHash(c, s.node.chain.blocks))
    case WorkerFinds(b) =>
      if !s.worker.AtWork? || !Miner.MinerResult(c, s.worker.built, s.worker.difficulty, b) then s
      else s.(worker := Found, mined := Some(b))
    case WorkerAnnounces => if s.worker != Found then s else s.(worker := Announced, done := true)
    case WorkerSeesCancel => if !s.worker.AtWork? || !s.cancel then s else s.(worker := Cancelling)
    case WorkerExits =>
      if s.worker != Announced && s.worker != Cancelling then s else s.(worker := Exited, mining := false)
    case _ => s
  }

  predicate IsWorkerEvent(e: Event) {
    e.WorkerReads? || e.WorkerFinds? || e.WorkerAnnounces? || e.WorkerSeesCancel? || e.WorkerExits?
  }

  function Step(c: Crypto, s: App, e: Event): App {
    if IsWorkerEvent(e) then (if s.main == Down then s else WorkerStep(c, s, e)) else MainStep(c, s, e)
  }

  function RunAll(c: Crypto, s: App, es: seq<Event>): App
    decreases |es|
  {
    if es == [] then s else Step(c, RunAll(c, s, es[..|es| - 1]), es[|es| - 1])
  }

  // ---- What every run keeps about the worker -------------------------------

  /** A block built for one signed transaction on the tip that the worker read. */
  ghost predicate BuiltOn(b: Block, tip: Option<Hash256>) {
    && tip == Some(b.header.prevHash)
    && |b.transactions| == 1 && b.transactions[0].fromPubPem != []
  }

  /** The main thread waits for the worker. */
  predicate Joining(s: App) { s.main == JoiningToClear || s.main == JoiningToQuit }

  ghost predicate WorkerInv(s: App) {
    && (s.worker.Launched? ==> s.node.chain.blocks != [] && s.worker.tx.fromPubPem != [])
    && (s.worker.AtWork? ==> BuiltOn(s.worker.built, s.readTip))
    && (s.worker.Found? ==> s.mined.Some? && BuiltOn(s.mined.value, s.readTip))
    && (s.done ==> s.mined.Some? && BuiltOn(s.mined.value, s.readTip))
    && (s.done ==> s.worker.Announced? || s.worker.Exited? || s.worker.NoThread?)
    && (s.worker.Launched? || s.worker.AtWork? || s.worker.Found? || s.worker.Cancelling? ==> s.mining)
    && (Joining(s) ==> s.worker != NoThread && (s.worker.Launched? || s.worker.AtWork? ==> s.cancel))
  }

  /** PEM text of a generated key is never empty. */
  ghost predicate KeyPresent(e: Event) { e.Start? ==> e.pubPem != [] }

  lemma CommitKeepsWorker(c: Crypto, s: App, b: Block, io: Write)
    requires WorkerInv(s)
    ensures WorkerInv(Persist(c, s, b, io))
  {
    hide Validate, BlockRecord;
  }

  lemma MainKeepsWorker(c: Crypto, s: App, e: Event)
    requires (s.main == Down || WorkerInv(s)) && KeyPresent(e)
    ensures MainStep(c, s, e).main == Down || WorkerInv(MainStep(c, s, e))
  {
    hide Persist, Restore, Template, GenesisBlock, SignedTx;
    match e
    case Genesis(time, io) =>
      if s.main == Running {
        CommitKeepsWorker(c, s, GenesisBlock(c, Ascii(GENESIS_NOTE), time), io);
      }
    case AppendSigned(pubPem, signature, time, io) =>
      var blocks := s.node.chain.blocks;
      if s.main == Running && blocks != [] {
        CommitKeepsWorker(c, s, Template(c, blocks, [SignedTx(Tip(blocks), pubPem, signature)], time), io);
      }
    case Consume(io) =>
      if s.main == Running && s.done {
        CommitKeepsWorker(c, Tuned(s), s.mined.value, io);
      }
    case _ =>
  }

  lemma WorkerKeepsWorker(c: Crypto, s: App, e: Event)
    requires WorkerInv(s)
    ensures WorkerInv(WorkerStep(c, s, e))
  {
    hide HeaderHash, MerkleRoot, Miner.Hit;
  }

  lemma {:induction false} WorkerInvariant(c: Crypto, s: App, es: seq<Event>)
    requires s.main == Down || WorkerInv(s)
    requires forall i :: 0 <= i < |es| ==> KeyPresent(es[i])
    ensures RunAll(c, s, es).main == Down || WorkerInv(RunAll(c, s, es))
    decreases |es|
  {
    hide WorkerInv, MainStep, WorkerStep;
    if es != [] {
      var init, e := es[..|es| - 1], es[|es| - 1];
      WorkerInvariant(c, s, init);
      var before := RunAll(c, s, init);
      if IsWorkerEvent(e) {
        if before.main != Down {
          WorkerKeepsWorker(c, before, e);
          WorkerKeepsMain(c, before, e);
        }
      } else {
        MainKeepsWorker(c, before, e);
      }
    }
  }

  lemma WorkerKeepsMain(c: Crypto, s: App, e: Event)
    ensures WorkerStep(c, s, e).main == s.main && WorkerStep(c, s, e).node == s.node
    ensures WorkerStep(c, s, e).bits == s.bits
  {
    hide Template, Miner.MinerResult;
  }

  /** What the worker holds, and what it hands over, carries its own Merkle root. */
  ghost predicate RootInv(c: Crypto, s: App) {
    && (s.worker.AtWork? ==> s.worker.built.header.merkleRoot == MerkleRoot(c, s.worker.built.transactions))
    && (s.mined.Some? ==> s.mined.value.header.merkleRoot == MerkleRoot(c, s.mined.value.transactions))
  }

  lemma StepKeepsRoot(c: Crypto, s: App, e: Event)
    requires s.main == Down || RootInv(c, s)
    ensures Step(c, s, e).main == Down || RootInv(c, Step(c, s, e))
  {
    hide MainStep, WorkerStep;
    if !IsWorkerEvent(e) {
      if MainStep(c, s, e).main != Down {
        MainKeepsResult(c, s, e);
      }
    } else if s.main != Down {
      WorkerKeepsRoot(c, s, e);
    }
  }

  /** The main thread never touches what the worker holds, and a new process has nothing. */
  lemma MainKeepsResult(c: Crypto, s: App, e: Event)
    requires MainStep(c, s, e).main != Down
    ensures var t := MainStep(c, s, e);
            && (t.worker.AtWork? ==> s.main != Down && t.worker == s.worker)
            && (t.mined.Some? ==> s.main != Down && t.mined == s.mined)
  {
    hide AppendStored, Template, GenesisBlock, SignedTx, RewardTx, Restore;
  }

  lemma WorkerKeepsRoot(c: Crypto, s: App, e: Event)
    requires RootInv(c, s)
    ensures RootInv(c, WorkerStep(c, s, e))
  {
    hide MerkleRoot, HeaderHash, Miner.Hit;
  }

  lemma {:induction false} RootInvariant(c: Crypto, s: App, es: seq<Event>)
    requires s.main == Down || RootInv(c, s)
    ensures RunAll(c, s, es).main == Down || RootInv(c, RunAll(c, s, es))
    decreases |es|
  {
    hide Step, RootInv;
    if es != [] {
      RootInvariant(c, s, es[..|es| - 1]);
      StepKeepsRoot(c, RunAll(c, s, es[..|es| - 1]), es[|es| - 1]);
    }
  }

  /** However appends, clears, cancels, failed writes and restarts interleave with the worker,
      a mined block is valid exactly on a non-empty chain whose tip hash is the one the worker
      read and whose tip is not newer, if its transaction verifies and it has the work of the
      difficulty then selected. On a cleared chain and on another tip it is rejected, chain and
      log stay as they are and the program goes on; it is consumed once, and only an unreadable
      key on the right tip ends the process. */
  lemma StaleResults(c: Crypto, start: App, es: seq<Event>, io: Write)
    requires start.main == Down && forall i :: 0 <= i < |es| ==> KeyPresent(es[i])
    requires var s := RunAll(c, start, es); s.main == Running && s.done
    ensures var s := RunAll(c, start, es);
            && s.mined.Some?
            && (Validate(c, Tuned(s).node.chain, s.mined.value) == ACCEPTED <==> StillFits(c, s, s.mined.value))
            && var o := AppendStored(c, Tuned(s).node, s.mined.value, io).outcome;
               && (o == ACCEPTED ==> && s.node.chain.blocks != []
                                     && s.readTip == TipHash(c, s.node.chain.blocks)
                                     && MeetsDifficulty(s.ui, HeaderHash(c, s.mined.value.header)))
               && (s.node.chain.blocks == [] ==>
                     && o.Result? && !o.isValid
                     && (o.error == NonZeroPrevHashForGenesis || o.error == CoinBaseMisplaced)
                     && Step(c, s, Consume(io)).node.log == s.node.log
                     && Step(c, s, Consume(io)).node.chain.blocks == [])
               && (s.node.chain.blocks != [] && s.readTip != TipHash(c, s.node.chain.blocks) ==>
                     && o == Rejected(BadPrevLink)
                     && Step(c, s, Consume(io)).node.log == s.node.log
                     && Step(c, s, Consume(io)).node.chain.blocks == s.node.chain.blocks)
    ensures var s := RunAll(c, start, es);
            var t := Step(c, s, Consume(io));
            !t.done && !t.mining && t.main == if KeyUnreadable(c, s, s.mined.value) then Down else Running
  {
    hide RunAll, Tuned, Step, AppendStored, StillFits, Validate, KeyUnreadable;
    WorkerInvariant(c, start, es);
    RootInvariant(c, start, es);
    ConsumeVerdict(c, RunAll(c, start, es), io);
    ConsumeVerdictIff(c, RunAll(c, start, es));
    ConsumeOutcome(c, RunAll(c, start, es), io);
  }

  /** On the tip that was read and in time, the transaction's key cannot be read. */
  ghost predicate KeyUnreadable(c: Crypto, s: App, b: Block) {
    var blocks := s.node.chain.blocks;
    && blocks != [] && s.readTip == TipHash(c, blocks)
    && b.header.timestamp >= Tip(blocks).header.timestamp
    && exists k :: 0 <= k < |b.transactions| && VerifyTx(c, b.transactions[k]) == Throws
  }

  lemma ConsumeOutcome(c: Crypto, s: App, io: Write)
    requires WorkerInv(s) && RootInv(c, s) && s.main == Running && s.done
    ensures var o, t := AppendStored(c, Tuned(s).node, s.mined.value, io).outcome, Step(c, s, Consume(io));
            && (s.node.chain.blocks != [] && s.readTip != TipHash(c, s.node.chain.blocks) ==>
                  && o == Rejected(BadPrevLink)
                  && t.node.log == s.node.log && t.node.chain.blocks == s.node.chain.blocks)
            && !t.done && !t.mining
            && (t.main == if KeyUnreadable(c, s, s.mined.value) then Down else Running)
  {
    hide MerkleRoot, HeaderHash, VerifyTx, Validate, MeetsDifficulty, BlockRecord;
    var b, n := s.mined.value, Tuned(s).node;
    ErrorReported(c, n.chain, b);
    assert b.transactions == [b.transactions[0]];
    assert FirstBad(c, n.chain.blocks, b.transactions, Throws)
      <==> n.chain.blocks != [] && VerifyTx(c, b.transactions[0]) == Throws;
  }

  ghost predicate StillFits(c: Crypto, s: App, b: Block) {
    var blocks := s.node.chain.blocks;
    && blocks != [] && s.readTip == TipHash(c, blocks)
    && b.header.timestamp >= Tip(blocks).header.timestamp
    && (forall k :: 0 <= k < |b.transactions| ==> VerifyTx(c, b.transactions[k]) == Valid)
    && MeetsDifficulty(s.ui, HeaderHash(c, b.header))
  }

  lemma ConsumeVerdictIff(c: Crypto, s: App)
    requires WorkerInv(s) && RootInv(c, s) && s.main == Running && s.done
    ensures Validate(c, Tuned(s).node.chain, s.mined.value) == ACCEPTED <==> StillFits(c, s, s.mined.value)
  {
    hide MerkleRoot, HeaderHash, VerifyTx, Validate, LeadingZeros;
    AcceptedIff(c, Tuned(s).node.chain, s.mined.value);
  }

  lemma ConsumeVerdict(c: Crypto, s: App, io: Write)
    requires WorkerInv(s) && s.main == Running && s.done
    ensures var o := AppendStored(c, Tuned(s).node, s.mined.value, io).outcome;
            && (o == ACCEPTED ==> && s.node.chain.blocks != []
                                  && s.readTip == TipHash(c, s.node.chain.blocks)
                                  && MeetsDifficulty(s.ui, HeaderHash(c, s.mined.value.header)))
            && (s.node.chain.blocks == [] ==>
                  && o.Result? && !o.isValid
                  && (o.error == NonZeroPrevHashForGenesis || o.error == CoinBaseMisplaced)
                  && Step(c, s, Consume(io)).node.log == s.node.log
                  && Step(c, s, Consume(io)).node.chain.blocks == [])
  {
    hide MerkleRoot, HeaderHash, VerifyTx, LeadingZeros, BlockRecord, FirstCoinbase, CheckSignatures;
    AcceptedIff(c, Tuned(s).node.chain, s.mined.value);
  }

  /** Steps a worker has left. */
  function Remaining(w: Worker): nat {
    match w
    case Launched(_, _) => 4
    case AtWork(_, _) => 3
    case Found => 2
    case Announced => 1
    case Cancelling => 1
    case _ => 0
  }

  lemma WorkerMovesOn(c: Crypto, s: App, e: Event)
    ensures WorkerStep(c, s, e) == s || Remaining(WorkerStep(c, s, e).worker) < Remaining(s.worker)
  {
    hide Template, Miner.MinerResult;
  }

  function NextStep(w: Worker): Event {
    match w
    case Launched(_, _) => WorkerReads(0)
    case AtWork(_, _) => WorkerSeesCancel
    case Found => WorkerAnnounces
    case _ => WorkerExits
  }

  /** A join never waits in vain: in every run, while the main thread is joining and the
      worker has not exited, the worker has a step to take, and each of its steps, whichever
      it takes, brings it closer to its exit. */
  lemma JoinMakesProgress(c: Crypto, start: App, es: seq<Event>)
    requires start.main == Down && forall i :: 0 <= i < |es| ==> KeyPresent(es[i])
    requires Joining(RunAll(c, start, es)) && RunAll(c, start, es).worker != Exited
    ensures var s := RunAll(c, start, es);
            Remaining(Step(c, s, NextStep(s.worker)).worker) < Remaining(s.worker)
    ensures var s := RunAll(c, start, es);
            forall e :: IsWorkerEvent(e) ==> Step(c, s, e) == s || Remaining(Step(c, s, e).worker) < Remaining(s.worker)
  {
    hide RunAll, Template, Miner.MinerResult;
    WorkerInvariant(c, start, es);
  }

  // ---- How often a process can mine ----------------------------------------

  lemma RunAllSnoc(c: Crypto, s: App, es: seq<Event>, e: Event)
    ensures RunAll(c, s, es + [e]) == Step(c, RunAll(c, s, es), e)
  {
    hide Step;
    assert (es + [e])[..|es|] == es;
  }

  /** The state that event `i` of a run meets. */
  function At(c: Crypto, s: App, es: seq<Event>, i: nat): App
    requires i <= |es|
  {
    RunAll(c, s, es[..i])
  }

  lemma AtNext(c: Crypto, s: App, es: seq<Event>, i: nat)
    requires i < |es|
    ensures At(c, s, es, i + 1) == Step(c, At(c, s, es, i), es[i])
  {
    hide Step, RunAll;
    assert es[..i + 1] == es[..i] + [es[i]];
    RunAllSnoc(c, s, es[..i], es[i]);
  }

  /** Event `i` launches a worker. */
  ghost predicate Launches(c: Crypto, s: App, es: seq<Event>, i: nat)
    requires i < |es|
  {
    es[i].Start? && !At(c, s, es, i).worker.Launched? && At(c, s, es, i + 1).worker.Launched?
  }

  /** Event `i` completes a join for a clear. */
  ghost predicate Joins(c: Crypto, s: App, es: seq<Event>, i: nat)
    requires i < |es|
  {
    es[i].JoinedForClear? && At(c, s, es, i).main == JoiningToClear && At(c, s, es, i).worker == Exited
  }

  /** Event `i` begins a new process. */
  ghost predicate Reboots(c: Crypto, s: App, es: seq<Event>, i: nat)
    requires i < |es|
  {
    es[i].Restart? && At(c, s, es, i).main == Down
  }

  /** Only a join for a clear, or the end of the process, gets rid of a worker. */
  lemma ThreadLeaves(c: Crypto, s: App, e: Event)
    requires s.worker != NoThread && Step(c, s, e).worker == NoThread
    ensures (e.JoinedForClear? && s.main == JoiningToClear && s.worker == Exited) || (e.Restart? && s.main == Down)
  {
    hide AppendStored, Template, GenesisBlock, SignedTx, RewardTx, Boot, Miner.MinerResult;
  }

  lemma {:induction false} JoinBetween(c: Crypto, s: App, es: seq<Event>, i: nat, j: nat)
    requires i <= j <= |es| && At(c, s, es, i).worker != NoThread && At(c, s, es, j).worker == NoThread
    requires forall k :: i <= k < j ==> !Reboots(c, s, es, k)
    ensures exists k :: i <= k < j && Joins(c, s, es, k)
    decreases j - i
  {
    hide At, Step;
    if i < j {
      AtNext(c, s, es, i);
      if At(c, s, es, i + 1).worker == NoThread {
        ThreadLeaves(c, At(c, s, es, i), es[i]);
        assert !Reboots(c, s, es, i);
        assert Joins(c, s, es, i);
      } else {
        JoinBetween(c, s, es, i + 1, j);
      }
    }
  }

  lemma LaunchNeedsNoThread(s: App, pubPem: Bytes, signature: Bytes)
    requires !s.worker.Launched? && StartMining(s, pubPem, signature).worker.Launched?
    ensures s.worker == NoThread
  {
  }

  /** In every run, two launches within one process have a completed join for a clear between
      them: nothing else makes a second search possible. */
  lemma LaunchesAreSeparated(c: Crypto, s: App, es: seq<Event>, i: nat, j: nat)
    requires i < j < |es| && Launches(c, s, es, i) && Launches(c, s, es, j)
    requires forall k :: i < k < j ==> !Reboots(c, s, es, k)
    ensures exists k :: i < k < j && Joins(c, s, es, k)
  {
    hide At, StartMining, AppendStored;
    AtNext(c, s, es, j);
    LaunchNeedsNoThread(At(c, s, es, j), es[j].pubPem, es[j].signature);
    JoinBetween(c, s, es, i + 1, j);
  }

  /** A worker was launched before event `j` in this process, and no join has met it since. */
  ghost predicate OpenLaunch(c: Crypto, s: App, es: seq<Event>, j: nat)
    requires j <= |es|
  {
    exists i :: && 0 <= i < j && Launches(c, s, es, i)
                && forall k :: i < k < j ==> !Joins(c, s, es, k) && !Reboots(c, s, es, k)
  }

  lemma OpenLaunchStep(c: Crypto, s: App, es: seq<Event>, j: nat)
    requires j < |es|
    ensures OpenLaunch(c, s, es, j + 1)
       <==> || Launches(c, s, es, j)
            || (OpenLaunch(c, s, es, j) && !Joins(c, s, es, j) && !Reboots(c, s, es, j))
  {
    hide Launches, Joins, Reboots;
    if OpenLaunch(c, s, es, j + 1) {
      var i :| && 0 <= i < j + 1 && Launches(c, s, es, i)
               && forall k :: i < k < j + 1 ==> !Joins(c, s, es, k) && !Reboots(c, s, es, k);
      if i < j {
        assert !Joins(c, s, es, j) && !Reboots(c, s, es, j);
      }
    }
    if OpenLaunch(c, s, es, j) && !Joins(c, s, es, j) && !Reboots(c, s, es, j) {
      var i :| && 0 <= i < j && Launches(c, s, es, i)
               && forall k :: i < k < j ==> !Joins(c, s, es, k) && !Reboots(c, s, es, k);
      assert forall k :: i < k < j + 1 ==> !Joins(c, s, es, k) && !Reboots(c, s, es, k);
    }
  }

  /** What one step does to the thread, as long as the process lives on. */
  lemma ThreadStep(c: Crypto, s: App, e: Event)
    requires Step(c, s, e).main != Down
    ensures s.main == Down ==> e.Restart? && Step(c, s, e).worker == NoThread
    ensures var joined := e.JoinedForClear? && s.main == JoiningToClear && s.worker == Exited;
            var launched := e.Start? && !s.worker.Launched? && Step(c, s, e).worker.Launched?;
            s.main != Down ==> (Step(c, s, e).worker != NoThread <==> launched || (s.worker != NoThread && !joined))
  {
    hide AppendStored, Template, GenesisBlock, SignedTx, RewardTx, Restore, Miner.MinerResult;
  }

  lemma {:induction false} ThreadIffOpenLaunch(c: Crypto, s: App, es: seq<Event>, j: nat)
    requires s.main == Down && j <= |es|
    ensures At(c, s, es, j).main == Down || (At(c, s, es, j).worker != NoThread <==> OpenLaunch(c, s, es, j))
    decreases j
  {
    hide Step, OpenLaunch, RunAll;
    if j == 0 {
      assert es[..0] == [];
      RunAllEmpty(c, s);
    } else {
      ThreadIffOpenLaunch(c, s, es, j - 1);
      AtNext(c, s, es, j - 1);
      OpenLaunchStep(c, s, es, j - 1);
      if At(c, s, es, j).main != Down {
        ThreadStep(c, At(c, s, es, j - 1), es[j - 1]);
      }
    }
  }

  /** Exactly when a process can mine. In every run, a start that finds a search under way or no
      chain changes nothing; any other ends the process if and only if a worker was launched
      before in this process with no completed join since, and launches one if and only if not. */
  lemma StartLaunchesIff(c: Crypto, s: App, es: seq<Event>, j: nat)
    requires s.main == Down && j < |es| && es[j].Start? && At(c, s, es, j).main == Running
    ensures var before, after := At(c, s, es, j), At(c, s, es, j + 1);
            if before.mining || before.node.chain.blocks == [] then after == before
            else && (after.main == Down <==> OpenLaunch(c, s, es, j))
                 && (Launches(c, s, es, j) <==> !OpenLaunch(c, s, es, j))
  {
    hide OpenLaunch, RunAll, RewardTx;
    hide At;
    AtNext(c, s, es, j);
    ThreadIffOpenLaunch(c, s, es, j);
  }

  /** The process has mined and can never mine again. */
  ghost predicate Spent(s: App) {
    !s.mining && (s.worker.Announced? || s.worker.Exited?) && s.main != JoiningToClear
  }

  lemma SpentStays(c: Crypto, s: App, e: Event)
    requires Spent(s) && !(e.Restart? && s.main == Down)
    ensures Spent(Step(c, s, e))
    ensures e.Start? && s.main == Running && s.node.chain.blocks != [] ==> Step(c, s, e).main == Down
  {
    hide AppendStored, Template, GenesisBlock, SignedTx, RewardTx, Boot, Miner.MinerResult;
  }

  lemma {:induction false} SpentOnwards(c: Crypto, s: App, es: seq<Event>, i: nat, j: nat)
    requires i <= j <= |es| && Spent(At(c, s, es, i))
    requires forall k :: i <= k < j ==> !Reboots(c, s, es, k)
    ensures Spent(At(c, s, es, j))
    decreases j - i
  {
    hide At, Step, Spent;
    if i < j {
      AtNext(c, s, es, i);
      assert !Reboots(c, s, es, i);
      SpentStays(c, At(c, s, es, i), es[i]);
      SpentOnwards(c, s, es, i + 1, j);
    }
  }

  lemma ConsumeSpends(c: Crypto, s: App, io: Write)
    requires WorkerInv(s) && s.main == Running && s.done && s.worker != NoThread
    ensures Spent(Step(c, s, Consume(io)))
  {
    hide AppendStored;
  }

  /** In every run, once a result has been consumed whose worker was not joined, no later start
      in that process launches a worker, and on a non-empty chain it ends the process. */
  lemma ConsumedResultIsTheLast(c: Crypto, start: App, es: seq<Event>, i: nat, j: nat)
    requires start.main == Down && forall k :: 0 <= k < |es| ==> KeyPresent(es[k])
    requires i < j < |es| && es[i].Consume? && es[j].Start?
    requires var s := At(c, start, es, i); s.main == Running && s.done && s.worker != NoThread
    requires forall k :: i < k < j ==> !Reboots(c, start, es, k)
    ensures !Launches(c, start, es, j)
    ensures var s := At(c, start, es, j);
            s.main == Running && s.node.chain.blocks != [] ==> At(c, start, es, j + 1).main == Down
  {
    hide RunAll, Step, WorkerInv;
    WorkerInvariant(c, start, es[..i]);
    AtNext(c, start, es, i);
    ConsumeSpends(c, At(c, start, es, i), es[i].io);
    SpentOnwards(c, start, es, i + 1, j);
    AtNext(c, start, es, j);
    SpentStays(c, At(c, start, es, j), es[j]);
  }

  /** `k` presses of the key that lowers the difficulty. */
  function Lowered(k: nat): seq<Event> { seq(k, _ => Easier) }

  lemma {:induction false} LoweredRun(c: Crypto, s: App, es: seq<Event>, k: nat)
    requires RunAll(c, s, es).main == Running
    ensures var t := RunAll(c, s, es);
            RunAll(c, s, es + Lowered(k)) == t.(ui := if k <= t.ui then t.ui - k else 0)
  {
    hide RunAll;
    if k == 0 {
      assert es + Lowered(0) == es;
    } else {
      LoweredRun(c, s, es, k - 1);
      assert es + Lowered(k) == es + Lowered(k - 1) + [Easier];
      RunAllSnoc(c, s, es + Lowered(k - 1), Easier);
    }
  }

  /** Genesis, difficulty 0, and one block mined at the first attempt, appended and persisted. */
  function OneMined(c: Crypto, time: U64, pubPem: Bytes, signature: Bytes): seq<Event> {
    var built := Template(c, [GenesisBlock(c, Ascii(GENESIS_NOTE), time)], [RewardTx(pubPem, signature)], time);
    [Restart, Genesis(time, Completed)] + Lowered(16)
    + [Start(pubPem, signature)] + [WorkerReads(time)] + [WorkerFinds(built)] + [WorkerAnnounces]
    + [Consume(Completed)] + [WorkerExits]
  }

  /** A run from a new installation in which mining succeeds once, with the block in the chain
      and in the log, and the second press of the mining key ends the process. */
  lemma SecondStartEndsProcess(c: Crypto, time: U64, pubPem: Bytes, signature: Bytes, again: Event)
    requires pubPem != [] && VerifyTx(c, RewardTx(pubPem, signature)) == Valid && again.Start?
    ensures var s := RunAll(c, Fresh(), OneMined(c, time, pubPem, signature));
            && s.main == Running && !s.mining && |s.node.chain.blocks| == 2
            && RunAll(c, Fresh(), OneMined(c, time, pubPem, signature) + [again]).main == Down
  {
    hide RunAll, Step, MerkleRoot, VerifyTx, Template;
    var g := GenesisBlock(c, Ascii(GENESIS_NOTE), time);
    var built := Template(c, [g], [RewardTx(pubPem, signature)], time);
    var e2 := [Restart, Genesis(time, Completed)];
    var e3 := e2 + Lowered(16);
    FirstBoot(c, time);
    LoweredRun(c, Fresh(), e2, 16);
    var s := RunAll(c, Fresh(), e3);
    var e4 := e3 + [Start(pubPem, signature)];
    var e5 := e4 + [WorkerReads(time)];
    var e6 := e5 + [WorkerFinds(built)];
    var e7 := e6 + [WorkerAnnounces];
    var e8 := e7 + [Consume(Completed)];
    RunAllSnoc(c, Fresh(), e3, Start(pubPem, signature));
    RunAllSnoc(c, Fresh(), e4, WorkerReads(time));
    RunAllSnoc(c, Fresh(), e5, WorkerFinds(built));
    RunAllSnoc(c, Fresh(), e6, WorkerAnnounces);
    RunAllSnoc(c, Fresh(), e7, Consume(Completed));
    RunAllSnoc(c, Fresh(), e8, WorkerExits);
    RunAllSnoc(c, Fresh(), e8 + [WorkerExits], again);
    MineAtZero(c, s, time, pubPem, signature);
    MinedGoesIn(c, RunAll(c, Fresh(), e7), g, time, pubPem, signature);
    ExitThenStart(c, RunAll(c, Fresh(), e8), again);
  }

  /** The first start of a new installation, and its genesis block. */
  lemma FirstBoot(c: Crypto, time: U64)
    ensures var s := RunAll(c, Fresh(), [Restart, Genesis(time, Completed)]);
            && s.main == Running && !s.mining && s.worker == NoThread && s.ui == 16
            && s.node.chain.blocks == [GenesisBlock(c, Ascii(GENESIS_NOTE), time)]
  {
    hide GenesisBlock, Validate, FirstPayload, BlockRecord, RunAll;
    EmptyLogStops(c);
    StopsAtOnce(c, []);
    GenesisAccepted(c, Config(0, false), Ascii(GENESIS_NOTE), time);
    RunAllEmpty(c, Fresh());
    RunAllSnoc(c, Fresh(), [], Restart);
    RunAllSnoc(c, Fresh(), [Restart], Genesis(time, Completed));
    assert [] + [Restart] == [Restart];
    assert [Restart] + [Genesis(time, Completed)] == [Restart, Genesis(time, Completed)];
  }

  lemma RunAllEmpty(c: Crypto, s: App)
    ensures RunAll(c, s, []) == s
  {
  }

  /** At difficulty 0 the built block itself is a result. */
  lemma MineAtZero(c: Crypto, s: App, time: U64, pubPem: Bytes, signature: Bytes)
    requires s.main == Running && !s.mining && s.worker == NoThread && s.node.chain.blocks != [] && s.ui == 0
    ensures var built := Template(c, s.node.chain.blocks, [RewardTx(pubPem, signature)], time);
            var s1 := Step(c, s, Start(pubPem, signature));
            var s2 := Step(c, s1, WorkerReads(time));
            var s3 := Step(c, s2, WorkerFinds(built));
            Step(c, s3, WorkerAnnounces)
            == s.(mining := true, cancel := false, done := true, mined := Some(built), worker := Announced,
                  readTip := TipHash(c, s.node.chain.blocks))
  {
    hide Template, RewardTx, TipHash, WorkerStep;
    var tx := RewardTx(pubPem, signature);
    var s1 := s.(mining := true, cancel := false, done := false, worker := Launched(tx, 0));
    var built := Template(c, s.node.chain.blocks, [tx], time);
    var s2 := s1.(worker := AtWork(built, 0), readTip := TipHash(c, s.node.chain.blocks));
    assert WorkerStep(c, s1, WorkerReads(time)) == s2 by { ReadsOnce(c, s1, time); }
    FindsAtZero(c, s2);
  }

  lemma ReadsOnce(c: Crypto, s: App, now: U64)
    requires s.worker.Launched?
    ensures WorkerStep(c, s, WorkerReads(now))
         == s.(worker := AtWork(Template(c, s.node.chain.blocks, [s.worker.tx], now), s.worker.difficulty),
               readTip := TipHash(c, s.node.chain.blocks))
  {
    hide Template;
  }

  lemma FindsAtZero(c: Crypto, s: App)
    requires s.worker.AtWork? && s.worker.difficulty == 0
    ensures var t := WorkerStep(c, s, WorkerFinds(s.worker.built));
            && t == s.(worker := Found, mined := Some(s.worker.built))
            && WorkerStep(c, t, WorkerAnnounces) == t.(worker := Announced, done := true)
  {
    hide Template, LeadingZeros, HeaderHash;
  }

  lemma MinedGoesIn(c: Crypto, s: App, g: Block, time: U64, pubPem: Bytes, signature: Bytes)
    requires pubPem != [] && VerifyTx(c, RewardTx(pubPem, signature)) == Valid
    requires s.main == Running && s.node.chain.blocks == [g] && g.header.timestamp == time
    requires s.worker == Announced && s.done && s.ui == 0
    requires s.mined == Some(Template(c, [g], [RewardTx(pubPem, signature)], time))
    ensures var t := Step(c, s, Consume(Completed));
            t.main == Running && |t.node.chain.blocks| == 2 && t.worker == Announced
  {
    hide Template, VerifyTx, Fits, BlockRecord, Validate;
    TemplateFits(c, [g], [RewardTx(pubPem, signature)], time);
    AcceptedIff(c, Tuned(s).node.chain, s.mined.value);
  }

  lemma ExitThenStart(c: Crypto, s: App, again: Event)
    requires s.main == Running && s.worker == Announced && s.node.chain.blocks != [] && again.Start?
    ensures var t := Step(c, s, WorkerExits);
            && t.main == Running && !t.mining && t.node == s.node
            && Step(c, t, again).main == Down
  {
  }

  // ---- What clean runs keep about chain and log ----------------------------

  ghost predicate SmallBlock(b: Block) { |b.transactions| == 1 && EncodableTx(b.transactions[0]) }

  lemma SmallIsStorable(b: Block)
    requires SmallBlock(b)
    ensures Storable(b)
  {
    hide HeaderBytes, FullBytes, Le;
    HeaderLength(b.header);
    var tx := b.transactions[0];
    assert b.transactions[1..] == [];
    assert TxsBytes(b.transactions) == Prefixed(FullBytes(tx)) + TxsBytes([]);
  }

  lemma HeaderLength(h: BlockHeader)
    ensures |HeaderBytes(h)| == 84
  {
    hide Le;
  }

  /** Everything the worker holds or has handed over can be stored. */
  ghost predicate SmallWork(s: App) {
    && (s.worker.Launched? ==> EncodableTx(s.worker.tx))
    && (s.worker.AtWork? ==> SmallBlock(s.worker.built))
    && (s.worker.Found? || s.done ==> s.mined.Some? && SmallBlock(s.mined.value))
  }

  /** The log holds exactly the records of the in-memory chain, and that chain is one that
      accepted appends, at the recorded difficulties, build. */
  ghost predicate Sound(c: Crypto, s: App) {
    && InStep(c, s.node)
    && Admitted(c, false, s.node.chain.blocks, s.bits)
    && !s.node.chain.config.enforceGenesisPow
  }

  ghost predicate SafeInv(c: Crypto, s: App) {
    Sound(c, s) && (s.main != Down ==> SmallWork(s))
  }

  /** The encoded transaction stays below 2^32 bytes. */
  predicate RoomFor(pubPem: Bytes, signature: Bytes, toLabel: string) {
    38 + |pubPem| + |toLabel| + |signature| < TWO_32
  }

  /** Writes that arrive whole or not at all, and transactions that the log can hold. */
  ghost predicate Clean(e: Event) {
    match e
    case Genesis(_, io) => CleanWrite(io)
    case Consume(io) => CleanWrite(io)
    case AppendSigned(pubPem, signature, _, io) => CleanWrite(io) && RoomFor(pubPem, signature, APPEND_LABEL)
    case Start(pubPem, signature) => RoomFor(pubPem, signature, REWARD_LABEL)
    case _ => true
  }

  lemma CommitSound(c: Crypto, s: App, b: Block, io: Write)
    requires Sound(c, s) && Storable(b) && CleanWrite(io)
    ensures Sound(c, Persist(c, s, b, io))
  {
    hide Storable, Validate, BlockRecord, LogOf, InStep, Fits, Worked, Admitted;
    CommitInStep(c, s.node, b, io);
    if Validate(c, s.node.chain, b) == ACCEPTED && io.Completed? {
      AcceptedIff(c, s.node.chain, b);
      var d := s.node.chain.config.difficultyBits;
      assert s.node.chain.config == Config(d, false);
      AdmittedAppend(c, false, s.node.chain.blocks, s.bits, b, d);
    }
  }

  lemma SmallSigned(tip: Block, pubPem: Bytes, signature: Bytes)
    ensures RoomFor(pubPem, signature, APPEND_LABEL) <==> EncodableTx(SignedTx(tip, pubPem, signature))
    ensures RoomFor(pubPem, signature, REWARD_LABEL) <==> EncodableTx(RewardTx(pubPem, signature))
  {
    hide FullBytes;
    TxBytesLength(SignedTx(tip, pubPem, signature));
    TxBytesLength(RewardTx(pubPem, signature));
  }

  lemma SmallGenesis(c: Crypto, time: U64)
    ensures SmallBlock(GenesisBlock(c, Ascii(GENESIS_NOTE), time))
  {
    hide FullBytes;
    TxBytesLength(Coinbase(Ascii(GENESIS_NOTE)));
  }

  lemma TruncateSound(c: Crypto, s: App, opens: bool)
    requires Sound(c, s)
    ensures Sound(c, Truncate(s, opens))
  {
  }

  /** A restart finds the chain again, whatever difficulties its blocks were accepted at. */
  lemma BootSound(c: Crypto, s: App)
    requires Sound(c, s)
    ensures var t := Boot(c, s.node.log, s.node.chain.blocks, s.bits);
            && SafeInv(c, t) && t.main == Running
            && t.node.chain.blocks == s.node.chain.blocks && t.node.log == s.node.log && t.bits == s.bits
  {
    hide InStep, Restore, Fits, Worked;
    RestoreInStep(c, s.node, s.bits, Config(0, false));
    InStepOfBlocks(c, s.node, State(s.node.chain.blocks, Config(0, false)));
    assert Remembered(s.node.chain.blocks, s.node.chain.blocks, s.bits) == s.bits;
  }

  lemma InStepOfBlocks(c: Crypto, n: Node, chain: State)
    requires InStep(c, n) && chain.blocks == n.chain.blocks
    ensures InStep(c, Node(n.log, chain))
  {
  }

  lemma MainKeepsSafe(c: Crypto, s: App, e: Event)
    requires SafeInv(c, s) && Clean(e)
    ensures SafeInv(c, MainStep(c, s, e))
  {
    hide InStep, Admitted, AppendStored, Restore, Boot, Template, GenesisBlock, SignedTx, RewardTx;
    hide EncodableTx, CleanWrite, Storable, RoomFor;
    match e
    case Genesis(time, io) =>
      SmallGenesis(c, time);
      SmallIsStorable(GenesisBlock(c, Ascii(GENESIS_NOTE), time));
      CommitSound(c, s, GenesisBlock(c, Ascii(GENESIS_NOTE), time), io);
    case AppendSigned(pubPem, signature, time, io) =>
      if s.node.chain.blocks != [] {
        AppendKeepsSound(c, s, pubPem, signature, time, io);
      }
    case Start(pubPem, signature) =>
      if s.node.chain.blocks != [] {
        SmallSigned(Tip(s.node.chain.blocks), pubPem, signature);
      }
    case Clear(opens) =>
      TruncateSound(c, s, opens);
      TruncateSound(c, s.(cancel := true, mining := false), opens);
    case JoinedForClear(opens) =>
      TruncateSound(c, s.(main := Running, mining := false, worker := NoThread), opens);
    case Consume(io) =>
      if s.main == Running && s.done {
        InStepOfBlocks(c, s.node, Tuned(s).node.chain);
        SmallIsStorable(s.mined.value);
        CommitSound(c, Tuned(s), s.mined.value, io);
      }
    case Restart =>
      BootSound(c, s);
    case _ =>
  }

  lemma AppendKeepsSound(c: Crypto, s: App, pubPem: Bytes, signature: Bytes, time: U64, io: Write)
    requires Sound(c, s) && s.node.chain.blocks != []
    requires CleanWrite(io) && RoomFor(pubPem, signature, APPEND_LABEL)
    ensures Sound(c, Persist(c, s, Template(c, s.node.chain.blocks,
                                           [SignedTx(Tip(s.node.chain.blocks), pubPem, signature)], time), io))
  {
    hide Sound, Persist, SignedTx, EncodableTx, HeaderHash, MerkleRoot, Storable;
    var blocks := s.node.chain.blocks;
    var b := Template(c, blocks, [SignedTx(Tip(blocks), pubPem, signature)], time);
    SmallSigned(Tip(blocks), pubPem, signature);
    SmallIsStorable(b);
    CommitSound(c, s, b, io);
  }

  lemma WorkerKeepsSafe(c: Crypto, s: App, e: Event)
    requires SafeInv(c, s) && s.main != Down
    ensures SafeInv(c, WorkerStep(c, s, e))
  {
    hide Sound, EncodableTx, HeaderHash, MerkleRoot, Miner.Hit;
    WorkerKeepsMain(c, s, e);
    SoundOfNode(c, s, WorkerStep(c, s, e));
  }

  lemma SoundOfNode(c: Crypto, s: App, t: App)
    requires Sound(c, s) && t.node == s.node && t.bits == s.bits
    ensures Sound(c, t)
  {
    hide InStep, Admitted;
  }

  lemma {:induction false} SafeRuns(c: Crypto, s: App, es: seq<Event>)
    requires SafeInv(c, s) && forall i :: 0 <= i < |es| ==> Clean(es[i])
    ensures SafeInv(c, RunAll(c, s, es))
    decreases |es|
  {
    hide SafeInv, MainStep, WorkerStep, Clean;
    if es != [] {
      var init, e := es[..|es| - 1], es[|es| - 1];
      SafeRuns(c, s, init);
      var before := RunAll(c, s, init);
      assert Clean(e);
      if !IsWorkerEvent(e) {
        MainKeepsSafe(c, before, e);
      } else if before.main != Down {
        WorkerKeepsSafe(c, before, e);
      }
    }
  }

  /** An installation that has never run. */
  function Fresh(): App { Off([]) }

  /** Interleaving safety: over every clean run of genesis, appends, mining, cancellation,
      difficulty changes, clears, quits, kills and restarts, the log decodes exactly to the
      in-memory chain, and that chain satisfies the chain invariant. */
  lemma InterleavingSafety(c: Crypto, es: seq<Event>)
    requires forall i :: 0 <= i < |es| ==> Clean(es[i])
    ensures var s := RunAll(c, Fresh(), es);
            && Load(c, s.node.log) == Blocks(s.node.chain.blocks)
            && ChainInvariant(c, false, s.node.chain.blocks, s.bits)
  {
    hide RunAll, Load, LogOf, ChainInvariant;
    var s := RunAll(c, Fresh(), es);
    FreshIsSafe(c);
    SafeRuns(c, Fresh(), es);
    LogRoundTrip(c, s.node.chain.blocks);
    AdmittedIffInvariant(c, false, s.node.chain.blocks, s.bits);
  }

  lemma FreshIsSafe(c: Crypto)
    ensures SafeInv(c, Fresh())
  {
  }

  /** The block that a main-thread event sets out to write, if any. */
  function AttemptOf(c: Crypto, s: App, e: Event): Option<Block> {
    var blocks := s.node.chain.blocks;
    if s.main != Running then None
    else
      match e
      case Genesis(time, _) => if blocks == [] then Some(GenesisBlock(c, Ascii(GENESIS_NOTE), time)) else None
      case AppendSigned(pubPem, signature, time, _) =>
        if blocks == [] then None else Some(Template(c, blocks, [SignedTx(Tip(blocks), pubPem, signature)], time))
      case Consume(_) => if s.done then s.mined else None
      case _ => None
  }

  /** The state in which it is validated: a consume selects its difficulty first. */
  function Base(s: App, e: Event): App { if e.Consume? then Tuned(s) else s }

  predicate Writes(e: Event) { e.Genesis? || e.AppendSigned? || e.Consume? }

  /** The block passes validation there and its whole record reaches the log. */
  predicate Lands(c: Crypto, s: App, e: Event)
    requires Writes(e)
  {
    var b := AttemptOf(c, s, e);
    && b.Some? && Validate(c, Base(s, e).node.chain, b.value) == ACCEPTED
    && Arrived(BlockRecord(c, b.value), e.io) == BlockRecord(c, b.value)
  }

  /** Crash safety: after every clean run, let any handler that writes be met by any write
      whatever, whole, torn or lost, and let the process be killed. The next start finds the
      chain as it was before the handler, or with the handler's block if its whole record
      reached the log. */
  lemma CrashSafety(c: Crypto, es: seq<Event>, e: Event)
    requires forall i :: 0 <= i < |es| ==> Clean(es[i])
    requires Writes(e) && (e.AppendSigned? ==> RoomFor(e.pubPem, e.signature, APPEND_LABEL))
    ensures var s := RunAll(c, Fresh(), es);
            var t := RunAll(c, Fresh(), es + [e, Killed, Restart]);
            && t.main == Running
            && t.node.chain.blocks
               == if Lands(c, s, e) then s.node.chain.blocks + [AttemptOf(c, s, e).value] else s.node.chain.blocks
  {
    hide RunAll, Step, SafeInv, Lands, AttemptOf, Clean, Boot;
    var s := RunAll(c, Fresh(), es);
    FreshIsSafe(c);
    SafeRuns(c, Fresh(), es);
    RunAllSnoc(c, Fresh(), es, e);
    RunAllSnoc(c, Fresh(), es + [e], Killed);
    RunAllSnoc(c, Fresh(), es + [e] + [Killed], Restart);
    assert es + [e] + [Killed] + [Restart] == es + [e, Killed, Restart];
    CrashInHandler(c, s, e);
    KillAndRestart(c, Step(c, s, e));
  }

  lemma KillAndRestart(c: Crypto, s: App)
    ensures Step(c, Step(c, s, Killed), Restart) == Boot(c, s.node.log, s.node.chain.blocks, s.bits)
  {
    hide Boot;
  }

  /** The handler writes the block that `AttemptOf` names. */
  lemma HandlerPersists(c: Crypto, s: App, e: Event)
    requires Writes(e) && (s.done ==> s.mined.Some?)
    ensures var b := AttemptOf(c, s, e);
            Step(c, s, e).node == if b.Some? then Persist(c, Base(s, e), b.value, e.io).node else s.node
  {
    hide Persist, Template, GenesisBlock, SignedTx;
  }

  lemma AttemptIsStorable(c: Crypto, s: App, e: Event)
    requires SafeInv(c, s) && Writes(e) && (e.AppendSigned? ==> RoomFor(e.pubPem, e.signature, APPEND_LABEL))
    requires AttemptOf(c, s, e).Some?
    ensures Storable(AttemptOf(c, s, e).value)
  {
    hide Sound, EncodableTx, SignedTx, HeaderHash, MerkleRoot, GenesisBlock, Storable, RoomFor;
    match e {
      case Genesis(time, io) => SmallGenesis(c, time);
      case AppendSigned(pubPem, signature, time, io) => SmallSigned(Tip(s.node.chain.blocks), pubPem, signature);
      case Consume(io) =>
    }
    SmallIsStorable(AttemptOf(c, s, e).value);
  }

  lemma CrashInHandler(c: Crypto, s: App, e: Event)
    requires SafeInv(c, s) && Writes(e) && (e.AppendSigned? ==> RoomFor(e.pubPem, e.signature, APPEND_LABEL))
    ensures var r := Step(c, s, e);
            var t := Boot(c, r.node.log, r.node.chain.blocks, r.bits);
            && t.main == Running
            && t.node.chain.blocks
               == if Lands(c, s, e) then s.node.chain.blocks + [AttemptOf(c, s, e).value] else s.node.chain.blocks
  {
    hide Step, AttemptOf, Restore, BlockRecord, Storable, Validate, InStep, Admitted, SmallWork, RoomFor;
    var b, base := AttemptOf(c, s, e), Base(s, e);
    assert s.main == Down ==> b.None? by { AttemptNeedsProcess(c, s, e); }
    if b.Some? {
      SmallWorkHolds(s);
      HandlerPersists(c, s, e);
      AttemptIsStorable(c, s, e);
      InStepOfBlocks(c, s.node, base.node.chain);
      var record := BlockRecord(c, b.value);
      if Validate(c, base.node.chain, b.value) == ACCEPTED {
        var m := if e.io.Completed? || e.io.n >= |record| then |record| else e.io.n;
        assert Arrived(record, e.io) == record[..m];
        CrashRestart(c, base.node, s.bits, b.value, m, Config(0, false));
      } else {
        RestoreInStep(c, s.node, s.bits, Config(0, false));
      }
    } else {
      NothingAttempted(c, s, e);
      RestoreInStep(c, s.node, s.bits, Config(0, false));
    }
  }

  lemma AttemptNeedsProcess(c: Crypto, s: App, e: Event)
    ensures s.main != Running ==> AttemptOf(c, s, e).None?
  {
  }

  lemma NothingAttempted(c: Crypto, s: App, e: Event)
    requires Writes(e) && AttemptOf(c, s, e).None?
    ensures Step(c, s, e).node == s.node
  {
    hide Persist, Template, GenesisBlock, SignedTx;
  }

  lemma SmallWorkHolds(s: App)
    requires SmallWork(s)
    ensures s.done ==> s.mined.Some?
  {
  }

  // ---- What every run keeps about the chain in memory ----------------------

  function NoWork(n: nat): (r: seq<U32>)
    ensures |r| == n
  {
    seq(n, i => 0)
  }

  /** The chain in memory is well-formed, whatever work its blocks carry. */
  ghost predicate Wellformed(c: Crypto, blocks: seq<Block>) {
    Admitted(c, false, blocks, NoWork(|blocks|))
  }

  lemma WellformedAppend(c: Crypto, s: State, b: Block)
    requires Wellformed(c, s.blocks) && Validate(c, s, b) == ACCEPTED
    ensures Wellformed(c, s.blocks + [b])
  {
    hide Fits, Validate;
    AcceptedIff(c, s, b);
    AdmittedAppend(c, false, s.blocks, NoWork(|s.blocks|), b, 0);
    assert NoWork(|s.blocks|) + [0] == NoWork(|s.blocks + [b]|);
  }

  lemma {:induction false} WellformedReplay(c: Crypto, s: State, blocks: seq<Block>)
    requires Wellformed(c, s.blocks)
    ensures Wellformed(c, Replay(c, s, blocks).state.blocks)
    decreases |blocks|
  {
    hide Wellformed, Validate;
    if blocks != [] && Validate(c, s, blocks[0]) == ACCEPTED {
      WellformedAppend(c, s, blocks[0]);
      WellformedReplay(c, s.(blocks := s.blocks + [blocks[0]]), blocks[1..]);
    }
  }

  /** The chain in memory with the difficulties at which its blocks were accepted. */
  ghost predicate MemoryInv(c: Crypto, s: App) { Admitted(c, false, s.node.chain.blocks, s.bits) }

  lemma MemoryPersist(c: Crypto, s: App, b: Block, io: Write)
    requires MemoryInv(c, s)
    ensures MemoryInv(c, Persist(c, s, b, io))
  {
    hide Validate, BlockRecord, Fits, MeetsDifficulty, Admitted;
    if Validate(c, s.node.chain, b) == ACCEPTED {
      AcceptedIff(c, s.node.chain, b);
      AdmittedAppend(c, false, s.node.chain.blocks, s.bits, b, s.node.chain.config.difficultyBits);
    }
  }

  /** Difficulties carried over to the same blocks in the same places are still met. */
  lemma RememberedAdmitted(c: Crypto, blocks: seq<Block>, last: seq<Block>, bits: seq<U32>)
    requires Wellformed(c, blocks) && Admitted(c, false, last, bits)
    ensures Admitted(c, false, blocks, Remembered(blocks, last, bits))
  {
    hide Fits, MeetsDifficulty;
    var r := Remembered(blocks, last, bits);
    forall i | 0 <= i < |blocks|
      ensures Fits(c, blocks[..i], blocks[i]) && Worked(c, Config(r[i], false), i == 0, blocks[i])
    {
      if i < |last| && last[i] == blocks[i] {
        assert Worked(c, Config(bits[i], false), i == 0, last[i]);
      }
    }
  }

  lemma MemoryBoot(c: Crypto, s: App)
    requires MemoryInv(c, s)
    ensures MemoryInv(c, Boot(c, s.node.log, s.node.chain.blocks, s.bits))
  {
    hide Wellformed, Admitted, Replay, Load;
    EmptyIsWellformed(c);
    match Load(c, s.node.log) {
      case Blocks(bs) => WellformedReplay(c, State([], Config(0, false)), bs);
      case DecodeError =>
    }
    RememberedAdmitted(c, Restore(c, State([], Config(0, false)), s.node.log).state.blocks, s.node.chain.blocks, s.bits);
  }

  lemma MemoryStep(c: Crypto, s: App, e: Event)
    requires MemoryInv(c, s)
    ensures MemoryInv(c, Step(c, s, e))
  {
    hide Admitted, Persist, Boot, Template, GenesisBlock, SignedTx, WorkerStep;
    WorkerKeepsMain(c, s, e);
    EmptyMemory(c);
    match e
    case Genesis(time, io) =>
      MemoryPersist(c, s, GenesisBlock(c, Ascii(GENESIS_NOTE), time), io);
    case AppendSigned(pubPem, signature, time, io) =>
      var blocks := s.node.chain.blocks;
      if blocks != [] {
        MemoryPersist(c, s, Template(c, blocks, [SignedTx(Tip(blocks), pubPem, signature)], time), io);
      }
    case Consume(io) =>
      if s.done && s.mined.Some? {
        MemoryPersist(c, Tuned(s), s.mined.value, io);
      }
    case Restart => MemoryBoot(c, s);
    case _ =>
  }

  lemma EmptyIsWellformed(c: Crypto)
    ensures Wellformed(c, [])
  {
  }

  lemma EmptyMemory(c: Crypto)
    ensures Admitted(c, false, [], [])
  {
  }

  lemma {:induction false} MemoryRun(c: Crypto, start: App, es: seq<Event>)
    requires MemoryInv(c, start)
    ensures MemoryInv(c, RunAll(c, start, es))
    decreases |es|
  {
    hide MemoryInv, Step;
    if es != [] {
      MemoryRun(c, start, es[..|es| - 1]);
      MemoryStep(c, RunAll(c, start, es[..|es| - 1]), es[|es| - 1]);
    }
  }

  /** An installation that is not running, over arbitrary log bytes. */
  function Off(log: Bytes): App {
    App(Node(log, State([], Config(0, false))), 16, Down, false, false, false, None, NoThread, None, [])
  }

  /** In every run whatever, over whatever bytes the log holds at first and with writes lost or
      torn at will, the chain in memory satisfies the chain invariant, its work included: each
      block met the difficulty in force when it was accepted, across restarts. */
  lemma MemoryAlwaysValid(c: Crypto, log: Bytes, es: seq<Event>)
    ensures var s := RunAll(c, Off(log), es); ChainInvariant(c, false, s.node.chain.blocks, s.bits)
  {
    hide RunAll, ChainInvariant, Admitted;
    var s := RunAll(c, Off(log), es);
    EmptyMemory(c);
    MemoryRun(c, Off(log), es);
    AdmittedIffInvariant(c, false, s.node.chain.blocks, s.bits);
  }
}
