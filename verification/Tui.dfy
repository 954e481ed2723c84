/** src/cli/tui.cpp: the `App` object and its handlers, against the steps of `Session`. */
module Tui {
  import opened Primitives
  import opened Ledger
  import opened Pow
  import opened Store
  import opened ChainCore
  import opened Node
  import opened Session
  import Miner

  method MakeGenesisBlock(c: Crypto, note: Bytes, unixTime: U64) returns (b: Block)
    ensures b == GenesisBlock(c, note, unixTime)
  {
    var coinbase := Transaction(1, 0, 0, [], note, []);
    var root := ComputeMerkleRoot(c, [coinbase]);
    return Block(BlockHeader(1, ZERO_HASH, root, unixTime, 0), [coinbase]);
  }

  class Application {
    const crypto: Crypto
    var chain: Chain
    var store: BlockStore
    var ui: U32
    var main: Main
    var mining: bool
    var cancel: bool
    var done: bool
    var mined: Option<Block>
    var worker: Worker
    ghost var readTip: Option<Hash256>
    ghost var bits: seq<U32>

    ghost predicate Linked()
      reads this
    {
      chain.crypto == crypto && store.crypto == crypto
    }

    /** What every handler keeps: whatever the worker holds or has announced was built on the
        tip it read, for a transaction with a key. */
    ghost predicate Valid()
      reads this, chain, store
    {
      Linked() && (main == Down || WorkerInv(View()))
    }

    ghost function View(): App
      reads this, chain, store
    {
      App(Node(store.log, chain.View()), ui, main, mining, cancel, done, mined, worker, readTip, bits)
    }

    /** Start of the process: restore the chain from the log. The last two arguments only feed
        the history of difficulties. */
    constructor (crypto: Crypto, log: Bytes, ghost last: seq<Block>, ghost lastBits: seq<U32>)
      ensures Valid() && fresh(chain) && fresh(store)
      ensures this.crypto == crypto && View() == Boot(crypto, log, last, lastBits)
    {
      hide Restore;
      var s := new BlockStore(crypto, log);
      var ch := new Chain(crypto, Config(0, false));
      var threw := ch.RestoreFromStore(s);
      this.crypto, chain, store := crypto, ch, s;
      ui, main := 16, if threw then Down else Running;
      mining, cancel, done, mined, worker := false, false, false, None, NoThread;
      readTip, bits := None, Remembered(ch.blocks, last, lastBits);
    }

    method CommitBlock(b: Block, io: Write)
      requires Linked()
      modifies this, chain, store
      ensures Linked() && chain == old(chain) && store == old(store)
      ensures View() == Persist(crypto, old(View()), b, io)
    {
      hide AppendStored;
      ghost var d := chain.config.difficultyBits;
      var o := chain.AppendAndStore(b, store, io);
      if o.Threw? {
        main := Down;
      }
      bits := if o == ACCEPTED then bits + [d] else bits;
    }

    method DoGenesis(time: U64, io: Write)
      requires Valid() && main == Running
      modifies this, chain, store
      ensures Valid() && chain == old(chain) && store == old(store)
      ensures View() == MainStep(crypto, old(View()), Genesis(time, io))
    {
      hide Persist, GenesisBlock, WorkerInv;
      MainKeepsWorker(crypto, View(), Genesis(time, io));
      if chain.blocks != [] {
        return;
      }
      var b := MakeGenesisBlock(crypto, Ascii(GENESIS_NOTE), time);
      CommitBlock(b, io);
    }

    method DoAppendSigned(pubPem: Bytes, signature: Bytes, time: U64, io: Write)
      requires Valid() && main == Running
      modifies this, chain, store
      ensures Valid() && chain == old(chain) && store == old(store)
      ensures View() == MainStep(crypto, old(View()), AppendSigned(pubPem, signature, time, io))
    {
      hide Persist, Template, WorkerInv;
      MainKeepsWorker(crypto, View(), AppendSigned(pubPem, signature, time, io));
      if chain.blocks == [] {
        return;
      }
      var tip := chain.blocks[|chain.blocks| - 1];
      var nonce: U64 := 0;
      if tip.transactions != [] {
        nonce := tip.transactions[|tip.transactions| - 1].nonce;
      }
      var tx := Transaction(1, (1 + nonce) % TWO_64, 42, pubPem, Ascii(APPEND_LABEL), signature);
      var b := chain.BuildBlockFromTransactions([tx], time);
      CommitBlock(b, io);
    }

    method DoStartMining(pubPem: Bytes, signature: Bytes)
      requires Valid() && main == Running && pubPem != []
      modifies this
      ensures Valid() && chain == old(chain) && store == old(store)
      ensures View() == MainStep(crypto, old(View()), Start(pubPem, signature))
    {
      hide WorkerInv;
      MainKeepsWorker(crypto, View(), Start(pubPem, signature));
      if mining {
        return;
      }
      if chain.blocks == [] {
        return;
      }
      if worker != NoThread {
        // Move-assigning over a joinable std::thread calls std::terminate.
        main := Down;
        return;
      }
      cancel, done, mining := false, false, true;
      worker := Launched(Transaction(1, 1, 1, pubPem, Ascii(REWARD_LABEL), signature), ui);
    }

    /** Up to the join, or all of it when there is nothing to join. */
    method DoClearStore(opens: bool)
      requires Valid() && main == Running
      modifies this, store
      ensures Valid() && store == old(store) && (chain == old(chain) || fresh(chain))
      ensures View() == MainStep(crypto, old(View()), Clear(opens))
      ensures main == Running && opens ==> store.log == [] && chain.blocks == [] && chain.config == old(chain.config)
      ensures main != Running || !opens ==> store.log == old(store.log) && chain.View() == old(chain.View())
      ensures main == (if old(mining) && old(worker) != NoThread then JoiningToClear else Running)
    {
      hide WorkerInv;
      MainKeepsWorker(crypto, View(), Clear(opens));
      if mining {
        cancel := true;
        if worker != NoThread {
          main := JoiningToClear;
          return;
        }
        mining := false;
      }
      TruncateAndReset(opens);
    }

    /** The rest of the handler, once the worker has been joined. */
    method AfterJoin(opens: bool)
      requires Valid() && main == JoiningToClear && worker == Exited
      modifies this, store
      ensures Valid() && store == old(store) && (chain == old(chain) || fresh(chain))
      ensures View() == MainStep(crypto, old(View()), JoinedForClear(opens))
      ensures main == Running && !mining && worker == NoThread
      ensures opens ==> store.log == [] && chain.blocks == [] && chain.config == old(chain.config)
      ensures !opens ==> store.log == old(store.log) && chain.View() == old(chain.View())
    {
      hide WorkerInv;
      MainKeepsWorker(crypto, View(), JoinedForClear(opens));
      main, mining, worker := Running, false, NoThread;
      TruncateAndReset(opens);
    }

    method TruncateAndReset(opens: bool)
      requires Linked()
      modifies this, store
      ensures Linked() && store == old(store) && (chain == old(chain) || fresh(chain))
      ensures View() == Truncate(old(View()), opens) && main == old(main) && mining == old(mining) && worker == old(worker)
      ensures opens ==> store.log == [] && chain.View() == State([], old(chain.config))
      ensures !opens ==> store.log == old(store.log) && chain.View() == old(chain.View())
    {
      if !opens {
        return;
      }
      store.log := [];
      chain := new Chain(crypto, chain.config);
      bits := [];
    }

    /** The top of the main loop. A mined block goes in only onto the tip that its worker read,
        with the work of the selected difficulty, and never onto a cleared chain. */
    method DoConsume(io: Write)
      requires Valid() && main == Running
      modifies this, chain, store
      ensures Valid() && chain == old(chain) && store == old(store)
      ensures View() == MainStep(crypto, old(View()), Consume(io))
      ensures chain.blocks != old(chain.blocks) ==>
                && old(readTip) == TipHash(crypto, old(chain.blocks)) && old(readTip).Some? && old(mined).Some?
                && chain.blocks == old(chain.blocks) + [old(mined).value]
                && MeetsDifficulty(ui, HeaderHash(crypto, old(mined).value.header))
      ensures old(chain.blocks) == [] ==> store.log == old(store.log)
    {
      hide Persist, AppendStored, MeetsDifficulty, HeaderHash;
      MainKeepsWorker(crypto, View(), Consume(io));
      if !done {
        return;
      }
      ConsumeVerdict(crypto, View(), io);
      PersistOutcome(crypto, Tuned(View()), mined.value, io);
      var b := mined.value;
      done, mining := false, false;
      chain.SetDifficultyBits(ui);
      CommitBlock(b, io);
    }

    method DoQuit()
      requires Valid() && main == Running
      modifies this
      ensures Valid() && chain == old(chain) && store == old(store)
      ensures View() == MainStep(crypto, old(View()), Quit)
    {
      hide WorkerInv;
      MainKeepsWorker(crypto, View(), Quit);
      if mining {
        cancel := true;
      }
      main := if worker == NoThread then Down else JoiningToQuit;
    }

    /** `[` and `]`. */
    method DoTune(e: Event)
      requires Valid() && main == Running && (e == Easier || e == Harder)
      modifies this
      ensures Valid() && chain == old(chain) && store == old(store)
      ensures View() == MainStep(crypto, old(View()), e)
    {
      hide WorkerInv;
      MainKeepsWorker(crypto, View(), e);
      if e == Easier && ui > 0 {
        ui := ui - 1;
      } else if e == Harder && ui < 32 {
        ui := ui + 1;
      }
    }

    /** The worker's one look at the chain. */
    method BuildOnce(now: U64)
      requires Linked() && worker.Launched?
      modifies this
      ensures Linked() && chain == old(chain) && store == old(store)
      ensures View()
           == old(View()).(worker := AtWork(Template(crypto, chain.blocks, [old(worker).tx], now), old(worker).difficulty),
                           readTip := TipHash(crypto, chain.blocks))
    {
      hide Template;
      var built := chain.BuildBlockFromTransactions([worker.tx], now);
      worker := AtWork(built, worker.difficulty);
      readTip := TipHash(crypto, chain.blocks);
    }

    /** One step of the worker thread, if the worker is where it can take it. It touches neither
        chain nor log, and it never goes back. */
    method WorkerTurn(e: Event)
      requires Valid() && main != Down && IsWorkerEvent(e)
      modifies this
      ensures Valid() && chain == old(chain) && store == old(store)
      ensures View() == WorkerStep(crypto, old(View()), e)
      ensures Remaining(worker) < old(Remaining(worker)) || View() == old(View())
    {
      hide Template, WorkerInv, Miner.MinerResult, Remaining;
      WorkerKeepsWorker(crypto, View(), e);
      WorkerMovesOn(crypto, View(), e);
      match e
      case WorkerReads(now) =>
        if worker.Launched? {
          ReadsOnce(crypto, View(), now);
          BuildOnce(now);
        }
      case WorkerFinds(b) =>
        if worker.AtWork? && Miner.MinerResult(crypto, worker.built, worker.difficulty, b) {
          mined, worker := Some(b), Found;
        }
      case WorkerAnnounces =>
        if worker == Found {
          done, worker := true, Announced;
        }
      case WorkerSeesCancel =>
        if worker.AtWork? && cancel {
          worker := Cancelling;
        }
      case WorkerExits =>
        if worker == Announced || worker == Cancelling {
          mining, worker := false, Exited;
        }
    }

    /** Whatever happens next to a process, other than a new one. */
    method Dispatch(e: Event)
      requires Valid() && KeyPresent(e) && !(e.Restart? && main == Down)
      modifies this, chain, store
      ensures Valid() && store == old(store) && (chain == old(chain) || fresh(chain))
      ensures View() == Step(crypto, old(View()), e)
    {
      hide MainStep, WorkerStep, WorkerInv;
      Unmoved(crypto, View(), e);
      if IsWorkerEvent(e) {
        if main != Down {
          WorkerTurn(e);
        }
        return;
      }
      match e
      case Genesis(time, io) => if main == Running { DoGenesis(time, io); }
      case AppendSigned(pubPem, signature, time, io) =>
        if main == Running {
          DoAppendSigned(pubPem, signature, time, io);
        }
      case Start(pubPem, signature) => if main == Running { DoStartMining(pubPem, signature); }
      case Clear(opens) => if main == Running { DoClearStore(opens); }
      case JoinedForClear(opens) => if main == JoiningToClear && worker == Exited { AfterJoin(opens); }
      case Easier => if main == Running { DoTune(e); }
      case Harder => if main == Running { DoTune(e); }
      case Consume(io) => if main == Running { DoConsume(io); }
      case Quit => if main == Running { DoQuit(); }
      case JoinedForQuit => if main == JoiningToQuit && worker == Exited { main := Down; }
      case Killed => main := Down;
      case Restart =>
    }
  }

  lemma PersistOutcome(c: Crypto, s: App, b: Block, io: Write)
    ensures var t, o := Persist(c, s, b, io), AppendStored(c, s.node, b, io).outcome;
            && t.ui == s.ui
            && t.node.chain.blocks == (if o == ACCEPTED then s.node.chain.blocks + [b] else s.node.chain.blocks)
            && (o.Result? && !o.isValid && o.error != NoError ==> t.node.log == s.node.log)
  {
    hide Validate, BlockRecord;
  }

  /** Events that find the main thread elsewhere change nothing. */
  lemma Unmoved(c: Crypto, s: App, e: Event)
    ensures e.JoinedForClear? && !(s.main == JoiningToClear && s.worker == Exited) ==> MainStep(c, s, e) == s
    ensures e.JoinedForQuit? ==>
              MainStep(c, s, e) == if s.main == JoiningToQuit && s.worker == Exited then s.(main := Down) else s
    ensures e.Killed? ==> MainStep(c, s, e) == s.(main := Down)
    ensures e.Restart? && s.main != Down ==> MainStep(c, s, e) == s
    ensures s.main != Running && !e.JoinedForClear? && !e.JoinedForQuit? && !e.Killed? && !e.Restart? ==>
              MainStep(c, s, e) == s
  {
    hide Persist, Truncate, Boot;
  }

  /** The program over its life on one machine: the first process starts on the bytes that the
      log holds, any events follow, and each restart is a new process on the same log. What it
      ends with is what the state machine says; its chain satisfies the chain invariant; and
      from an empty log, with clean writes, the log decodes to the chain. */
  method RunProgram(c: Crypto, initial: Bytes, script: seq<Event>)
    returns (log: Bytes, blocks: seq<Block>, up: bool)
    requires forall i :: 0 <= i < |script| ==> KeyPresent(script[i])
    ensures var s := RunAll(c, Off(initial), [Restart] + script);
            && log == s.node.log && blocks == s.node.chain.blocks && up == (s.main != Down)
            && ChainInvariant(c, false, blocks, s.bits)
    ensures initial == [] && (forall i :: 0 <= i < |script| ==> Clean(script[i])) ==> Load(c, log) == Blocks(blocks)
  {
    hide RunAll, Step, Boot, WorkerInv, Load, ChainInvariant, Clean, KeyPresent;
    ghost var es := [Restart] + script;
    var app := new Application(c, initial, [], []);
    FirstProcess(c, initial);
    assert es[..1] == [Restart];
    for i := 0 to |script|
      invariant app.Valid() && app.crypto == c && fresh(app) && fresh(app.chain) && fresh(app.store)
      invariant app.View() == RunAll(c, Off(initial), es[..i + 1])
    {
      var e := script[i];
      assert es[..i + 2] == es[..i + 1] + [e];
      RunAllSnoc(c, Off(initial), es[..i + 1], e);
      if e.Restart? && app.main == Down {
        RestartBoots(c, app.View());
        app := new Application(c, app.store.log, app.chain.blocks, app.bits);
      } else {
        app.Dispatch(e);
      }
    }
    assert es[..|script| + 1] == es;
    MemoryAlwaysValid(c, initial, es);
    if initial == [] && forall i :: 0 <= i < |script| ==> Clean(script[i]) {
      RestartIsClean();
      InterleavingSafety(c, es);
    }
    return app.store.log, app.chain.blocks, app.main != Down;
  }

  lemma FirstProcess(c: Crypto, log: Bytes)
    ensures RunAll(c, Off(log), [Restart]) == Boot(c, log, [], [])
  {
    hide Boot, RunAll;
    RunAllEmpty(c, Off(log));
    RunAllSnoc(c, Off(log), [], Restart);
    assert [] + [Restart] == [Restart];
  }

  lemma RestartBoots(c: Crypto, s: App)
    requires s.main == Down
    ensures Step(c, s, Restart) == Boot(c, s.node.log, s.node.chain.blocks, s.bits)
  {
    hide Boot;
  }

  lemma RestartIsClean()
    ensures Clean(Restart)
  {
  }
}
