# Astro: a Dafny model

Astro is a small blockchain node: a Merkle tree over signed transactions, a byte codec, an
append-only log of checksummed records, a linear chain with validation and proof of work, a
miner, and a terminal interface in which a mining worker runs beside the main loop. This
project models those parts in Dafny and proves what they guarantee together.

`dafny verify dfyconfig.toml` checks the whole project.

## How the model is laid out

- `Primitives.dfy`: bytes, fixed-width integers, and the record `Crypto` of the two foreign
  services, SHA-256 and signature verification. They are parameters: every statement holds for
  every total function from byte strings to 32-byte strings and for every three-valued
  verification function (valid, invalid, throws). No collision resistance is assumed; where a
  claim depends on it, the alternative in the conclusion is two distinct strings with one digest,
  drawn from the finite sets of strings that the two computations in question hash.
- `Codec.dfy`, `Ledger.dfy`, `Decoder.dfy`: the writer and reader objects, transactions and
  blocks with their byte forms, and the decoder that drives the reader.
- `Merkle.dfy`: the level-by-level loops against a top-down tree.
- `Pow.dfy`: leading zero bits, on 8-bit words, as a numeric target.
- `Store.dfy`: the log, its loader, cut logs, arbitrary logs, torn logs.
- `ChainCore.dfy`: validation, runs, the chain invariant, replay.
- `Node.dfy`: the `Chain` object, chain and log together, restart.
- `Tamper.dfy`: what a tip hash commits to.
- `Miner.dfy`: the nonce search for every clock and cancellation trace.
- `Session.dfy`, `Handlers.dfy`, `Tui.dfy`: the interface as an interleaved state machine, what
  each key does from press to end, and the application object whose handlers are those steps.

Loops and objects of the original are methods and classes here; each is specified by a function
of its inputs or its old state, and the theorems are lemmas about those functions.

## Main results

1. `Tamper.TamperEvidence`: two chains built by any runs of accepted appends, with one tip hash,
   have equal heights and headers, and in each pair of blocks, whatever their counts, the same
   signed bytes up to the duplicates that the tree adds, or one list made of 64-byte signing
   strings only; otherwise two hashed strings collide or an inner header hashes to zeros.
2. `Session.InterleavingSafety`: over every clean run of handlers, worker steps, kills and
   restarts, the log decodes exactly to the in-memory chain, which satisfies the chain invariant.
3. `Session.StaleResults`: in every run whatever, exactly when a mined block is accepted: on the
   tip that its worker read and never on a cleared chain. `Session.MemoryAlwaysValid`: in
   every run whatever, over any log bytes and any torn writes, the chain in memory satisfies the
   chain invariant with the difficulty in force when each block was accepted, across restarts.
4. `ChainCore.ReachableIffInvariant`: the reachable chains are exactly the block sequences that
   satisfy the invariant.
5. `ChainCore.ReplayLongestPrefix`, `Node.RestartReplay`: what a restart restores, at any
   difficulty. `Session.CrashSafety`: after every clean run, a kill during any handler that
   writes, at any byte, and a restart find the chain with or without that handler's block.
6. `Merkle.ProofComplete`, `Merkle.ShortProofBinds`, `Merkle.LongProofBinds`: what proofs of any
   length prove. `Merkle.RootsAgreeAcrossHeights`, `Tamper.RootsAgreeIffStringsAgree`,
   `Tamper.RootsAgreeIffSignedSame`: which lists of any two lengths share a root.
7. `Ledger.BlockRoundTrip`: decoding inverts encoding if and only if counts and lengths fit.
8. `Miner.MineBlock` with `Miner.LeastNonceFound`, `Miner.MinedAcceptedIff`,
   `Pow.DifficultyIsATarget`. `ChainCore.ErrorReported`, `ChainCore.AcceptedIffAuthorised`: what
   validation answers, for every block, and what a signature is over.
9. Over every run: `Session.StartLaunchesIff`, exactly when a start launches a worker and when
   it ends the process; `Handlers.AnnouncedMeetsLaunch`, which work a result carries;
   `Handlers.ClearCompletes` and `Handlers.QuitEnds`, what a clear and a quit end in.
10. `Tui.RunProgram`: the application object, driven through any script of events and restarts,
    ends in the state of the state machine, so results 2 and 3 hold of what it leaves behind.

## Where promise and code differ

- `include/astro/core/chain.hpp:58` calls append-and-persist atomic. It is not when the stream
  fails, nor when an accepted block has a count or a length that does not fit in 32 bits:
  `Node.CommitDecodesIff` gives the exact condition under which log and chain agree after one
  commit. A record torn at any byte hides every record written behind it, except when the
  window that the loader takes across the tear hashes to the bytes behind it
  (`Store.TornRecordHidesLaterRecords`, if and only if). That exception is real: a block torn
  inside its checksum comes back exactly when the missing digest bytes are the bytes written next
  (`Store.TornChecksum`), and then the block written after it can be lost
  (`Store.TornBlockReturns`, with `Store.TornBlockReturnsExample`). The safety results therefore speak of clean writes.
- `include/astro/core/miner.hpp:11` promises a block that meets the chain's configured
  difficulty. The code uses its own parameter: every block it can return meets the chain's
  difficulty if and only if that is no higher than the parameter, or the parameter exceeds 256
  and nothing is ever returned (`Miner.PromisedDifficultyIff`, with `Miner.ShortfallExample`).
- A header does not commit to the number of transactions: every accepted block with an odd count
  stays acceptable under the same header hash with its last transaction repeated
  (`Tamper.RepeatedLastAccepted`). Nor are leaves told apart from inner nodes: a list of 64-byte
  signing strings can share its root with a longer list (`Tamper.InnerSizedExample`).
  `Tamper.RootsAgreeIffStringsAgree` is the exact condition for any two non-empty lists, and
  `Tamper.RootsAgreeIffSignedSame` for any two lists unless the one with the lower tree consists
  of 64-byte signing strings only.
- A Merkle proof is accepted for every inner node as for a leaf (`Merkle.InnerNodeVerifies`); a
  proof shows membership only together with its length (`Merkle.ShortProofBinds`,
  `Merkle.LongProofBinds`).
- A process cannot mine twice unless a clear joined the first worker while its mining flag was
  set. `Session.SecondStartEndsProcess` is a run in which one block is mined and appended and the
  next start ends the process, because the finished thread was never joined;
  `Session.StartLaunchesIff` says exactly when, with or without a consumed result.

## Model

| member | source | states |
|---|---|---|
| Codec.LeRoundTrip | include/astro/core/serializer.hpp:39-41 | reading the little-endian bytes of a number gives it back modulo 256^n |
| Codec.LeSurjective | include/astro/core/serializer.hpp:72-80 | every byte string is the encoding of the number it denotes |
| Codec.ReadLeWritten | include/astro/core/serializer.hpp:72-80 | a written integer reads back whatever follows it, and the reader stops at its end |
| Codec.ReadPrefixedCut | include/astro/core/serializer.hpp:26-33 | a length-prefixed string comes back cut to its length modulo 2^32, the rest staying unread |
| Codec.ReadPrefixedWritten | include/astro/core/serializer.hpp:53-59 | it comes back whole if and only if its length is below 2^32 |
| Codec.ByteWriter.WriteU8 | include/astro/core/serializer.hpp:18 | the buffer grows by that byte |
| Codec.ByteWriter.WriteU32 | include/astro/core/serializer.hpp:19 | the buffer grows by the four little-endian bytes |
| Codec.ByteWriter.WriteU64 | include/astro/core/serializer.hpp:20 | the buffer grows by the eight little-endian bytes |
| Codec.ByteWriter.WriteRaw | include/astro/core/serializer.hpp:22-24 | the buffer grows by the bytes, without a length |
| Codec.ByteWriter.WriteBytes | include/astro/core/serializer.hpp:26-29 | the buffer grows by the 32-bit length and the bytes |
| Codec.ByteWriter.WriteLeValue | include/astro/core/serializer.hpp:39-41 | the loop appends exactly the little-endian bytes of the value |
| Codec.ByteReader.ReadLeValue | include/astro/core/serializer.hpp:72-81 | the loop yields the value of the next bytes and advances past them, or fails when too few are left |
| Codec.ByteReader.ReadBytes | include/astro/core/serializer.hpp:53-67 | yields the prefixed string and advances past it, or fails when the length exceeds what is left |
| Ledger.SerializeTransaction | src/core/transaction.cpp:8-28 | writes the full bytes of a transaction, or for signing those of the transaction without its signature |
| Ledger.SigningRoundTrip | src/core/transaction.cpp:8-28 | the signing bytes decode to the transaction without its signature, whatever follows, if and only if key and label are shorter than 2^32 |
| Ledger.SigningIsAPrefix | src/core/transaction.cpp:20-26 | the signing bytes are the full bytes up to the signature's length, and then four zero bytes |
| Ledger.TxLayout | src/core/transaction.cpp:8-28 | the six constant bytes, and at which offsets version, nonce, amount and the prefixed fields stand |
| Ledger.HeaderLayout | src/core/block.cpp:10-21 | at which offsets of its 84 bytes the fields of a header stand |
| Ledger.BlockLayout | src/core/block.cpp:28-41 | header, count modulo 2^32 and transactions by offset |
| Ledger.ParseHeadByOffset | src/core/block_store.cpp:23-36 | from any bytes whatever the decoder ignores the first six, narrows the version to 16 bits and takes nonce and amount by offset, failing exactly below 26 bytes |
| Ledger.PaddedTxDecodes | src/core/block_store.cpp:147-148 | bytes left over inside a transaction's prefix are ignored |
| Ledger.SerializeHeader | src/core/block.cpp:10-21 | writes the header bytes |
| Ledger.SerializeBlock | src/core/block.cpp:28-41 | writes header, count and each prefixed transaction |
| Ledger.ComputeMerkleRoot | src/core/block.cpp:48-53 | the tree root over the transaction hashes |
| Ledger.TxRoundTrip | src/core/block_store.cpp:23-36 | a transaction decodes from its full bytes, whatever follows, if and only if its three variable fields are shorter than 2^32 |
| Ledger.SigningBytesInjective | src/core/transaction.cpp:8-28 | signing bytes determine every signed field and where they end, so none is a proper prefix of another |
| Ledger.ParsedFits | src/core/block_store.cpp:23-36 | whatever decodes has fields shorter than 2^32 |
| Ledger.ParseTxExtends | src/core/block_store.cpp:23-36 | more input never changes a transaction that already decoded |
| Ledger.CutTxIsTruncated | src/core/block_store.cpp:23-36 | no proper prefix of a full encoding decodes |
| Ledger.OneTxRoundTrip | src/core/block_store.cpp:147-148 | one prefixed transaction comes back if and only if its encoding is shorter than 2^32 |
| Ledger.TxsRoundTrip | src/core/block_store.cpp:146-150 | the transaction list comes back if and only if every encoding is shorter than 2^32 |
| Ledger.HeaderRoundTrip | src/core/block_store.cpp:135-139 | every header decodes from its bytes, whatever follows |
| Ledger.HeaderBytesInjective | src/core/block.cpp:10-21 | equal header bytes are equal headers |
| Ledger.BlockRoundTrip | src/core/block_store.cpp:132-150 | a block decodes to itself and to its exact end if and only if its count and every encoded transaction length fit in 32 bits |
| Decoder.DecodeTransaction | src/core/block_store.cpp:23-36 | the reader-driven decoder computes the decoding function, truncation included |
| Decoder.ReadHashBytes | src/core/block_store.cpp:136-137 | thirty-two single-byte reads take one hash or fail |
| Decoder.ReadTransactions | src/core/block_store.cpp:144-150 | the loop over the count reads exactly the listed transactions or fails at the first truncated one |
| Decoder.DecodeBlock | src/core/block_store.cpp:132-150 | decoding a payload through a moving reader computes the block decoding function |
| Merkle.ComputeNextLevel | src/core/merkle.cpp:31-38 | the inner loop yields the parents of a level, the last node doubled on odd levels |
| Merkle.TreeOfNextLevel | src/core/merkle.cpp:28-40 | one turn of the loop leaves the top-down tree unchanged |
| Merkle.InputsOfNextLevel | src/core/merkle.cpp:31-38 | the top-down tree hashes exactly the strings that the loops hash |
| Merkle.Root | src/core/merkle.cpp:17-42 | the loop computes the top-down tree of height max(1, ceil(log2 n)) split at 2^(h-1), and the empty digest for no leaves |
| Merkle.BuildProof | src/core/merkle.cpp:44-78 | the loop computes the authentication path of the index |
| Merkle.VerifyProof | src/core/merkle.cpp:80-111 | accepts exactly when folding the path from the leaf gives the root, with the single-leaf case |
| Merkle.ProofComplete | src/core/merkle.cpp:44-111 | the built proof of every leaf of every non-empty list verifies against its root |
| Merkle.ProofShape | src/core/merkle.cpp:52-63 | the proof has ceil(log2 n) steps and step k has its sibling on the left exactly when bit k of the index is 1 |
| Merkle.ProofBinds | src/core/merkle.cpp:80-111 | a verifying leaf at an index is the leaf at that index, or two strings hashed by verification and root collide |
| Merkle.ShortProofBinds | src/core/merkle.cpp:80-111 | a value accepted by a proof of any length up to the tree's height, the empty one included, is the node that its turns lead to on the level its length leaves room for, or two hashed strings collide |
| Merkle.LongProofBinds | src/core/merkle.cpp:80-111 | a value accepted by a longer proof folds, over the surplus steps, to the leaf that the other turns lead to, or two hashed strings collide |
| Merkle.InnerNodeVerifies | src/core/merkle.cpp:44-111 | every node of every level below the root is accepted as a leaf with the proof built on its level |
| Merkle.RootBinds | src/core/merkle.cpp:17-42 | equally long lists with equal roots are equal, or two hashed strings collide |
| Merkle.RootsAgreeAcrossHeights | src/core/merkle.cpp:17-42 | without collisions, trees of any two heights have one root if and only if the lower list, duplicates written out, is the inner level of the taller tree at its height |
| Merkle.RootsAgreeIffExpansionsAgree | src/core/merkle.cpp:17-42 | at one height and without collisions, roots agree if and only if the lists with duplicates written out agree |
| Merkle.OddDuplicateKeepsRoot | src/core/merkle.cpp:33 | repeating the last leaf of an odd list keeps the root |
| Pow.LeadingZeroBitsOneByte | src/core/pow.cpp:4-12 | the masks and shifts count the leading zeros of a byte |
| Pow.CountWord | src/core/pow.cpp:7-11 | the same on 8-bit words with their overflow |
| Pow.LeadingZeroBits | src/core/pow.cpp:14-22 | the early-exit loop counts the leading zero bits of a hash |
| Pow.ZerosAreATarget | src/core/pow.cpp:14-22 | for byte strings of any length, at least d zeros means a big-endian value below 2^(8n-d), and conversely |
| Pow.DifficultyIsATarget | include/astro/core/pow.hpp:8-10 | a hash meets difficulty d if and only if d is at most 256 and the hash is below 2^(256-d) |
| Store.BlockStore.AppendBlock | src/core/block_store.cpp:66-85 | the log grows by the part of the record that arrives, and failure is reported only when the stream noticed it before the flush |
| Store.BlockStore.ReadRecord | src/core/block_store.cpp:106-130 | one turn of stream reads takes a complete, intact record or stops |
| Store.BlockStore.LoadAllBlocks | src/core/block_store.cpp:99-155 | the load loop computes the loading function and ends, decode failure included |
| Store.ConstantsByValue | src/core/block_store.cpp:107-116 | comparing magic, version and kind as numbers is comparing the fourteen leading bytes |
| Store.RecordLayout | src/core/block_store.cpp:66-82 | a record byte by byte: its fourteen literal opening bytes, length, payload and digest |
| Store.LoadBehindRecords | src/core/block_store.cpp:106-153 | what loads behind whole records for arbitrary bytes: nothing unless they open with an intact record, a decode error if its payload is no block, else that block and what follows |
| Store.ScanWritten | src/core/block_store.cpp:106-152 | a written record is read back as its block, whatever follows |
| Store.LoadWritten | src/core/block_store.cpp:99-155 | whole records followed by anything load as those blocks and then the rest |
| Store.LogRoundTrip | src/core/block_store.cpp:66-155 | the log of a block sequence loads as that sequence |
| Store.LogReadsBackIff | src/core/block_store.cpp:66-155 | with payloads below 2^64 bytes a log loads as its blocks if and only if every block's counts and lengths fit in 32 bits |
| Store.CutRecordStops | src/core/block_store.cpp:107-125 | no proper prefix of a record is taken for a record |
| Store.CompleteRecordsIsMaximal | src/core/block_store.cpp:106-153 | the number of complete records is the largest whose bytes fit the cut |
| Store.CrashPrefix | src/core/block_store.cpp:99-155 | a well-formed log cut at any byte loads exactly its complete records |
| Store.CrashDuringAppend | src/core/block_store.cpp:66-85 | a crash at any byte of an append leaves the old or the new sequence readable |
| Store.LogMonotone | src/core/block_store.cpp:99-155 | for arbitrary bytes, extending a log never loses or changes loaded blocks and never repairs a failing one |
| Store.TornRecordHidesLaterRecords | src/core/block_store.cpp:106-130 | a record torn at any byte hides everything written behind it if and only if the window across the tear does not hash to the bytes behind it |
| Store.TornChecksum | src/core/block_store.cpp:121-130 | a block torn inside its checksum comes back if and only if the missing digest bytes are the first bytes behind the tear, and exactly what then loads |
| Store.TornBlockReturns | src/core/block_store.cpp:121-130 | with fewer than fourteen digest bytes missing and equal to the next record's first bytes, the torn block comes back and the later one is lost |
| Store.TornBlockReturnsExample | src/core/block_store.cpp:121-130 | for any storable blocks there is a hash function with which that happens when the last byte is missing |
| ChainCore.AcceptedIff | src/core/chain.cpp:26-82 | a block is accepted if and only if it links, is not older, places its coinbase, matches its root, verifies and carries the work |
| ChainCore.ErrorReported | src/core/chain.cpp:26-82 | for every block and state, the exact condition for each error, for acceptance and for an escaping exception |
| ChainCore.SignatureIndex | src/core/chain.cpp:62-69 | a signature error of the whole validation names the first transaction that is not valid |
| ChainCore.AcceptedIffAuthorised | src/core/transaction.cpp:41-44 | if exactly a given set of triples verifies, a block is accepted on a non-empty chain if and only if link, time, root and work are right and each transaction's key has signed its encoding with an empty signature |
| ChainCore.CoinbaseIndex | src/core/chain.cpp:34-54 | a coinbase error names the first transaction whose key is missing or present in the wrong place |
| ChainCore.SignatureVerdict | src/core/chain.cpp:62-69 | the reported index is the first transaction that does not verify, and an unreadable key there throws |
| ChainCore.GenesisAccepted | src/core/block.cpp:55-76 | the made genesis block is accepted by every empty chain unless it lacks enforced work |
| ChainCore.LessWorkSuffices | src/core/chain.cpp:71-80 | work at one difficulty is work at every lower one |
| ChainCore.RunAdmits | src/core/chain.cpp:84-89 | every run of appends and difficulty changes admits its blocks one by one at the difficulties then in force |
| ChainCore.AdmittedIffInvariant | src/core/chain.cpp:26-89 | block-by-block admission is the whole-chain invariant: links, pairwise timestamps, roots, coinbase, signatures, work |
| ChainCore.ReachableIffInvariant | src/core/chain.cpp:26-89 | a block sequence with its difficulties is reachable by some run if and only if it satisfies the invariant |
| ChainCore.RebuildWorks | src/core/chain.cpp:84-89 | setting each difficulty and appending each block rebuilds any admitted chain |
| ChainCore.ReplayLongestPrefix | src/core/chain.cpp:91-97 | replaying a reachable chain at any difficulty restores its longest prefix with that work, and all of it if and only if every block has it |
| ChainCore.ReplayAtLowerDifficulty | src/core/chain.cpp:91-97 | at a difficulty no higher than any in force at an append, replay restores everything |
| ChainCore.ReplayStopsAt | src/core/chain.cpp:91-97 | any blocks replayed onto any chain are taken up to the first that is not accepted there, and replay throws exactly when validating that one does |
| Node.IsZeroHash | src/core/chain.cpp:21-24 | true exactly for the all-zero hash |
| Node.Chain.constructor | src/core/chain.cpp:9 | an empty chain with the given configuration |
| Node.Chain.SetDifficultyBits | include/astro/core/chain.hpp:41 | changes the difficulty and nothing else |
| Node.Chain.BuildBlockFromTransactions | src/core/chain.cpp:111-122 | the block on the current tip with its root, the given time and nonce zero |
| Node.TemplateFits | src/core/chain.cpp:111-122 | a built block fits a non-empty chain if and only if it is not older than the tip and its transactions carry keys and verify |
| Node.Chain.ValidateBlock | src/core/chain.cpp:26-82 | the scans and early returns compute the validation function |
| Node.Chain.FindCoinbase | src/core/chain.cpp:38-54 | the first transaction without a key, or the length |
| Node.Chain.VerifyAll | src/core/chain.cpp:62-69 | the signature loop, with its skipped genesis coinbase and its exception |
| Node.Chain.AppendBlock | src/core/chain.cpp:84-89 | pushes exactly the accepted blocks and reports the verdict |
| Node.Chain.AppendAndStore | src/core/chain.cpp:99-109 | validates, writes, then pushes; a reported write failure leaves the chain unchanged |
| Node.Chain.RestoreFromStore | src/core/chain.cpp:91-97 | appends loaded blocks until the first rejection, letting exceptions escape |
| Node.CommitInStep | src/core/chain.cpp:99-109 | a clean commit keeps the log equal to the records of the chain |
| Node.CommitDecodesIff | src/core/chain.cpp:99-109 | after a commit of any accepted block with a payload below 2^64 bytes the log decodes to the chain if and only if failure was reported without the whole record, or success with it and the block's counts and lengths fit in 32 bits |
| Node.NodeRunInStep | src/core/chain.cpp:99-109 | every run of clean commits, rejected ones of any size included, and difficulty changes keeps log and chain in step |
| Node.RestartReplay | src/core/chain.cpp:91-109 | after such a run a fresh chain at no higher difficulty restores exactly the same blocks |
| Node.CrashRestart | src/core/chain.cpp:91-109 | after a crash at any byte of the last commit a restart restores the old or the new chain |
| Tamper.TransactionsBound | src/core/transaction.cpp:30-33 | equal Merkle roots over any two lists bind the signed bytes, equal ones if the lists are equally long, or two hashed strings collide |
| Tamper.BlocksBound | src/core/block.cpp:23-26 | equal header hashes mean equal headers and bound transactions, or a collision |
| Tamper.TamperEvidence | src/core/chain.cpp:26-89 | reachable chains with one tip hash agree, blocks of different counts included, or two hashed strings collide, or an inner header hashes to zeros |
| Tamper.SignedFieldsAgree | src/core/transaction.cpp:8-28 | equal signed bytes with key and label below 2^32 bytes are equal transactions up to the signature |
| Tamper.TransactionProof | src/core/merkle.cpp:80-111 | the proof built for a transaction is accepted for its signing bytes against its block's Merkle root |
| Tamper.RootIgnoresOddDuplicate | src/core/block.cpp:48-53 | repeating the last of an odd number of transactions keeps the Merkle root |
| Tamper.HeaderFitsOtherList | src/core/chain.cpp:43-82 | on a non-empty chain an accepted block's header is good for exactly the lists with its Merkle root whose transactions carry keys and verify |
| Tamper.RepeatedLastAccepted | src/core/chain.cpp:43-82 | a block accepted with an odd count is accepted under the same header hash with its last transaction repeated |
| Tamper.RootsAgreeIffStringsAgree | src/core/block.cpp:48-53 | without collisions, two non-empty lists of any lengths share a root if and only if the strings hashed at the height of the lower tree's leaves agree, duplicates written out |
| Tamper.LowerListIsInnerSized | src/core/block.cpp:48-53 | without collisions, a list that shares its root with one of a taller tree has only signing strings of 64 bytes |
| Tamper.RootsAgreeIffSignedSame | src/core/block.cpp:48-53 | without collisions, any two lists, empty ones included, of which the one with the lower tree has a signing string not 64 bytes long, share a root if and only if both are empty or their signing bytes agree in trees of one height, duplicates written out |
| Tamper.InnerSizedExample | src/core/block.cpp:48-53 | for every transaction with a signing string of 64 bytes, a hash function and four other transactions with the same root and no collision |
| Miner.MineBlock | src/core/miner.cpp:11-52 | for every clock, cancel trace and number of attempts: the first attempt that hits, or cancellation before any hit, or no hit yet |
| Miner.EndsUniquely | src/core/miner.cpp:24-51 | that outcome is unique |
| Miner.SearchOverHeaders | src/core/miner.cpp:24-51 | for every clock the returned block is the built one with nonce n modulo 2^64 and the timestamp of attempt n, meets the difficulty, and no earlier attempt's header did |
| Miner.LeastNonceFound | src/core/miner.cpp:24-51 | with a clock that stands still the returned header has the least nonce that meets the difficulty, and a search still under way has met none |
| Miner.MinedIsMinerResult | src/core/miner.cpp:24-32 | a returned block differs from the built one only in nonce and timestamp and meets the difficulty |
| Miner.TimestampIsMaxReading | src/core/miner.cpp:15-48 | a candidate carries the first reading until a later one exists, then the largest of the later readings, even below the first |
| Miner.TimestampNotBelow | src/core/miner.cpp:38-48 | a candidate's timestamp is never below the least reading that the search takes |
| Miner.MinedAcceptedIff | src/core/miner.cpp:11-52 | on the unchanged non-empty chain at any difficulty a mined block is accepted if and only if its transactions carry keys and verify, it is not older than the tip and it has the chain's work, which mining at no lower difficulty gives |
| Miner.ShortfallExample | include/astro/core/miner.hpp:11 | for every difficulty up to 256 and every higher one, a search whose returned block lacks the higher work |
| Miner.PromisedDifficultyIff | include/astro/core/miner.hpp:11 | every block that a search can return meets the chain's difficulty if and only if that is no higher than the search's, or the search's exceeds 256 |
| Miner.MinedIsAccepted | src/core/miner.cpp:11-52 | with such transactions and a clock not below the tip's timestamp every mined block is accepted |
| Session.WorkerInvariant | src/cli/tui.cpp:263-371 | in every run the worker reads a non-empty chain once and its result is built on the tip it read |
| Session.StaleResults | src/cli/tui.cpp:690-709 | in every run a mined block is accepted if and only if the chain is non-empty, its tip is the one read and not newer, the transaction verifies and the selected work is met; on another tip it is a bad link and on a cleared chain it is rejected, nothing changes and the program goes on; it is consumed once |
| Session.JoinMakesProgress | src/cli/tui.cpp:342-348 | while a handler joins the worker, the worker always has a step left and every step brings it closer to its exit |
| Session.StartLaunchesIff | src/cli/tui.cpp:263-305 | in every run a start with no search under way on a non-empty chain ends the process if and only if an earlier launch of that process has met no join, and launches a worker if and only if not; any other start changes nothing |
| Session.LaunchesAreSeparated | src/cli/tui.cpp:263-348 | in every run two launches in one process have a completed join for a clear between them |
| Session.ConsumedResultIsTheLast | src/cli/tui.cpp:263-305 | in every run, after a result is consumed whose worker was not joined, no later start of that process launches a worker, and on a non-empty chain it ends the process |
| Session.SecondStartEndsProcess | src/cli/tui.cpp:263-305 | a run from a new installation that mines and appends one block and then ends the process at the next start |
| Session.BootSound | src/cli/tui.cpp:656-661 | a restart after a clean run finds the same chain |
| Session.SafeRuns | src/cli/tui.cpp:678-741 | every clean step of either thread keeps log and chain in step and the chain admitted |
| Session.InterleavingSafety | src/cli/tui.cpp:678-741 | over every clean run the log decodes exactly to the in-memory chain and that chain satisfies the invariant |
| Session.MemoryAlwaysValid | src/cli/tui.cpp:656-741 | in every run whatever, over any initial log and with any lost or torn writes, the chain in memory satisfies the chain invariant, each block having the work in force when it was accepted |
| Session.CrashSafety | src/cli/tui.cpp:656-709 | after every clean run, any writing handler met by any write, a kill and a restart: the chain is the one before, or with the handler's block exactly when that was accepted and its whole record arrived |
| Handlers.GenesisEffect | src/cli/tui.cpp:213-232 | the genesis key puts in one literal block, to chain and log, if and only if the chain is empty and no write failure is reported |
| Handlers.AppendSignedEffect | src/cli/tui.cpp:234-254 | the append key puts in one transaction with the tip's last nonce plus one, amount 42 and its label, if and only if time, key, signature, work and write allow it; only an unreadable key ends the process |
| Handlers.ClearCompletes | src/cli/tui.cpp:342-371 | in every run a clear, with the join it needs, ends with the program running, not mining, and log and chain empty at the same configuration, or as they were if the log could not be opened |
| Handlers.ClearStartsOver | src/cli/tui.cpp:350-371 | after a clear a restart finds nothing and the next genesis goes into chain and log |
| Handlers.QuitEnds | src/cli/tui.cpp:740-744 | in every run a quit ends the process, at once or after the join, with chain and log as they were |
| Handlers.DifficultyKeys | src/cli/tui.cpp:719-720 | in every run any number of presses moves the selected difficulty by as much, within 0 and 32, and nothing else |
| Handlers.BootOutcome | src/core/chain.cpp:91-97 | a start over any log takes the loaded blocks up to the first not accepted at difficulty 0, and fails exactly when the log does not decode or validating that block throws |
| Handlers.HoldingIsOfLastLaunch | src/cli/tui.cpp:290-328 | in every run whatever a worker has in hand, and whatever result waits, is that of the last launch |
| Handlers.AnnouncedMeetsLaunch | src/cli/tui.cpp:290-328 | in every run an announced block holds the literal reward of the start that launched its worker and meets the difficulty selected then |
| Tui.MakeGenesisBlock | src/core/block.cpp:55-76 | the genesis block with one coinbase, zero link and its Merkle root |
| Tui.Application.constructor | src/cli/tui.cpp:656-661 | a new process holds what the log restores |
| Tui.Application.CommitBlock | src/cli/tui.cpp:221-231 | commits a block to chain and log; an escaping exception ends the process |
| Tui.Application.DoGenesis | src/cli/tui.cpp:213-232 | the genesis step, refused on a non-empty chain |
| Tui.Application.DoAppendSigned | src/cli/tui.cpp:234-254 | the append step with the next nonce, refused on an empty chain |
| Tui.Application.DoStartMining | src/cli/tui.cpp:263-334 | the start step with its flags and the fatal thread assignment; the launched worker finds a non-empty chain |
| Tui.Application.DoClearStore | src/cli/tui.cpp:342-371 | the clear step up to the join, or whole when nothing is joined |
| Tui.Application.AfterJoin | src/cli/tui.cpp:345-371 | the clear step after the join |
| Tui.Application.DoConsume | src/cli/tui.cpp:690-709 | the chain changes only by the announced block, on the tip its worker read, with the selected work; on an empty chain neither chain nor log changes |
| Tui.Application.DoQuit | src/cli/tui.cpp:336-340 | cancels a running search, then joins or ends, so that a joined worker always sees the cancellation |
| Tui.Application.WorkerTurn | src/cli/tui.cpp:317-332 | each turn of the worker keeps what is announced tied to the tip read, leaves chain and log alone and never goes back |
| Tui.Application.Dispatch | src/cli/tui.cpp:690-728 | every event, whatever the threads are doing, takes the object through exactly one step of the state machine and keeps the worker invariant |
| Tui.RunProgram | src/cli/tui.cpp:646-744 | any script of events and restarts over any initial log ends as the state machine says, with a chain that satisfies the invariant; from an empty log with clean writes the log decodes to that chain |

## Left out

- SHA-256, RIPEMD-160, ECDSA, PEM handling, key generation and `Transaction::sign`: foreign calls; keys and signatures enter as inputs, hashing and verification as the `Crypto` record.
- File descriptors, `fsync`, directory creation and stream buffering: a write is the part of a record that arrives, completed, noticed or unnoticed.
- Allocation failure on huge record lengths or counts: a length beyond the end of the log simply stops the loader.
- `|=` with shifts in the integer reader is modelled as a sum of disjoint bytes, and `>>` with a mask as division and remainder; the two agree on unsigned values.
- The progress callback of the miner, rates, drawing, key debounce, toasts and scrolling: they change neither chain nor log.
- Data races on the block vector: the worker's read of the chain is one atomic step.
- Session.InterleavingSafety: does not cover writes that arrive in part, because they break the property; `Node.CommitDecodesIff`, `Store.TornRecordHidesLaterRecords` and `Store.TornChecksum` say exactly when, and `Session.CrashSafety` covers a partial write as the last event.
- Tui.RunProgram: takes the order in which the two threads step from its script instead of running two threads.
- Hex formatting, `hash160`, `basic_block_sanity`, `block_at`, `tip_hash`, `empty_merkle_root` and the command-line demos: display helpers and accessors that change neither chain nor log.
