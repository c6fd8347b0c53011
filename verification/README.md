# Pruned blocks and v2 headers: a verified model

The repository patches two programs. The Electrum server electrs learns to run on a pruned node
and on a chain whose block headers change length (80 to 164 bytes) and hash (double SHA-256 to a
staged BLAKE2b) part way up. The wallet Sparrow learns to follow such a chain. Python tools beside
them carry the same algorithms on their own. This project models that logic in Dafny and proves
what it is for. `dafny verify dfyconfig.toml` checks all of it.

| module | what it models |
|---|---|
| `Headers` | the two header formats and runs that mix them |
| `Hashing`, `HashPaths`, `Commitment` | the staged block hash: its meaning, its three implementations (Rust, Python, Java), what it commits to |
| `Wire` | the p2p `headers` message, as the Python reader slices it and the server decodes it |
| `TxWalk` | the walk over a block's transactions, behind a header of either length |
| `Hex`, `Walk` | the wallet's count of undecoded hex headers and its decoding walk |
| `Responses` | the server's answer to a request for headers, and the wallet that reads it |
| `Store` | the wallet's file of fixed-width records, and recovery after damage |
| `ChainIndex` | the server's chain: truncate-and-append, reload from the database, the fork point |
| `Gate` | protocol version 1.8 as a state machine of one chain and many sessions |
| `Routing`, `RoutingProofs`, `HelperProofs` | the fetching of a batch of blocks on a pruned node, with the archival helper |
| `BlockContents` | what a header of either format commits to in its block, and so what a block with a given hash can be |
| `CeilingRace` | the helper's learned ceiling when callers interleave |
| `Retry` | the retry loop, its delays, budget and exit flag |
| `Merkle` | the transaction tree, its branches, and what its root binds |
| `WorkQueue` | the queue shared by workers that stop when their peer fails |
| `Crawl` | the layered crawl through peers on the fork |
| `Bytes`, `Bits` | little-endian integers, and exclusive-or and masking bit by bit |

How the model is set up:

- SHA-256 and BLAKE2b (unkeyed, 32-byte digest, section 2.5 of RFC 7693) are arbitrary functions to
  32 bytes; tagged hashes follow the "Tagged hashes" design of BIP 340. No injectivity is assumed:
  results about binding say "equal, or here are two inputs that collide".
- Bit tests are arithmetic: `version & 0x80000000` is a test of `version / 2^31 % 2`, `flags & 3` is
  `flags % 4`. XOR and AND on bytes are defined bit by bit and their laws proved.
- What a method changes step by step in the source is a method here, proved against a function;
  the properties are lemmas about that function. Objects that are updated (`Chain`, `Client`,
  `Daemon`, `HeaderStore`, the header iterator, the transaction visitor) are classes.
- The network, the helper, the clock and the exit flag are parameters that may answer anything,
  differently each time they are asked. What a retried `getblock` over RPC ends with is one outcome
  a hash, which is what lets routing with a helper be compared with routing without one.
- `Headers.AnyHeader.SelfDescribing` says that the stored version number has bit 31 clear. A version
  1 header with that bit set is not told from a version 2 header by `parse`; `ExactRoundTrip` covers
  it for database rows.

Some code is not shown in the patches. `Chain::update` is taken from its description
(DISCOVERY.md:745-749) and its uses; `check_between` is an inclusive range test; `Utils.hexToBytes`
refuses what is not an even number of hex digits; the end of `checkBlockHeaders`, `HeaderStore.rebuild`
and Sparrow's handling of a record that is no header follow their comments and tests: recovery keeps
what verifies. `bsl::scan_len` and rust-bitcoin's `VarInt` refuse a length that is not in its shortest
form; the Python reader does not.

Where the code falls short of what is said about it, the exact condition is proved:

- The comment on `block_from_helper` says the caller cannot tell a helper except by speed. Only the
  header of what a helper returns is checked, so the right header with anything behind it is delivered
  (`OnlyTheHeaderIsChecked`). For the helper there is, the deliveries are the same if and only if each
  reply that was taken is RPC's block (`ShowsExactly`). For all helpers that give blocks of some kind,
  they are the same if and only if, among blocks of that kind, the hash determines the block at every
  height where the helper may be asked (`TransparentExactly`). A helper that gives only blocks
  RPC serves too, each under its own hash, never shows (`SharedHistoryIsTransparent`). One that gives whole
  blocks, of either format, stays unseen if and only if each block taken carries as many transactions as
  RPC's, up to transactions that share an id and explicit hash collisions (`WholeBlocksShowExactly`). A v2
  header counts its transactions, so only a v1 block can fail that, and one can: the last of an odd number
  of transactions repeated makes another whole block of the same hash, and it is delivered
  (`RepeatedIsDelivered`).
- The ceiling never rises in a sequence of calls (`CeilingOnlyFalls`), but under concurrency a slow
  caller's swap can raise it (`CeilingCanRise`); it does so if and only if the latest
  swap came after the caller looked and is below the caller's height (`RisesExactly`), and never to the
  level that caller had seen (`RiseStaysBelowWhatWasRead`).
- `has_v2_headers` looks at the tip alone. That guards every client on exactly the chains whose tip is
  v2 or that hold no v2 header (`GuardsExactly`); the activation rule puts every chain among them.
- The work queue puts a failed hash back "for a healthy worker", which may have stopped already
  (`HealthyWorkerCanMissARetry`). Everything is answered if and only if the last worker to stop found
  the queue empty (`AllAnsweredExactly`).
- A Merkle root does not bind the number of leaves (`RootForgetsDuplicate`), so `RootBindsLeaves`
  compares lists of one length. A v2 header counts its transactions, so it binds them
  (`AsicInputCommitsToTransactions`).

## Model

| member | source | states |
|---|---|---|
| Headers.V1Decodes | patches/0003-headerv2-add-the-BLAKE2b-164-byte-header-type-and-it.patch:474-481 | an 80-byte header is read back field by field |
| Headers.V2Decodes | patches/0003-headerv2-add-the-BLAKE2b-164-byte-header-type-and-it.patch:271-324 | all sixteen fields survive the 164 bytes, the version without its flag bit |
| Headers.V2Encodes | patches/0003-headerv2-add-the-BLAKE2b-164-byte-header-type-and-it.patch:271-324 | any 164 bytes with bit 31 set are re-serialized to themselves |
| Headers.SerializeV2 | patches/0003-headerv2-add-the-BLAKE2b-164-byte-header-type-and-it.patch:304-324 | appending field after field gives the 80 shared bytes with the flag set, then the 84 others |
| Bytes.LittleEndian | patches/0003-headerv2-add-the-BLAKE2b-164-byte-header-type-and-it.patch:306-320 | integers are written least significant byte first at each width |
| Headers.LayoutOfV1 | patches/0003-headerv2-add-the-BLAKE2b-164-byte-header-type-and-it.patch:271-289 | the offset of each field the two formats share |
| Headers.LayoutOfV2 | patches/0003-headerv2-add-the-BLAKE2b-164-byte-header-type-and-it.patch:271-324 | the offset of each of the sixteen fields in the 164 bytes, bit 31 of the version set |
| Headers.V2IsByLength | patches/0003-headerv2-add-the-BLAKE2b-164-byte-header-type-and-it.patch:550-560 | a header is v2 exactly when it is 164 bytes on the wire, and 80 otherwise |
| Headers.ParseFront | patches/0003-headerv2-add-the-BLAKE2b-164-byte-header-type-and-it.patch:189-197 | whatever follows it, a header's length and fields are read from its own first bytes |
| Headers.ParseBack | patches/0003-headerv2-add-the-BLAKE2b-164-byte-header-type-and-it.patch:471-492 | whatever is accepted is the serialization of what is returned |
| Headers.ExactRoundTrip | patches/0004-headerv2-index-a-BLAKE2b-chain-end-to-end.patch:598-612 | a database row is read back by its length, also for a v1 header with bit 31 set |
| Headers.ParseAll | patches/0003-headerv2-add-the-BLAKE2b-164-byte-header-type-and-it.patch:494-513 | the loop returns what the recursive reading of the run returns, errors included |
| Headers.ParseAllExactly | patches/0003-headerv2-add-the-BLAKE2b-164-byte-header-type-and-it.patch:494-513 | a run is accepted with a list if and only if it is the concatenation of that list's serializations |
| Headers.CutRun | patches/0003-headerv2-add-the-BLAKE2b-164-byte-header-type-and-it.patch:499-513 | a prefix of a run is accepted if and only if the cut falls between two headers |
| Headers.RunsArePrefixFree | patches/0003-headerv2-add-the-BLAKE2b-164-byte-header-type-and-it.patch:494-513 | one run is a prefix of another only by whole headers |
| Hashing.MaskBits | patches/0003-headerv2-add-the-BLAKE2b-164-byte-header-type-and-it.patch:346-354 | clearing bytes and shifting clears exactly the leading bits asked for and keeps the rest |
| Hashing.LeadingBitsSurvive | patches/0003-headerv2-add-the-BLAKE2b-164-byte-header-type-and-it.patch:425-430 | those leading bits of the block hash are the second BLAKE2b digest's own |
| Hashing.NullKeyLeavesDigest | patches/0003-headerv2-add-the-BLAKE2b-164-byte-header-type-and-it.patch:346-347 | without an XOR key the block hash is the second BLAKE2b digest itself |
| Hashing.KeyReachesTheHash | patches/0003-headerv2-add-the-BLAKE2b-164-byte-header-type-and-it.patch:344-354 | with a key, each mask bit past the cleared ones is that of the key's tagged hash, and each hash bit is the sum modulo 2 of the mask's and the digest's |
| Hashing.LayoutOfFirstStage | patches/0003-headerv2-add-the-BLAKE2b-164-byte-header-type-and-it.patch:361-373 | what lies at which of the 119 bytes the first stage hashes |
| Hashing.LayoutOfStages | patches/0003-headerv2-add-the-BLAKE2b-164-byte-header-type-and-it.patch:374-388 | the tag of each stage in its own words, how each digest feeds the next, and the reversal into the block hash |
| Hashing.LayoutOfProfile0 | patches/0003-headerv2-add-the-BLAKE2b-164-byte-header-type-and-it.patch:395-403 | the 80 bytes the ASIC hashes: the hidden previous block, and the nonces with the offset third |
| Hashing.LayoutOfProfile1 | patches/0003-headerv2-add-the-BLAKE2b-164-byte-header-type-and-it.patch:404-411 | the 80 bytes of profile 1: the offset last, then both digests |
| Hashing.LayoutOfProfiles2And3 | patches/0003-headerv2-add-the-BLAKE2b-164-byte-header-type-and-it.patch:412-424 | the 128 and 160 bytes of the other two profiles |
| Hashing.V1HashIsDoubleSha | patches/0003-headerv2-add-the-BLAKE2b-164-byte-header-type-and-it.patch:522-527 | a v1 header's hash is SHA-256 twice over its 80 bytes |
| HashPaths.ClearLeadingBits | patches/0003-headerv2-add-the-BLAKE2b-164-byte-header-type-and-it.patch:349-353 | the in-place loop over the mask computes the masked digest |
| HashPaths.ComputeStages | patches/0003-headerv2-add-the-BLAKE2b-164-byte-header-type-and-it.patch:343-442 | the server's stages are the specified ones for all four profiles |
| HashPaths.GetHash | spikes/electrum-probe/headerv2_hash.py:44-125 | the Python stages over display-order fields are the same bytes |
| HashPaths.PythonReadsTheSameHeader | spikes/electrum-probe/headerv2_hash.py:128-151 | decoding to display order and deriving the time, then undoing both, is the server's parse, wrap-around included |
| HashPaths.SameTimeEverywhere | patches/0003-headerv2-add-the-BLAKE2b-164-byte-header-type-and-it.patch:259-265 | server, Python tool and wallet derive the same block time from the wire time and the offset |
| HashPaths.OffsetCountsByBitTwo | patches/0003-headerv2-add-the-BLAKE2b-164-byte-header-type-and-it.patch:182-183 | bit 2 of the flags, and no other, adds the offset modulo 2^32 |
| HashPaths.ChildShowsParent | spikes/electrum-probe/headerv2_hash.py:68-70 | a child shows, as its previous block, the hash its parent's stages end in |
| HashPaths.ComputeHashDisplayOrder | patches/sparrow/0001-Read-the-block-header-length-and-hash-a-v2-header-wi.patch:316-398 | the wallet's computation gives the same block hash in display order |
| HashPaths.JavaHash | patches/sparrow/0001-Read-the-block-header-length-and-hash-a-v2-header-wi.patch:109-119 | the wallet and the server hash a header of either version to the same digest |
| HashPaths.JavaChildNamesParent | patches/sparrow/0001-Read-the-block-header-length-and-hash-a-v2-header-wi.patch:109-119 | the wallet's child holds, as its previous block, what hashing its parent returns |
| HashPaths.JavaSerialize | patches/sparrow/0001-Read-the-block-header-length-and-hash-a-v2-header-wi.patch:132-144 | the wallet writes the bytes the server writes |
| HashPaths.JavaReadsTheSameHeader | patches/sparrow/0001-Read-the-block-header-length-and-hash-a-v2-header-wi.patch:67-87 | reading at an offset agrees with the server's parse of the rest, in acceptance and in every field |
| Commitment.AsicInputCommitsToHeader | patches/0003-headerv2-add-the-BLAKE2b-164-byte-header-type-and-it.patch:343-425 | equal mining input under one profile means equal in all sixteen fields, or an explicit collision of one stage |
| Commitment.BlockHashCommitsToHeader | patches/0003-headerv2-add-the-BLAKE2b-164-byte-header-type-and-it.patch:333-442 | with one mask, equal block hashes mean equal headers or an explicit collision, across profiles too |
| BlockContents.AsicInputCommitsToTransactions | patches/0003-headerv2-add-the-BLAKE2b-164-byte-header-type-and-it.patch:361-374 | with as many transactions as each header counts, equal mining input means equal transaction ids in order, or an explicit collision |
| Wire.VarIntReads | spikes/blake2b-testnet4/fetch_fork_headers.py:44-62 | a length in any of its four widths is read back, with the offset after it |
| Wire.VarIntBytes | spikes/blake2b-testnet4/fetch_fork_headers.py:44-51 | the marker and the width of a length, by its range |
| Wire.SplitHeaders | spikes/blake2b-testnet4/fetch_fork_headers.py:115-132 | the loop's slices, or its error, as the recursive reading of the payload gives them |
| Wire.SplitReadsFrame | spikes/blake2b-testnet4/fetch_fork_headers.py:109-132 | on the framing of any list of headers the slices are their serializations, in order |
| Wire.EntriesAreHeaders | spikes/blake2b-testnet4/fetch_fork_headers.py:115-132 | on any payload, every slice returned is one whole header |
| Wire.ReadHeadersMessage | patches/0004-headerv2-index-a-BLAKE2b-chain-end-to-end.patch:959-981 | the decoding loop against its recursive specification |
| Wire.DecodeExactly | patches/0004-headerv2-index-a-BLAKE2b-chain-end-to-end.patch:959-981 | a payload decodes to a list if and only if it is that list's framing and what follows |
| Wire.ReadersAgree | spikes/blake2b-testnet4/fetch_fork_headers.py:115-132 | the server decodes a payload into headers if and only if the Python reader slices it into their bytes and its lengths are in shortest form |
| TxWalk.VisitBlockTxs | patches/0004-headerv2-index-a-BLAKE2b-chain-end-to-end.patch:511-536 | everything the walk does to its visitor, and how it ends |
| TxWalk.VisitsInOrder | patches/0004-headerv2-index-a-BLAKE2b-chain-end-to-end.patch:511-536 | behind a header of either version: the count, then those transactions in order up to the one the visitor breaks at |
| TxWalk.WalksExactly | patches/0004-headerv2-index-a-BLAKE2b-chain-end-to-end.patch:518-536 | the walk succeeds with a list of transactions if and only if they are what follows the header and the visitor never breaks |
| TxWalk.BreakSeesPrefix | patches/0004-headerv2-index-a-BLAKE2b-chain-end-to-end.patch:529-534 | on any bytes, a visitor that breaks has seen exactly the transactions up to there, and one that does not, all |
| TxWalk.VisitFixed | patches/0004-headerv2-index-a-BLAKE2b-chain-end-to-end.patch:697-704 | the library's own loop, 80 bytes and then what remains a transaction at a time, treats its visitor on a v1 block as the server's walk does, on good blocks and bad |
| TxWalk.FixedLosesV2 | patches/0004-headerv2-index-a-BLAKE2b-chain-end-to-end.patch:715-768 | on a v2 block the fixed walk reads the second nonce as the count: with a zero low byte it reports an empty block without an error |
| TxWalk.Lookup | patches/0004-headerv2-index-a-BLAKE2b-chain-end-to-end.patch:1262-1277 | the lookup returns the first transaction of the block with the id wanted, or nothing if there is none |
| Walk.CountHex | patches/sparrow/0002-Follow-a-chain-whose-block-headers-are-not-all-80-by.patch:443-465 | the loop over the hex returns the recursive count, -1 included |
| Walk.Split | patches/sparrow/0002-Follow-a-chain-whose-block-headers-are-not-all-80-by.patch:506-530 | the decoding loop returns the recursive split, errors included |
| Walk.CountAgreesWithSplit | patches/sparrow/0002-Follow-a-chain-whose-block-headers-are-not-all-80-by.patch:443-530 | counting without decoding gives n if and only if splitting the bytes into n headers succeeds |
| Walk.SplitExactly | patches/sparrow/0002-Follow-a-chain-whose-block-headers-are-not-all-80-by.patch:497-530 | splitting gives a list if and only if the bytes are its concatenation and the network carries it |
| Walk.CountCarried | patches/sparrow/0002-Follow-a-chain-whose-block-headers-are-not-all-80-by.patch:424-437 | exactly one form must be present, and every list element must be one header |
| Walk.ParseChunk | patches/sparrow/0002-Follow-a-chain-whose-block-headers-are-not-all-80-by.patch:479-495 | both forms of a response, decoded, or the refusal |
| Walk.CheckedChunkParses | patches/sparrow/0002-Follow-a-chain-whose-block-headers-are-not-all-80-by.patch:184-209 | a response of hex that passes the check always parses, into the number of headers it reports |
| Responses.ConcatenatedIsRead | patches/0004-headerv2-index-a-BLAKE2b-chain-end-to-end.patch:458-467 | on a network that carries them, any run of headers in one string passes the wallet's check and parses to the same headers |
| Responses.ListIsRead | patches/sparrow/0002-Follow-a-chain-whose-block-headers-are-not-all-80-by.patch:483-494 | the same for the list form |
| Responses.ServedHeadersAreRead | patches/0006-electrum-protocol-1.8-on-a-chain-with-v2-headers.patch:167-176 | whenever the gate answers a request for headers, the wallet reads, in either form, the chain's header at each height from the start, as many as there are |
| Responses.CheckExactly | patches/sparrow/0002-Follow-a-chain-whose-block-headers-are-not-all-80-by.patch:184-209 | a response in hex passes if and only if it carries as many headers as it reports, in one form, its limit is at least 2016, they are no more than asked for, and fewer only if they reach the tip |
| Responses.V2RefusedElsewhere | patches/sparrow/0002-Follow-a-chain-whose-block-headers-are-not-all-80-by.patch:394-411 | on the other networks a run with a v2 header is counted as -1, and split fails for every count |
| Store.WalkTo | patches/sparrow/0002-Follow-a-chain-whose-block-headers-are-not-all-80-by.patch:281-297 | the loop over the file keeps what the recursive walk keeps |
| Store.AcceptedIsLongest | patches/sparrow/0002-Follow-a-chain-whose-block-headers-are-not-all-80-by.patch:253-266 | what is accepted is the longest prefix each of whose headers is added to the state before it; the next is refused |
| Store.WalkedIsLongest | patches/sparrow/0002-Follow-a-chain-whose-block-headers-are-not-all-80-by.patch:269-297 | for any file: whole records that verify from the pin are kept, and the next one is missing, no header, or refused |
| Store.RecordsHold | patches/sparrow/0002-Follow-a-chain-whose-block-headers-are-not-all-80-by.patch:532-551 | padded records read back as the headers they were written from |
| Store.RecordIsPadded | patches/sparrow/0002-Follow-a-chain-whose-block-headers-are-not-all-80-by.patch:532-551 | a record is the header's own bytes, then zeros |
| Store.RecordLengthFits | patches/sparrow/0002-Follow-a-chain-whose-block-headers-are-not-all-80-by.patch:362-392 | a record is as long as the longest header the network carries |
| Store.HoldsAt | patches/sparrow/0002-Follow-a-chain-whose-block-headers-are-not-all-80-by.patch:299-317 | the record found by multiplying the height holds that height's header |
| Store.DamageKeepsWhatIsBelow | patches/sparrow/0002-Follow-a-chain-whose-block-headers-are-not-all-80-by.patch:947-965 | a refused or torn record costs itself and what is above it, nothing below; an undamaged file reloads to the same headers |
| Store.KilledWhileAppending | patches/sparrow/0002-Follow-a-chain-whose-block-headers-are-not-all-80-by.patch:934-944 | cut anywhere while appending, the file reloads to everything before and a whole number of the new headers |
| Store.HeaderStore.constructor | patches/sparrow/0002-Follow-a-chain-whose-block-headers-are-not-all-80-by.patch:247-278 | a load keeps exactly the walked prefix and leaves a file of stride times count bytes |
| Store.HeaderStore.Append | patches/sparrow/0002-Follow-a-chain-whose-block-headers-are-not-all-80-by.patch:253-266 | exactly the verifying prefix of the batch is added to file and chain; should one of them not fit a record, the throw leaves the file behind the chain |
| Store.HeaderStore.GetHeader | patches/sparrow/0002-Follow-a-chain-whose-block-headers-are-not-all-80-by.patch:299-317 | every height returns its header, and no other height returns any |
| Store.ReloadIsSame | patches/sparrow/0002-Follow-a-chain-whose-block-headers-are-not-all-80-by.patch:938-943 | the file of any valid store, so after any appends that did not throw, loads to the same headers and state |
| Store.Reload | patches/sparrow/0002-Follow-a-chain-whose-block-headers-are-not-all-80-by.patch:966-973 | a reloaded store has the same file, and the same header at every height |
| Store.ParsedHeadersFit | patches/sparrow/0002-Follow-a-chain-whose-block-headers-are-not-all-80-by.patch:479-551 | headers parsed from a response always fit the network's records, so appending them never throws |
| ChainIndex.HeaderIterator.Next | patches/0004-headerv2-index-a-BLAKE2b-chain-end-to-end.patch:388-412 | rows of either header size are yielded in order, other keys skipped |
| ChainIndex.HeaderKeysExactly | patches/0004-headerv2-index-a-BLAKE2b-chain-end-to-end.patch:400-403 | the rows are the keys of 80 or 164 bytes, each as often as it is there, and no others |
| ChainIndex.ChainHasNoRepeats | patches/0004-headerv2-index-a-BLAKE2b-chain-end-to-end.patch:162-170 | a chain of links that does not meet the genesis again repeats no header, so following it terminates |
| ChainIndex.FollowLinks | patches/0004-headerv2-index-a-BLAKE2b-chain-end-to-end.patch:156-170 | from headers in any order, stale ones among them, exactly the chain below the tip is found, or the missing header is |
| ChainIndex.Chain.Update | DISCOVERY.md:745-747 | truncating and appending keeps `heights` inverse to `headers` |
| ChainIndex.Chain.DropLastHeaders | patches/0004-headerv2-index-a-BLAKE2b-chain-end-to-end.patch:141-149 | exactly the prefix up to height - n, or the genesis alone, is kept |
| ChainIndex.Chain.Load | patches/0004-headerv2-index-a-BLAKE2b-chain-end-to-end.patch:151-176 | the rebuilt chain is the genesis and the linked headers in height order |
| ChainIndex.Reopen | patches/0004-headerv2-index-a-BLAKE2b-chain-end-to-end.patch:841-849 | scanning, decoding, linking and unwinding a database gives exactly the prefix of the active chain |
| ChainIndex.ForkPoint | patches/0006-electrum-protocol-1.8-on-a-chain-with-v2-headers.patch:400-419 | on any chain: nothing if and only if the tip is v1, else a v2 height with v1 just below or the genesis |
| ChainIndex.ForkHeightIsFirst | patches/0006-electrum-protocol-1.8-on-a-chain-with-v2-headers.patch:396-399 | when v2 is a suffix, that height is the first v2 height and the only candidate |
| Gate.Rpc.ServeVersion | patches/0006-electrum-protocol-1.8-on-a-chain-with-v2-headers.patch:203-237 | a range is accepted or refused by the chain's version, and only acceptance is recorded |
| Gate.Rpc.HeadersSubscribe | patches/0006-electrum-protocol-1.8-on-a-chain-with-v2-headers.patch:147-154 | the session's tip and the reply, or a refusal that changes nothing |
| Gate.Rpc.ServeBlockHeader | patches/0006-electrum-protocol-1.8-on-a-chain-with-v2-headers.patch:157-164 | the header, no header, or a refusal |
| Gate.Rpc.ServeBlockHeaders | patches/0006-electrum-protocol-1.8-on-a-chain-with-v2-headers.patch:167-176 | the available headers of the range, at most 2016, or a refusal |
| Gate.Rpc.UpdateClient | patches/0006-electrum-protocol-1.8-on-a-chain-with-v2-headers.patch:132-145 | a changed tip is sent or the client refused, an unchanged one is not |
| Gate.HandshakeExactly | patches/0006-electrum-protocol-1.8-on-a-chain-with-v2-headers.patch:203-237 | a range is accepted exactly when it holds 1.8 under a v2 tip, 1.4 under any other, and that version is recorded |
| Gate.OneVersionOffered | patches/0006-electrum-protocol-1.8-on-a-chain-with-v2-headers.patch:334-353 | 1.4 alone is accepted exactly while the tip is v1, 1.8 alone exactly while it is v2 |
| Gate.AcceptedIsServed | patches/0006-electrum-protocol-1.8-on-a-chain-with-v2-headers.patch:355-374 | whoever was accepted on a chain is refused no header of it |
| Gate.HeadersAreTheChains | patches/0006-electrum-protocol-1.8-on-a-chain-with-v2-headers.patch:147-176 | subscribe, header and headers send the chain's own header of the height, or each refuse |
| Gate.RangeIs | patches/0006-electrum-protocol-1.8-on-a-chain-with-v2-headers.patch:167-176 | how many headers an answer has, and that the i-th is the one at start + i |
| Gate.RequestsJoin | patches/0006-electrum-protocol-1.8-on-a-chain-with-v2-headers.patch:167-176 | consecutive requests join into one |
| Gate.ServedHeadersLink | patches/0004-headerv2-index-a-BLAKE2b-chain-end-to-end.patch:458-467 | on a linked chain each header of an answer names the hash of the one before it, the first that of the header below its start |
| Gate.GuardsExactly | patches/0006-electrum-protocol-1.8-on-a-chain-with-v2-headers.patch:96-101 | testing the tip protects every session if and only if the tip is v2 or no header is |
| Gate.NoneRefusedNeedlessly | patches/0006-electrum-protocol-1.8-on-a-chain-with-v2-headers.patch:355-374 | a refusal means a v2 tip and a session that is not at 1.8 |
| Gate.ChainKeepsItsActivation | patches/0006-electrum-protocol-1.8-on-a-chain-with-v2-headers.patch:88-95 | growth and reorgs, below the activation and back, keep v1 below it and v2 from it |
| Gate.ConnectBlocks | DISCOVERY.md:745-747 | the run's step for new blocks leaves the chain that `update` leaves |
| Gate.NegotiatedWasAccepted | patches/0006-electrum-protocol-1.8-on-a-chain-with-v2-headers.patch:233-237 | in every run, a session's version lies in the last range it sent that was accepted |
| Gate.RefusedExactly | patches/0006-electrum-protocol-1.8-on-a-chain-with-v2-headers.patch:355-374 | in every run, a request for headers is refused if and only if the tip is v2 and was not when the client's last handshake was accepted, if any was |
| Gate.OneVersionInRuns | patches/0006-electrum-protocol-1.8-on-a-chain-with-v2-headers.patch:334-353 | in every run, 1.4 alone is accepted exactly below the activation height, 1.8 alone exactly from it |
| Gate.V2OnlyToAcceptedClients | patches/0006-electrum-protocol-1.8-on-a-chain-with-v2-headers.patch:355-374 | in every run of blocks, reorgs and requests of any clients, a v2 header goes only to a client whose last accepted range contains 1.8 |
| Gate.RefusalChangesNothing | patches/0006-electrum-protocol-1.8-on-a-chain-with-v2-headers.patch:233-235 | a refused request leaves what was negotiated as it was |
| Gate.NotifiedOfEveryNewTip | patches/0006-electrum-protocol-1.8-on-a-chain-with-v2-headers.patch:132-154 | in every run, a subscribed client is notified exactly when the tip is not the last one it was sent, or refused when it may not have it |
| Routing.Daemon.BlockFromHelper | patches/0008-daemon-read-pruned-blocks-from-an-archival-node-when.patch:282-330 | the call, the check and the swap; what is returned has the hash, and the ceiling moves to the height exactly on "not found" |
| Routing.Daemon.P2pForBlocks | patches/0004-headerv2-index-a-BLAKE2b-chain-end-to-end.patch:928-948 | one request, then a reply a position, each checked against its hash |
| Routing.Daemon.PrunedForBlocks | patches/0008-daemon-read-pruned-blocks-from-an-archival-node-when.patch:257-269 | each block of a pruned run from the helper, or over RPC |
| Routing.Daemon.ForBlocksWith | patches/0002-daemon-retry-pruned-block-RPCs-with-separate-budgets.patch:181-223 | the nested loops compute the walk by runs, from any state of the daemon |
| RoutingProofs.RunsRefineEach | patches/0001-daemon-route-blocks-below-bitcoind-s-prune-height-to.patch:121-148 | batching into runs succeeds when block-by-block fetching does, with the same deliveries, ceiling and single requests |
| RoutingProofs.DeliversInOrder | patches/0001-daemon-route-blocks-below-bitcoind-s-prune-height-to.patch:114-150 | on success the function is called once per requested hash in order, on failure on a proper prefix |
| RoutingProofs.BatchIsRight | patches/0004-headerv2-index-a-BLAKE2b-chain-end-to-end.patch:928-948 | each block delivered is the one asked for: the connection's reply at its position, with that header hash, where the node holds it, RPC's or the helper's elsewhere; the batch fails exactly at a position that cannot be delivered, as when the reply is another block |
| RoutingProofs.UnprunedBatchIsRight | patches/0001-daemon-route-blocks-below-bitcoind-s-prune-height-to.patch:99-101 | on a node that is not pruned everything is the connection's reply at its position, with the right header hash, up to the first that is not |
| RoutingProofs.AsksRespectPruneHeight | patches/0001-daemon-route-blocks-below-bitcoind-s-prune-height-to.patch:103-113 | p2p is asked only at or above the prune height, the helper and RPC only below it |
| RoutingProofs.RunsExactly | patches/0001-daemon-route-blocks-below-bitcoind-s-prune-height-to.patch:125-132 | the runs are the one maximal partition of the batch |
| RoutingProofs.AscendingMakesTwoRuns | patches/0001-daemon-route-blocks-below-bitcoind-s-prune-height-to.patch:121-124 | ascending heights make at most two runs, the pruned one first |
| RoutingProofs.OneRequestPerLocalRun | patches/0001-daemon-route-blocks-below-bitcoind-s-prune-height-to.patch:132-134 | a successful batch makes one p2p request for each run of held blocks |
| HelperProofs.OneReply | patches/0008-daemon-read-pruned-blocks-from-an-archival-node-when.patch:282-330 | only bytes whose header has the hash are taken; only "not found" moves the ceiling, and only down; the helper is asked once, and only below the ceiling |
| HelperProofs.HelperNeverHurts | patches/0008-daemon-read-pruned-blocks-from-an-archival-node-when.patch:272-282 | whatever the helper answers, a batch that succeeds without it succeeds with it, same hashes in the same order |
| HelperProofs.HelperIsTransparent | patches/0008-daemon-read-pruned-blocks-from-an-archival-node-when.patch:272-330 | whatever else the helper answers, if what it gives under a requested hash is RPC's block, the deliveries are identical |
| HelperProofs.MirrorIsHonestAndUsed | patches/0008-daemon-read-pruned-blocks-from-an-archival-node-when.patch:288-291 | a helper with the node's own blocks satisfies that, and it is the one that supplies them |
| HelperProofs.ShowsExactly | patches/0008-daemon-read-pruned-blocks-from-an-archival-node-when.patch:274-281 | with any helper, the deliveries are identical if and only if every reply that was taken is RPC's block |
| HelperProofs.TransparentExactly | patches/0008-daemon-read-pruned-blocks-from-an-archival-node-when.patch:274-281 | for any kind of block, no helper that gives only those shows if and only if the hash determines the block among them |
| HelperProofs.SharedHistoryIsTransparent | patches/0008-daemon-read-pruned-blocks-from-an-archival-node-when.patch:183-185 | a helper that gives only blocks RPC serves too, each under its own hash, shows in no batch, for whatever hashes and heights |
| BlockContents.BlockHashBindsHeader | patches/0003-headerv2-add-the-BLAKE2b-164-byte-header-type-and-it.patch:522-527 | two headers of either format with one block hash, under one mask if both are v2, are equal or name the hash inputs that collide |
| BlockContents.HashDeterminesBlock | patches/0008-daemon-read-pruned-blocks-from-an-archival-node-when.patch:277-281 | two whole blocks of either format that pass the helper's check for one hash are the same bytes if and only if they carry one count, or differ in transactions of one id, or some hash collides; under a v2 header the count is the same |
| BlockContents.WholeBlocksShowExactly | patches/0008-daemon-read-pruned-blocks-from-an-archival-node-when.patch:277-291 | when what is taken from the helper are whole blocks, the deliveries are identical if and only if each carries as many transactions as RPC's, or some pair differs in transactions of one id, or some hash collides; only a v1 block can carry another count |
| BlockContents.RepeatedIsBlock | spikes/electrum-probe/verify_cp_height.py:55-60 | behind a v1 header, an odd number of transactions with the last repeated and counted is another whole block |
| BlockContents.RepeatedIsDelivered | patches/0008-daemon-read-pruned-blocks-from-an-archival-node-when.patch:288-291 | a helper that gives that block has it delivered where RPC would deliver the other |
| HelperProofs.OnlyTheHeaderIsChecked | patches/0008-daemon-read-pruned-blocks-from-an-archival-node-when.patch:289-291 | the right header with any bytes at all behind it is delivered |
| HelperProofs.CeilingOverABatch | patches/0008-daemon-read-pruned-blocks-from-an-archival-node-when.patch:187-196 | over a batch the ceiling only falls, each "not found" strictly; ascending requests cause at most one, at a height of the batch |
| HelperProofs.CeilingOverAllBatches | patches/0008-daemon-read-pruned-blocks-from-an-archival-node-when.patch:187-196 | over any sequence of batches the ceiling only falls, and requests that ascend throughout cause at most one "not found" in all |
| HelperProofs.SharedHistoryComesFromHelper | patches/0008-daemon-read-pruned-blocks-from-an-archival-node-when.patch:181-193 | with a helper that holds our blocks below a split, nothing below it is read over RPC and the ceiling stays at or above it |
| CeilingRace.InvHolds | patches/0008-daemon-read-pruned-blocks-from-an-archival-node-when.patch:308-327 | in every interleaving the ceiling is the maximum or the last height reported unknown |
| CeilingRace.SwapsAreNotHeld | patches/0008-daemon-read-pruned-blocks-from-an-archival-node-when.patch:308-318 | in every interleaving only heights the helper does not hold are swapped in |
| CeilingRace.BelowSplitIsAlwaysOffered | patches/0008-daemon-read-pruned-blocks-from-an-archival-node-when.patch:284-286 | in every interleaving over a helper that holds all below the split, the ceiling stays at or above it and every request below it is offered |
| CeilingRace.CeilingCanRise | patches/0008-daemon-read-pruned-blocks-from-an-archival-node-when.patch:316-318 | two callers can leave the ceiling higher than it was, even over a helper that holds all below the lower height |
| CeilingRace.RisesExactly | patches/0008-daemon-read-pruned-blocks-from-an-archival-node-when.patch:284-318 | a swap raises the ceiling if and only if the latest swap before it came after its caller's read and is below the caller's height |
| CeilingRace.RiseStaysBelowWhatWasRead | patches/0008-daemon-read-pruned-blocks-from-an-archival-node-when.patch:284-318 | and never up to the ceiling that caller read |
| Retry.RetryRpc | patches/0002-daemon-retry-pruned-block-RPCs-with-separate-budgets.patch:102-153 | the first success is returned; a budget error comes after the deadline and, with ideal sleeps, within a delay cap and a call of it; calls are bounded by the delays; it is interrupted exactly when a poll finds the exit flag set, and polls in every wait |
| Retry.Wait | patches/0002-daemon-retry-pruned-block-RPCs-with-separate-budgets.patch:136-148 | the sliced wait ends at its time, or at the first poll that finds the exit flag set; it polls at once and, with ideal sleeps, every 250 ms |
| Retry.BudgetsInCalls | patches/0002-daemon-retry-pruned-block-RPCs-with-separate-budgets.patch:70-79 | the two budgets are at most fifteen and at most five calls |
| Merkle.MerkleRootAndBranch | spikes/electrum-probe/verify_cp_height.py:47-62 | the loop's root and branch are those of the tree |
| Merkle.RootByLayers | spikes/electrum-probe/verify_cp_height.py:55-60 | each layer joins two neighbours, the left first, and a last one alone with itself |
| Merkle.FoldGivesRoot | spikes/electrum-probe/verify_cp_height.py:47-62 | folding a leaf with its branch by the bits of its index gives the root |
| Merkle.FoldCoinbase | spikes/datum-pruned/stratum_miner.py:94-99 | the miner's loop is the fold at index 0, so it gives the root of every tree with that branch |
| Merkle.MerkleRootShown | spikes/electrum-probe/verify_header_v2.py:38-47 | the root over ids in display order is the same tree's root, and none for no ids |
| Merkle.ShownRootOfTwo | spikes/electrum-probe/verify_header_v2.py:38-47 | ids are shown reversed: the tree of two shown ids joins their reversals |
| Merkle.RootBindsLeaves | spikes/electrum-probe/verify_cp_height.py:47-62 | two lists of one length with one root are equal, or a search finds two inputs that collide |
| Merkle.BranchIsSound | spikes/electrum-probe/verify_cp_height.py:47-62 | only the true leaf with its true branch folds to the root, or a collision is found on the way |
| Merkle.RootForgetsDuplicate | spikes/electrum-probe/verify_cp_height.py:56-57 | repeating the last of an odd number of leaves leaves the root unchanged |
| WorkQueue.RunKeeps | spikes/mainnet-fetch/concurrency_bench.py:80-94 | in every interleaving, waiting, held and answered hashes make up the request, and `got` and `errors` count what they should |
| WorkQueue.JoinAccountsForAll | spikes/mainnet-fetch/concurrency_bench.py:96-102 | when all have stopped nothing is lost, and if any found the queue empty, what is left is at most the errors |
| WorkQueue.NoErrorsFetchAll | spikes/mainnet-fetch/concurrency_bench.py:73-102 | without an error each hash is answered exactly as often as asked for |
| WorkQueue.OneWorkerKeepsOrder | spikes/mainnet-fetch/concurrency_bench.py:73-89 | one worker without errors answers in the order asked for |
| WorkQueue.AllAnsweredExactly | spikes/mainnet-fetch/concurrency_bench.py:81-94 | everything is answered if and only if the last worker to stop found the queue empty |
| WorkQueue.HealthyWorkerCanMissARetry | spikes/mainnet-fetch/concurrency_bench.py:93-94 | a run in which a hash is left although one worker never failed |
| WorkQueue.RunsAreShort | spikes/mainnet-fetch/concurrency_bench.py:80-94 | every run has at most two steps a hash and three a worker |
| WorkQueue.NoDeadlock | spikes/mainnet-fetch/concurrency_bench.py:80-101 | until all have stopped, some step can be taken |
| Crawl.CrawlFromFork | spikes/blake2b-testnet4/find_fork_peers.py:272-299 | after r rounds exactly the addresses within r - 1 hops are probed, each in one round; `confirmed` is their fork members; beyond the seeds only what a fork peer named is probed; a frontier with nothing new means the closure is complete, and only then |
| Crawl.OneHopMore | spikes/blake2b-testnet4/find_fork_peers.py:284-298 | routes of one hop more end where shorter ones do, or one fork peer's gossip further |
| Crawl.ClosedExactly | spikes/blake2b-testnet4/find_fork_peers.py:285-287 | nothing new at the edge if and only if everything reachable is probed |

## Left out

- HelperProofs.HelperIsTransparent: takes what the helper gives under a requested hash to be RPC's block, because the code checks the header only; `ShowsExactly` gives the exact condition, on the replies that are taken.
- BlockContents.HashDeterminesBlock: takes equal masks where both headers are v2, because a miner free to choose the XOR key chooses the mask; a transaction's id is any function of its bytes, so what an id leaves out, as a witness, is left open.
- Routing.Daemon.ForBlocksWith: is relative to the prune height and heights read for the batch; the node pruning further in the meantime is not modelled. What a retried RPC ends with is one outcome a hash; the retrying itself is `Retry`.
- CeilingRace.BelowSplitIsAlwaysOffered: takes that a helper does not report as unknown a block it holds; any other failure of it is allowed.
- ChainIndex.Reopen: takes that different stored headers have different hashes, that the header rows are ones the indexer wrote, and that the tip's links lead to the genesis; otherwise the program panics or, on a cycle of hashes, does not end.
- Commitment.BlockHashCommitsToHeader: takes equal masks, because a miner free to choose the XOR key chooses the mask.
- ChainIndex.Chain.Load: the panic on a missing header is a result that says it was not loaded.
- Crawl.CrawlFromFork: the next frontier is listed in any order, not sorted, and a probe answers the same whenever it is made.
- TxWalk.VisitsInOrder: the transaction parser is any function that takes at least a byte and looks at nothing behind what it takes.
- Store.WalkedIsLongest: the rules for linkage, difficulty, proof of work and median time are one abstract step.
- Walk.CountAgreesWithSplit: is about strings of hex digits; the signs that `Integer.parseInt` lets through are modelled, and such a string is refused when decoded.
- Offsets near 2^31 in the wallet's Java loops: lengths are unbounded here.
- The claim that a store written with the other stride is always discarded: a first v1 record reads the same at either stride.
- The check of the helper at start-up, the write timeout, the block proxy, configuration, logging and metrics: one branch each.
- Sockets, RPC transport, RocksDB, Tor, DNS, and the p2p handshake.
- `server.features` beyond the fork point, and script hash subscriptions.
- The rest of the miner's header and `swap4`; the other benchmarks and probes.
- The inside of SHA-256, BLAKE2b, rust-bitcoin and `bitcoin_slices`.
