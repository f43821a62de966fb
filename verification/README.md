# TPCP: verified model of the protocol core

TPCP is a messaging protocol between agents with SDKs in Python, TypeScript, Go, Rust and Java.
This project models the parts of it whose correctness does not show in any single function, and
proves them for all inputs, all runs and all arrival orders.

| files | what they model |
|---|---|
| `LexOrder`, `LwwRecords`, `LwwReplica`, `LwwTwoLevel`, `LwwNetwork`, `LwwJson` | the LWW-Map CRDT: conflict rules, one replica with its SQLite table, the Go/Rust/Java maps, a network of replicas with lossy syncs and restarts, and all of it on real JSON values |
| `JsonText`, `JsonCanonical`, `JsonBytes`, `JsonOrder` | the canonical JSON printers, a reader that undoes them, their exact bytes, and the order of their texts in Python and TypeScript |
| `Chunker`, `Reassembler`, `ChunkReassembler` | chunked transfers: splitting, the reassembly book, and the four parallel tables that implement it |
| `MessageQueue`, `DrainLoop` | the dead-letter queue and its concurrent drainers; the synchronous TypeScript drain |
| `Relay`, `RelayServer` | the A-DNS relay as a state machine over connections, challenges and registry, and the object that implements it |
| `TokenBucket`, `Limiters` | the relay's token bucket and challenge log, the webhook's fixed window |
| `ReplayCache` | duplicate suppression: the front-popping cache against full filtering |
| `VectorBank` | cosine search with cached norms |

Conventions. A class mirrors an object of the program, field by field; each of its methods is proved
to move the object's abstract value as a specification function says, and the lemmas are about those
functions. Time is a real-valued parameter. `json.loads`/`json.dumps` of a value, signature checks and
key decoding enter as function parameters (`Codec`, `Crypto`); for JSON values `LwwJson` supplies the
actual printer and reader, so nothing about that codec is assumed there. Fresh nonces are a hypothesis on
the run (`FreshNonces`). Floats are reals, and a norm is any non-negative real whose square is the
sum of squares. Where Python iterates over a dictionary the loop picks the keys in any order; the vector
bank, whose answers depend on the order, keeps its dictionary as a sequence.

## What does not hold as documented

Each of these is a theorem below, next to the condition under which the documented property holds.

- The two-level rule of Go, Rust and Java does not "match Python's LWWMap"
  (tpcp-go/tpcp/lwwmap.go:13): it agrees on every arrival order exactly when no key has two different
  records under its highest stamp (`RulesAgreeIff`), which unique stamps guarantee.
- Stamps are unique in every run exactly when every replica has a database (`UniqueStampsIffDurable`);
  `TPCPNode` creates its map without one (tpcp/tpcp/core/node.py:121).
- Python and TypeScript can keep different values for one stamp, because Python compares ASCII-escaped
  texts by code point and TypeScript raw ones by UTF-16 code unit (`TieBreakTextsCanDisagree`). They
  agree exactly when the two texts do not clash: at the first difference of the raw texts it is not one
  of `]` to `~` against something above `~` (`PythonMatchesTypeScriptIff`, and for sets of values
  `PythonMatchesTypeScriptOnIff`).
- `connect()` after a first `set` can replace a newer entry by an older row (`LateConnectLosesNewerEntry`).
  It loses nothing exactly when every row that differs from its entry beats it (`ConnectMergesIff`), and
  leaves the clock exact exactly when the clock's stamp survives (`ConnectClockExactIff`).
- "Max 60 requests per minute" at the webhook is sharp per window only; over an arbitrary minute the
  sharp bound is 119 (`AtMost119PerMinute`, `Minute119Reached`), and `LastMinuteCount` says what the
  minute up to a given call holds.
- "Messages are returned in FIFO order" fails once two drainers of a peer hold a message each,
  which two failed sends bring about (`TwoFailuresReachOverlap`). Not overlapping is exactly the
  condition (`InOrderIffOneAtATime`).
- The queue is "bounded size per peer" exactly for a positive maximum; otherwise `enqueue` raises and
  leaves an empty deque under the key (`BoundKeptIffPositiveMaximum`).
- The reassembler compares with the total of the envelope at hand, never with the stored one
  (`ConflictingTotalReturnsEarly`). On an open transfer the two decide alike exactly when they are equal,
  the index was received before, or the indices then received are complete by neither
  (`StoredTotalDecidesAlikeIff`).
- "Duplicate - ignored" holds exactly while the transfer is open and holds that index (`IgnoredIffHeld`).
  A completed transfer is forgotten: its next chunk returns a one-chunk payload again and opens a longer
  transfer anew (`DuplicateAfterCompletion`). `TransferRoundTrips` gives the outcome of every call of
  every genuine stream, completions, duplicates and timeouts included.
- "Remove challenges older than 5 minutes" happens only while some challenge is being initiated. Left
  alone - not answered, its send not failing, its connection not closing - a challenge ends exactly with a
  step that initiates one more than 300 s later or issues a new one for the same id
  (`AwaitsIffNotEnded`, `AwaitsIffNeverEnded`). The second case needs the id to be registered at another
  connection (`ForgottenIffPurged`, `SecondMessageOverwrites`). Until then a late answer registers
  (`LateAnswerRegisters`, `HandshakeRegistersIff`).

One hypothesis is worth a word. The front-popping replay cache equals full filtering exactly when no
expired entry stands behind a fresh one (`FrontPopIffExpiredFirst`), which a clock that never goes back
guarantees. The Python node reads such a clock (tpcp/tpcp/core/node.py:334), so the backward step of
`BackwardClockSeparates` cannot reach it; the lemma shows what the hypothesis is for. The Rust node reads
the wall clock (tpcp-rs/tpcp-std/src/node.rs:218), and filters fully.

## Model

| member | source | states |
|---|---|---|
| `LexOrder.Total` | tpcp/tpcp/memory/crdt.py:119-123 | Code-point order on texts is total: of two texts one is smaller or they are equal. |
| `LexOrder.NotGreaterTransitive` | tpcp/tpcp/memory/crdt.py:119-123 | "Not smaller" is transitive, so ties and comparisons chain. |
| `LexOrder.FirstDifferenceDecides` | tpcp/tpcp/memory/crdt.py:119-123 | One text comes before another if and only if, after a common prefix, it ends there or has the smaller character. |
| `LwwRecords.BeatsAsymmetric` | tpcp/tpcp/memory/crdt.py:115-125 | Under either rule two records never replace each other. |
| `LwwRecords.TieMeansSameRank` | tpcp/tpcp/memory/crdt.py:115-125 | Neither record replaces the other exactly when timestamp, writer and, for the three-level rule, canonical text coincide. |
| `LwwRecords.NotBeatsTransitive` | tpcp/tpcp/memory/crdt.py:115-125 | Each rule is a total preorder. |
| `LwwRecords.FoldKeepsBest` | tpcp/tpcp/memory/crdt.py:112-128 | After any sequence of applications exactly the offered keys are present, each at a record that nothing offered beats. |
| `LwwRecords.SurvivorRanksHighest` | tpcp/tpcp/memory/crdt.py:112-128 | Which record that is, spelled out: every record offered for the key has an earlier timestamp, or the same and a smaller writer id, or the same of both and, for the three-level rule, no greater text. |
| `LwwRecords.LargerStampSurvives` | tpcp-go/tpcp/lwwmap.go:26-38 | Of two records the one with the later timestamp, or under one timestamp the larger writer id, survives in both arrival orders and under both rules. |
| `LwwRecords.GreaterTextSurvives` | tpcp/tpcp/memory/crdt.py:122-125 | Under one stamp the three-level rule keeps the value with the greater text, in both arrival orders. |
| `LwwRecords.SameItemsSameState` | tpcp/tpcp/memory/crdt.py:139-150 | For either rule: same set of records, in any order and multiplicity, same state, unless a key has two unbeaten records. |
| `LwwRecords.StrongConvergence` | tpcp-ts/src/memory/crdt.ts:44-74 | Three-level rule with value texts that tell values apart: replicas that absorbed the same records are equal, without side condition. |
| `LwwRecords.OrderIndependentIff` | tpcp/tpcp/memory/crdt.py:112-128 | For either rule the result is the same for all arrival orders if and only if no key has two unbeaten records. |
| `LwwRecords.BothWaysRound` | tpcp-go/tpcp/lwwmap.go:29-36 | Of two unbeaten records for a key each can be made the survivor by choosing the arrival order. |
| `LwwRecords.RulesAgreeIff` | tpcp-go/tpcp/lwwmap.go:13-38 | The two-level and the three-level rule reach the same state on every arrival order if and only if no key has two different records under its highest stamp. |
| `LwwRecords.FixedValuesMakeRulesAgree` | tpcp-rs/tpcp-core/src/lwwmap.rs:28-38 | If (key, timestamp, writer) determines the value, both rules compute the same state on the sequence. |
| `LwwRecords.TwoLevelDependsOnOrder` | tpcp-rs/tpcp-core/src/lwwmap.rs:28-38 | With one stamp on two values the two-level rule keeps whichever came first, while the three-level rule agrees with itself. |
| `LwwRecords.FoldOfEntriesIsJoin` | tpcp/tpcp/memory/crdt.py:144-150 | Applying another state's entries one by one, in any order and with repetitions, yields the join of the two states. |
| `LwwRecords.JoinIdempotent` | tpcp/tpcp/memory/crdt.py:38 | merge(A, A) == A, for either rule. |
| `LwwRecords.JoinAssociative` | tpcp/tpcp/memory/crdt.py:37 | merge(merge(A, B), C) == merge(A, merge(B, C)), for either rule. |
| `LwwRecords.JoinCommutativeIff` | tpcp/tpcp/memory/crdt.py:36 | merge(A, B) == merge(B, A) if and only if every two different records for a shared key are ranked. |
| `LwwRecords.JoinCommutative` | tpcp/tpcp/memory/crdt.py:36 | The three-level rule merges commutatively whenever the value texts are injective. |
| `LwwReplica.ApplyKeepsClockExact` | tpcp/tpcp/memory/crdt.py:101-128 | A `set` of any record keeps "clock == max(0, largest stored timestamp)". |
| `LwwReplica.ApplyKeepsMirror` | tpcp/tpcp/memory/crdt.py:112-131 | Write-through keeps the table equal to memory. |
| `LwwReplica.MergeKeepsMirror` | tpcp/tpcp/memory/crdt.py:139-150 | So does a whole merge. |
| `LwwReplica.MergeOneMore` | tpcp/tpcp/memory/crdt.py:144-150 | One more per-key step of a merge gives the merge of one more entry: state, clock and table. |
| `LwwReplica.HydrateOneMore` | tpcp/tpcp/memory/crdt.py:78-82 | One more row read gives the hydration by one more row, state and clock. |
| `LwwReplica.ClockBoundsKept` | tpcp/tpcp/memory/crdt.py:72-150 | No set, merge or connect, not even a late one, leaves an entry stamped above the clock. |
| `LwwReplica.LocalSetIsRead` | tpcp/tpcp/memory/crdt.py:101-128 | Then an unstamped set always wins: it is the record stored for its key, stamped clock + 1 by this node. |
| `LwwReplica.StampedSetOffers` | tpcp/tpcp/memory/crdt.py:105-131 | A stamped set of a new key stores the given timestamp with the given writer, or else this node's id, moves the clock up to it and never down, and writes the row exactly when connected. |
| `LwwReplica.UnconnectedWritesNothing` | tpcp/tpcp/memory/crdt.py:86-87 | Without a connection neither a set nor a merge changes the table. |
| `LwwReplica.RecoveryExactIff` | tpcp/tpcp/memory/crdt.py:72-93 | Close and reopen restores entries and clock exactly if and only if each stored value survives dumps and loads. |
| `LwwReplica.ConnectMirrorsIff` | tpcp/tpcp/memory/crdt.py:55-82 | After `connect` table and memory agree if and only if memory had no key without a row. |
| `LwwReplica.ConnectMergesIff` | tpcp/tpcp/memory/crdt.py:55-82 | `connect` ends where merging the rows would, so that no newer entry is lost, if and only if every row that differs from the entry in memory beats it. |
| `LwwReplica.ConnectClockExactIff` | tpcp/tpcp/memory/crdt.py:78-82 | `connect` leaves the clock exact if and only if the clock is 0, some row reaches it, or an entry that carries it has no row. |
| `LwwReplica.LateConnectLosesNewerEntry` | tpcp/tpcp/memory/crdt.py:78-82 | A concrete case outside both conditions: an entry stamped 5 is replaced by a row stamped 1, while the clock stays at 5. |
| `LwwReplica.InterleavingIsFold` | tpcp/tpcp/memory/crdt.py:100-150 | Any interleaving of local sets with the per-key steps of any number of merges leaves the fold of the records applied. |
| `LwwRecords.FoldFromIsJoin` | tpcp/tpcp/memory/crdt.py:112-150 | From any start, applying a sequence of records is joining the start with what they leave behind on their own. |
| `LwwReplica.InterleavingsConverge` | tpcp/tpcp/memory/crdt.py:100-150 | From any common state, two such interleavings that apply the same set of records end in one state: the join of the start with those records' maxima. |
| `LwwReplica.LWWMap.constructor` | tpcp/tpcp/memory/crdt.py:45-53 | A new map is empty, unconnected, with clock 0 over the given table. |
| `LwwReplica.LWWMap.Connect` | tpcp/tpcp/memory/crdt.py:55-70 | Refines the value-level connect: every row overwrites memory, the clock rises to the largest stamp. |
| `LwwReplica.LWWMap.HydrateFromDb` | tpcp/tpcp/memory/crdt.py:72-82 | Nothing when unconnected, else state and clock absorb the whole table. |
| `LwwReplica.LWWMap.Set` | tpcp/tpcp/memory/crdt.py:95-131 | The nested comparisons apply exactly the stamped record under the three-level rule, clock and table included. |
| `LwwReplica.LWWMap.Merge` | tpcp/tpcp/memory/crdt.py:139-150 | The loop over the incoming records computes the join, the maximal clock and the rows of the winners. |
| `LwwTwoLevel.LWWMap.Set` | tpcp-go/tpcp/lwwmap.go:26-38 | The two early returns apply the record under the two-level rule. |
| `LwwTwoLevel.LWWMap.Merge` | tpcp-go/tpcp/lwwmap.go:54-67 | Snapshot and apply computes the join of both old states, also when a map is merged into itself. |
| `LwwTwoLevel.JavaChoosesAsGoDoes` | tpcp-java/src/main/java/io/tpcp/core/LWWMap.java:17-25 | The Java remapping function gives the same map as the Go `Set`. |
| `LwwNetwork.StepKeepsBase` | tpcp/tpcp/memory/crdt.py:72-150 | Local sets, syncs, deliveries, restarts and foreign records all keep: clock exact, table equal to memory, state the per-key maximum of what was absorbed. |
| `LwwNetwork.ClockAndTableExactInEveryRun` | tpcp/tpcp/memory/crdt.py:72-131 | In every reachable state clock and table are exact, and a restart of a connected replica is the identity. |
| `LwwNetwork.MutualEntriesSameState` | tpcp/tpcp/memory/crdt.py:112-161 | Two replicas, at any moments of any two runs, each of which has absorbed the entries the other stores have equal states and clocks; overwritten records that were never sent play no part. |
| `LwwNetwork.SameAbsorbedSameState` | tpcp/tpcp/memory/crdt.py:112-161 | In particular two replicas that absorbed the same records. |
| `LwwNetwork.ExchangeConverges` | tpcp/tpcp/memory/crdt.py:139-161 | From any reachable state, once each of two replicas has received the entries the other had sent, in any order, repeated and interleaved, states and clocks are equal. |
| `LwwNetwork.StepKeepsStamped` | tpcp/tpcp/memory/crdt.py:101-106 | With databases every event keeps: no entry written by i is stamped above the clock of i, and no stamp was used twice. |
| `LwwNetwork.UniqueStampsInEveryDurableRun` | tpcp/tpcp/memory/crdt.py:72-150 | Each (timestamp, writer) pair in any state or message belongs to one key and value, under lost, duplicated and reordered syncs and restarts. |
| `LwwNetwork.ForgottenClockReusesStamp` | tpcp/tpcp/core/node.py:121 | Without a database four events give one stamp to two values. |
| `LwwNetwork.UniqueStampsIffDurable` | tpcp/tpcp/memory/crdt.py:45-106 | Stamps are unique in all runs if and only if every replica has a database. |
| `LwwNetwork.RulesAgreeInEveryDurableRun` | tpcp-go/tpcp/lwwmap.go:12-38 | On records of such runs, in any order and multiplicity, the two-level maps reach the Python state. |
| `LwwJson.JsonCodecIsLossless` | tpcp/tpcp/memory/crdt.py:80-88 | Every JSON value survives the value column, by unique readability of its text. |
| `LwwJson.JsonReplicasConverge` | tpcp/tpcp/memory/crdt.py:112-161 | Two JSON-valued replicas of a run, each of which has absorbed the entries the other stores, have equal states and clocks, with no assumption about the codec. |
| `LwwJson.JsonStampsUniqueIffDurable` | tpcp/tpcp/memory/crdt.py:45-106 | The stamp theorem on JSON values with no assumption about the codec. |
| `JsonOrder.Utf16Injective` | tpcp-ts/src/memory/crdt.ts:53 | Texts with the same UTF-16 code units are equal. |
| `JsonOrder.PrintShowsTokens` | tpcp/tpcp/memory/crdt.py:123 | The texts of one value in all dialects are renderings of one token list. |
| `JsonOrder.TextOrdersAgreeIff` | tpcp/tpcp/memory/crdt.py:123 | Python's ASCII-escaped texts (by code point) and TypeScript's raw texts (by code unit) of trees with their members in one order rank two values alike if and only if, at the first difference of the TypeScript texts, it is not one of `]` to `~` against something above `~`. |
| `JsonOrder.UnitOrderAgreesIff` | tpcp-ts/src/memory/crdt.ts:50 | Order by code point and by UTF-16 code unit agree on two texts if and only if, at their first difference, it is not one of U+E000 to U+FFFF against something above U+FFFF. |
| `LwwRecords.TieEndsAlikeIff` | tpcp-ts/src/memory/crdt.ts:52-56 | For any two injective tie-breaking texts: two values under one stamp end alike in both maps if and only if the texts order them alike. |
| `LwwRecords.MapsAgreeOnIff` | tpcp-ts/src/memory/crdt.ts:44-60 | Two such maps agree on every sequence of records with values from a given set if and only if the texts order that set alike. |
| `LwwJson.TypeScriptConverges` | tpcp-ts/src/memory/crdt.ts:44-74 | TypeScript replicas, comparing by code unit, that absorbed the same records are equal. |
| `LwwJson.PythonMatchesTypeScriptIff` | tpcp-ts/src/memory/crdt.ts:53 | For values whose object keys code-point and code-unit order sort alike: Python and TypeScript keep the same of two values under one stamp if and only if their TypeScript texts do not clash in that sense. |
| `LwwJson.PythonMatchesTypeScriptOnIff` | tpcp-ts/src/memory/crdt.ts:44-60 | With the same restriction on keys: they reach the same state on every sequence of records with values from a given set if and only if no two of its texts clash. |
| `LwwJson.AsciiValuesMatch` | tpcp-ts/src/memory/crdt.ts:44-60 | In particular whenever no text has a character above `~`. |
| `LwwJson.TieBreakTextsCanDisagree` | tpcp-ts/src/memory/crdt.ts:53 | For "é" against "z" under one stamp Python keeps "z" and TypeScript "é". |
| `JsonText.ReadOneChar` | tpcp-rs/tpcp-core/src/identity.rs:52 | Each escaped character, surrogate pairs and dialect-specific escapes included, reads back as itself (section 7 of RFC 8259). |
| `JsonText.ReadPrinted` | tpcp-rs/tpcp-core/src/identity.rs:45-76 | The reader recovers any tree and what follows it from its printed text, in each printer's dialect. |
| `JsonText.UniquelyReadable` | tpcp-go/tpcp/identity.go:67-111 | Equal texts with delimited continuations come from equal trees and continuations. |
| `JsonCanonical.SameElementsSameList` | tpcp-rs/tpcp-core/src/identity.rs:48-49 | Strictly sorted member lists with the same elements are equal, so any correct sort gives the same text. |
| `JsonCanonical.NormalFormIffEquivalent` | tpcp-rs/tpcp-core/src/identity.rs:45-76 | Two trees have one normal form if and only if they are equal as JSON values (objects by key, at every depth). |
| `JsonCanonical.EquivalenceLaws` | tpcp-rs/tpcp-core/src/identity.rs:45-76 | Equality of JSON values so defined is reflexive, symmetric and transitive. |
| `JsonCanonical.NormaliseIdempotent` | tpcp-rs/tpcp-core/src/identity.rs:45-76 | Normalising twice changes nothing and keeps keys unique. |
| `JsonCanonical.CanonicalIsReadable` | tpcp-rs/tpcp-core/src/identity.rs:41-76 | From the canonical text followed by anything delimited the reader gets the normalised tree and the rest. |
| `JsonCanonical.SameTextIffEquivalent` | tpcp-rs/tpcp-core/src/identity.rs:45-76 | Equal bytes if and only if equal JSON values: key order never matters, and nothing else is identified. |
| `JsonCanonical.ReorderedMembersPrintAlike` | tpcp-go/tpcp/identity.go:69-91 | Permuting an object's members leaves the bytes as they are. |
| `JsonCanonical.PrintReadPrint` | tpcp-go/tpcp/identity.go:54-64 | Printing what was read back from a canonical text gives that text. |
| `JsonBytes.PrintSpellsTokens` | tpcp-rs/tpcp-core/src/identity.rs:45-76 | The bytes: every grammar character stands for itself, followed by a blank only after comma and colon in Python's tie-break dialect. |
| `JsonBytes.CompactHasNoBlanks` | tpcp-go/tpcp/identity.go:76-106 | A compact text has no blank outside the contents of its strings. |
| `JsonBytes.EscapesAre` | tpcp-rs/tpcp-core/src/identity.rs:52 | Every escape of every dialect: seven two-character forms, other controls and what the dialect excludes in lower-case hexadecimal, surrogate pairs, all else as itself (section 7 of RFC 8259). |
| `JsonBytes.DigitsAreDecimal` | tpcp-rs/tpcp-core/src/identity.rs:74 | The digits written for a natural number have its value and no leading zero. |
| `JsonBytes.IntegersAreDecimal` | tpcp-rs/tpcp-core/src/identity.rs:74 | A negative integer is a minus sign and the digits of its absolute value. |
| `JsonBytes.KeysAscend` | tpcp-rs/tpcp-core/src/identity.rs:49 | The keys of a printed object strictly ascend. |
| `JsonBytes.KnownWords` | tpcp-rs/tpcp-core/src/identity.rs:74 | The texts of null, true, false and the empty array, object and string. |
| `JsonBytes.KnownObject` | tpcp-go/tpcp/identity.go:69-91 | A two-member object given in descending key order prints as `{"a":2,"b":1}`, or with blanks in the spaced dialect. |
| `JsonCanonical.CanonicalJson` | tpcp-rs/tpcp-core/src/identity.rs:45-76 | The recursive printer outputs the canonical text. |
| `JsonCanonical.CanonicalObject` | tpcp-go/tpcp/identity.go:69-91 | Sorting the keys alone, looking the values up and placing commas by index gives the text of the sorted object. |
| `JsonCanonical.CanonicalArray` | tpcp-go/tpcp/identity.go:93-106 | The array loop with commas by index gives the array's text. |
| `Chunker.SplitJoins` | tpcp/tpcp/core/chunker.py:77-82 | The chunks concatenate to the payload. |
| `Chunker.SplitByIndex` | tpcp/tpcp/core/chunker.py:77-82 | Ceiling division counts the chunks, and chunk i is the slice from i * size to min(i * size + size, length). |
| `Chunker.SendChunked` | tpcp/tpcp/core/chunker.py:49-102 | An empty payload and a size under 1024 are refused, in that order; otherwise one envelope per chunk goes out in index order with the right total. |
| `Reassembler.FirstInIsFirst` | tpcp/tpcp/core/reassembler.py:112-116 | Of several usable chunks with one index the first received is the one that is kept. |
| `Reassembler.OpenTransferHoldsFirstChunks` | tpcp/tpcp/core/reassembler.py:103-123 | On any stream an open transfer holds exactly the first-received chunks since it was opened. |
| `Reassembler.CompletionIsSound` | tpcp/tpcp/core/reassembler.py:103-137 | On any stream, bytes returned are the index-ordered concatenation of the first-received chunk for each of 0..n-1, n the completing envelope's total. |
| `Reassembler.OtherTransfersUntouched` | tpcp/tpcp/core/reassembler.py:139-152 | A call for one transfer keeps every other unexpired transfer and drops exactly the expired ones. |
| `Reassembler.UncountedLeavesTransfer` | tpcp/tpcp/core/reassembler.py:83-109 | An envelope that is no usable chunk of a transfer - for another one, without data, undecodable, index out of range - leaves that transfer as it is, expiry apart. |
| `Reassembler.UnusableOutcome` | tpcp/tpcp/core/reassembler.py:93-109 | For such an envelope of the transfer itself the call raises if the data is undecodable and returns nothing otherwise. |
| `Reassembler.GenuineChunkStep` | tpcp/tpcp/core/reassembler.py:111-129 | A genuine chunk completes the transfer if it is the last missing one, else it is added and nothing returned. |
| `Reassembler.BookHoldsRound` | tpcp/tpcp/core/reassembler.py:72-152 | After any genuine stream the transfer holds exactly the chunks received since it last completed or expired. |
| `Reassembler.TransferRoundTrips` | tpcp/tpcp/core/chunker.py:76-93 | Every usable chunk of every genuine transfer, in any order, with duplicates and unusable envelopes in between, interleaved, before and after completions, within the timeout or not: it returns the original payload if it supplies the last index missing since the last completion or expiry, else nothing. |
| `Reassembler.FirstCompletion` | tpcp/tpcp/core/reassembler.py:86-137 | In particular, within the timeout of the first chunk, nothing is returned until the last index not yet seen, and then the payload. |
| `Reassembler.IgnoredIffHeld` | tpcp/tpcp/core/reassembler.py:111-116 | A usable chunk is ignored if and only if its transfer is open and holds its index. |
| `Reassembler.DuplicateAfterCompletion` | tpcp/tpcp/core/reassembler.py:118-137 | In every genuine stream the next chunk after a completing call returns the payload again if there is only one chunk, and otherwise opens the transfer anew with that chunk alone. |
| `ReassemblerObject.StoredTotalDecidesAlikeIff` | tpcp/tpcp/core/reassembler.py:118-129 | On an open transfer the envelope's total and the stored one decide alike if and only if they are equal, the index was received before, or the indices then received are complete by neither. |
| `ReassemblerObject.ConflictingTotalReturnsEarly` | tpcp/tpcp/core/reassembler.py:125-127 | After chunk 0 of 3, chunk 1 "of 2" returns two chunks. |
| `ReassemblerObject.SortedJoinIsInOrder` | tpcp/tpcp/core/reassembler.py:131-137 | Sorting the received pairs by index and joining gives the chunks in index order. |
| `ReassemblerObject.CompletingRefinesAccept` | tpcp/tpcp/core/reassembler.py:118-137 | Filing the last missing chunk and removing the transfer from all four tables is the book's completion. |
| `ReassemblerObject.WaitingRefinesAccept` | tpcp/tpcp/core/reassembler.py:118-129 | Filing any other chunk keeps the four tables in step and is the book's insertion. |
| `ReassemblerObject.ChunkReassembler.PurgeStale` | tpcp/tpcp/core/reassembler.py:139-152 | Removes exactly the expired ids from all four tables. |
| `ReassemblerObject.ChunkReassembler.Reassemble` | tpcp/tpcp/core/reassembler.py:131-137 | Returns the sorted chunks joined and removes the id from all four tables. |
| `ReassemblerObject.ChunkReassembler.Ingest` | tpcp/tpcp/core/reassembler.py:72-129 | The four tables keep identical key sets, each call is the book's step, result included, and the total stored is the one of the chunk that opened the transfer. |
| `MessageQueue.InsertionsKeepBounds` | tpcp/tpcp/core/queue.py:42-73 | With a positive maximum a key exists exactly while its queue is non-empty and within the bound, and no operation raises. |
| `MessageQueue.BoundKeptIffPositiveMaximum` | tpcp/tpcp/core/queue.py:48-63 | An insertion keeps that if and only if the maximum is at least one; otherwise it raises on an empty deque. |
| `MessageQueue.EvictsIffFull` | tpcp/tpcp/core/queue.py:49-63 | An insertion evicts if and only if the queue is full: the oldest message at the back, the newest at the front, all else staying in order. |
| `MessageQueue.OtherPeersUntouched` | tpcp/tpcp/core/queue.py:42-73 | No operation touches another peer's queue, and a dequeue hands over the oldest message. |
| `MessageQueue.MessageQueue.Enqueue` | tpcp/tpcp/core/queue.py:42-52 | Appends, evicting the oldest when full; what was evicted or raised is reported. |
| `MessageQueue.MessageQueue.EnqueueFront` | tpcp/tpcp/core/queue.py:54-63 | Prepends, evicting the newest when full. |
| `MessageQueue.MessageQueue.DequeueOne` | tpcp/tpcp/core/queue.py:65-73 | Pops the oldest; the key goes with the last message. |
| `MessageQueue.MessageQueue.Drain` | tpcp/tpcp/core/queue.py:75-81 | Hands over the whole queue and removes the key. |
| `MessageQueue.MessageQueue.HasMessages` | tpcp/tpcp/core/queue.py:83-86 | True exactly when the peer's queue is non-empty. |
| `DrainLoop.PeersAreIndependent` | tpcp/tpcp/core/node.py:630-681 | In every run of a node each peer evolves as if alone, and the shared table holds its queue under its key, non-empty and bounded. |
| `DrainLoop.StepKeepsBalance` | tpcp/tpcp/core/node.py:648-681 | Each dispatch, take, success and failure keeps: enqueued = delivered + in flight + queued + evicted, per message. |
| `DrainLoop.NothingLostInAnyRun` | tpcp/tpcp/core/node.py:648-681 | That equation between multisets in every run, with any number of concurrent drainers. |
| `DrainLoop.EvictsOnlyWhenFull` | tpcp/tpcp/core/queue.py:49-63 | A step evicts a message if and only if it inserts into a full queue. |
| `DrainLoop.FailureRequeues` | tpcp/tpcp/core/node.py:674-676 | A failed send puts the message back at the front and empties the drainer's hand; only a full queue loses its newest message for it. |
| `DrainLoop.DrainDelivers` | tpcp/tpcp/core/node.py:667-673 | While sends succeed, n rounds of a drainer deliver exactly the first n queued messages, in order. |
| `DrainLoop.FifoWithoutOverlap` | tpcp/tpcp/core/node.py:661-681 | If no drainer gets a message while another holds one, delivered ++ in flight ++ queue is always a subsequence of the enqueue order, and equals it if nothing was evicted. |
| `DrainLoop.SingleDrainerKeepsFifo` | tpcp/tpcp/core/node.py:661-681 | One drainer per peer keeps that order under any failures and enqueues mid-drain. |
| `DrainLoop.OverlapCanBreakFifo` | tpcp/tpcp/core/node.py:667-676 | Whenever two drainers hold different messages, one of the two orders of completion delivers out of order. |
| `DrainLoop.HeldSlotsDiffer` | tpcp/tpcp/core/node.py:667-676 | In a run that enqueues no message twice, two drainers never hold the same message. |
| `DrainLoop.InOrderIffOneAtATime` | tpcp/tpcp/core/node.py:648-681 | In such a run, at every moment and however the sends then in progress finish, deliveries are in enqueue order if and only if no drainer gets a message while another is in flight. |
| `DrainLoop.TwoFailuresReachOverlap` | tpcp/tpcp/core/node.py:648-650 | For any maximum of at least two, two failed sends reach such a state. |
| `DrainLoop.SyncDrainTakesPrefix` | tpcp-ts/src/core/node.ts:616-635 | A synchronous drain delivers a prefix of the queue and leaves the rest in order, a failed send's message included. |
| `DrainLoop.TsFifo` | tpcp-ts/src/core/node.ts:77-105 | The TypeScript queue keeps the order and the bound for any number of reconnects and any failures, with no condition. |
| `TokenBucket.TokenBucketLimiter.Consume` | tpcp/tpcp/relay/server.py:60-74 | Refills up to the burst, then takes the tokens or leaves the level. |
| `TokenBucket.CallRefillsAndSpends` | tpcp/tpcp/relay/server.py:57-74 | For any number of tokens: the level is the smaller of the burst and what was left plus rate * elapsed; the call succeeds if and only if it asks no more, and only then is the level lowered, by what was asked. |
| `TokenBucket.LevelIsLeastAllowance` | tpcp/tpcp/relay/server.py:60-74 | The level is the least, over all windows ending now, of burst + rate * length minus accepted calls. |
| `TokenBucket.AcceptedIffAllWindowsConform` | tpcp/tpcp/relay/server.py:60-74 | A unit call is accepted if and only if it keeps every window that ends with it within burst + rate * length. |
| `TokenBucket.WindowBound` | tpcp/tpcp/relay/server.py:60-74 | From call i to call j at most burst + rate * (t_j - t_i) unit calls are accepted. |
| `TokenBucket.FullBurstAfterIdle` | tpcp/tpcp/relay/server.py:60-74 | After burst / rate idle seconds the next `burst` unit calls all succeed. |
| `Limiters.LogIsRecentHistory` | tpcp/tpcp/relay/server.py:233-239 | Dropping old entries loses nothing: log and full history have the same recent part at every later moment. |
| `Limiters.ChallengeAdmittedIff` | tpcp/tpcp/relay/server.py:230-239 | A challenge is admitted if and only if fewer than ten were admitted in the 60 s before. |
| `Limiters.AdmittedIffTenthIsOld` | tpcp/tpcp/relay/server.py:230-239 | The same in terms of admissions alone: fewer than ten ever, or the tenth last at least 60 s ago. |
| `Limiters.TenPerMinute` | tpcp/tpcp/relay/server.py:230-239 | Any eleven admissions span at least 60 s. |
| `Limiters.WebhookLimiter.CheckRateLimit` | tpcp/tpcp/relay/webhook.py:68-81 | Moves exactly the caller's window as the fixed-window rule says. |
| `Limiters.PassesAreWindowed` | tpcp/tpcp/relay/webhook.py:68-81 | Admitted calls are numbered 1..60 within a window, and windows start more than 60 s apart. |
| `Limiters.NextPass` | tpcp/tpcp/relay/webhook.py:68-81 | Exactly what one more call does: it opens a window if it is the first or the last window began more than 60 s ago, else takes the next of 60 places, and is refused without effect when they are taken. |
| `Limiters.AtMost119PerMinute` | tpcp/tpcp/relay/webhook.py:68-81 | Any 120 admitted calls span more than 60 s. |
| `Limiters.Minute119Reached` | tpcp/tpcp/relay/webhook.py:69-79 | 119 calls within one second are admitted in a concrete run, so 119 is sharp. |
| `Limiters.SixtyPerWindow` | tpcp/tpcp/relay/webhook.py:69-79 | Calls admitted by one window number at most 60. |
| `Limiters.LastMinuteCount` | tpcp/tpcp/relay/webhook.py:68-81 | The 60 s up to an admitted call hold exactly its place in its window plus the passes of the window before that are at most 60 s old; so at most 60 if and only if that sum is. |
| `Relay.StepKeepsSafe` | tpcp/tpcp/relay/server.py:134-150 | Every step of every handler keeps: registry entries are their id's latest earned registration, pending ones were issued, and all their connections are open. |
| `Relay.LatestWasEarned` | tpcp/tpcp/relay/server.py:292-311 | The latest registration of an id followed a challenge issued for that id and key, with a verified signature over its nonce. |
| `Relay.RegistryIsEarnedInEveryRun` | tpcp/tpcp/relay/server.py:196-328 | In every run that holds of each registry entry, under its stored key, and every registry or pending entry's handler still runs. |
| `Relay.StepKeepsSingleUse` | tpcp/tpcp/relay/server.py:269-328 | Every step keeps: pending nonces distinct and unspent, none spent twice. |
| `Relay.NoNonceCompletesTwice` | tpcp/tpcp/relay/server.py:266-328 | No nonce completes two registrations, and none still pending has completed one. |
| `Relay.RegistrationStaysIff` | tpcp/tpcp/relay/server.py:126-213 | A registration is still there after a step if and only if the step is not the end of its connection, a late deregistration, a correct answer that changes it, or a failed send to it (any failure of a broadcast, a closed connection of a unicast). |
| `Relay.RegistrationAppearsIff` | tpcp/tpcp/relay/server.py:292-311 | A new or changed registration appears if and only if the step is a correct answer: at the answering connection, under the challenged key. |
| `Relay.StaysRegisteredIff` | tpcp/tpcp/relay/server.py:126-328 | Over a run a registration stays throughout if and only if no step is one of those. |
| `Relay.OpenExactly` | tpcp/tpcp/relay/server.py:106-213 | A connection is open from its start to its end, at its address. |
| `Relay.OnlyUsableKeys` | tpcp/tpcp/relay/server.py:241-264 | In every run challenges are issued and ids registered under keys of 32 bytes only. |
| `Relay.ElevenChallengesTakeAMinute` | tpcp/tpcp/relay/server.py:229-239 | In every timed run of the relay any eleven challenges admitted for an address span at least 60 s. |
| `Relay.EveryChallengeWasAdmitted` | tpcp/tpcp/relay/server.py:229-275 | Every challenge issued took an admission of its own. |
| `Relay.LogExactly` | tpcp/tpcp/relay/server.py:229-239 | An address's log is consulted and updated by every message that initiates a challenge from there, usable key or not, and by nothing else. |
| `Relay.ChallengeAppearsIff` | tpcp/tpcp/relay/server.py:266-275 | A challenge comes to be pending if and only if a message of its id is challenged, with that message's connection, nonce, time and key. |
| `Relay.AwaitsExactly` | tpcp/tpcp/relay/server.py:139-328 | All that ends a pending challenge: the purge, a new challenge for the id, any answer for it - right, wrong or empty -, a failed send, the end of its connection. |
| `Relay.AwaitsIffNotEnded` | tpcp/tpcp/relay/server.py:139-150 | A step that neither answers nor loses a challenge nor closes its connection leaves it pending if and only if it neither initiates one more than 300 s later nor issues a new one for the same id. |
| `Relay.ForgottenIffPurged` | tpcp/tpcp/relay/server.py:139-150 | For an id that is not registered, only the first case ends it. |
| `Relay.SecondMessageOverwrites` | tpcp/tpcp/relay/server.py:147-150 | For a registered id challenged on a new connection, one more admitted message there within the 300 s replaces the challenge. |
| `Relay.ChallengeSurvives` | tpcp/tpcp/relay/server.py:139-150 | A challenge stays pending through any such traffic, messages of its own sender included, in which no step ends it. |
| `Relay.AwaitsIffNeverEnded` | tpcp/tpcp/relay/server.py:215-275 | Over a run of such traffic with fresh nonces the challenge is still pending if and only if no step ended it. |
| `Relay.HandshakeRegistersIff` | tpcp/tpcp/relay/server.py:139-328 | A challenged message, first contact or a registered id on a new connection, such traffic, then a correct answer at any time over any open connection: the answer completes that challenge if and only if no step ended it, and then the id is registered there under that key. |
| `Relay.LateAnswerRegisters` | tpcp/tpcp/relay/server.py:292-311 | While nothing initiates a challenge, an answer later than 300 s registers. |
| `Relay.ChainWithinTtl` | tpcp/tpcp/relay/server.py:155-163 | A chain of relay forwards is no longer than the initial ttl and changes nothing but the ttl; the last copy goes to nobody. |
| `Relay.TargetsAre` | tpcp/tpcp/relay/server.py:152-190 | Who gets a copy: nobody once the ttl (30 when missing) is used up; every registered peer but the sender for a broadcast; else the registered receiver, unless it is the sender. |
| `RelayServer.ADNSRelayServer.ConnectionOpened` | tpcp/tpcp/relay/server.py:106-108 | A starting handler makes its connection an open one and changes nothing else. |
| `RelayServer.ADNSRelayServer.CleanupStaleChallenges` | tpcp/tpcp/relay/server.py:215-220 | Removes exactly the challenges older than 300 s. |
| `RelayServer.ADNSRelayServer.AdmitFrom` | tpcp/tpcp/relay/server.py:229-239 | The filtered list is stored either way; the decision and the log are the sliding-log limiter's. |
| `RelayServer.ADNSRelayServer.InitiateChallenge` | tpcp/tpcp/relay/server.py:222-275 | Refines the challenge step: purge, admission, key checks, overwriting of the pending entry. |
| `RelayServer.ADNSRelayServer.ChallengeSendFailed` | tpcp/tpcp/relay/server.py:284-290 | A failed send drops whatever challenge is then pending for the id. |
| `RelayServer.ADNSRelayServer.HandleChallengeResponse` | tpcp/tpcp/relay/server.py:292-328 | Refines the answer step: ignored without a challenge, otherwise the challenge is used up, and a verified answer registers the answering connection. |
| `RelayServer.ADNSRelayServer.Route` | tpcp/tpcp/relay/server.py:152-190 | One attempt, with a copy that differs in the ttl only, to each target and no other; a broadcast's registry loses exactly the failed peers, a unicast's only a closed one. |
| `RelayServer.ADNSRelayServer.FanOut` | tpcp/tpcp/relay/server.py:165-179 | Exactly one attempt to each registered peer but the sender. |
| `RelayServer.ADNSRelayServer.HandleMessage` | tpcp/tpcp/relay/server.py:126-190 | The message loop refines the machine's message step, and nothing is routed for an unverified sender or connection. |
| `RelayServer.ADNSRelayServer.ConnectionClosing` | tpcp/tpcp/relay/server.py:196-213 | Removes exactly the registry and pending entries of the closing connection. |
| `ReplayCache.ReplayGuard.Accept` | tpcp/tpcp/core/node.py:333-347 | Pops expired entries from the front, then accepts exactly an id not in the cache. |
| `ReplayCache.FrontPopIffExpiredFirst` | tpcp/tpcp/core/node.py:338-342 | Front-popping equals full filtering if and only if no expired entry stands behind a fresh one. |
| `ReplayCache.FastEqualsFull` | tpcp-rs/tpcp-std/src/node.rs:217-231 | Under a clock that never goes back the two caches are the same list at every moment. |
| `ReplayCache.CacheIsFreshHistory` | tpcp-rs/tpcp-std/src/node.rs:222-231 | The fresh part of the cache is the fresh part of all acceptances ever. |
| `ReplayCache.AcceptedIffNotRecent` | tpcp/tpcp/core/node.py:333-347 | An id is accepted if and only if it was not accepted within the previous 300 s. |
| `ReplayCache.BackwardClockSeparates` | tpcp/tpcp/core/node.py:338-342 | What the clock hypothesis is for: a cache in which a step back, which `time.monotonic` rules out, makes the two forms decide differently. |
| `VectorBank.CauchySchwarz` | tpcp/tpcp/memory/vector.py:114-116 | The square of the dot product is at most the product of the sums of squares, for vectors of any length. |
| `VectorBank.SimilarityInRange` | tpcp/tpcp/memory/vector.py:90-116 | With exact norms the quotient is defined and lies in [-1, 1]. |
| `VectorBank.SelfSimilarity` | tpcp/tpcp/memory/vector.py:90 | A non-zero vector has similarity 1 with itself. |
| `VectorBank.SimilarityIsCosine` | tpcp/tpcp/memory/vector.py:90-116 | The score is the cosine, sign included: the only number that satisfies the law of cosines for query, stored vector and their difference. |
| `VectorBank.OppositeSimilarity` | tpcp/tpcp/memory/vector.py:90-116 | A non-zero vector has similarity -1 with its opposite. |
| `VectorBank.RankSorts` | tpcp/tpcp/memory/vector.py:120-121 | Ranking permutes the hits into descending order. |
| `VectorBank.RankIsStable` | tpcp/tpcp/memory/vector.py:120-121 | Hits of equal score keep their storage order. |
| `VectorBank.TopKIsBest` | tpcp/tpcp/memory/vector.py:121-122 | For k >= 0 the answer is descending, of length min(k, eligible), and no hit left out scores above a returned one. |
| `VectorBank.NegativeBoundDropsFromEnd` | tpcp/tpcp/memory/vector.py:122 | A negative k drops that many from the end of the ranked hits, or all. |
| `VectorBank.HitsAreCosines` | tpcp/tpcp/memory/vector.py:95-118 | The hits before ranking: for the entries of non-zero norm and no other, in storage order, each entry's id, text and cosine with the query. |
| `VectorBank.AnswerIsBestCosines` | tpcp/tpcp/memory/vector.py:95-122 | For k >= 0 a search answers min(k, eligible) such hits in descending order, and every eligible entry's hit is among them or scores no more than any of them. |
| `VectorBank.AssignKeepsConsistent` | tpcp/tpcp/memory/vector.py:45-53 | Storing keeps cached norms equal to the vectors' norms and ids unique, and changes no other entry. |
| `VectorBank.VectorBank.StoreVector` | tpcp/tpcp/memory/vector.py:42-53 | Overwrites in place or appends, keeping norms and vectors consistent. |
| `VectorBank.VectorBank.Search` | tpcp/tpcp/memory/vector.py:77-122 | Empty for an empty bank or a zero query, an error naming the first entry of another dimension, else the first k of the ranked hits. |
| `VectorBank.ScoresInRange` | tpcp/tpcp/memory/vector.py:95-122 | Every score of a search lies in [-1, 1]. |

## Left out

- WebSockets, HTTP, SQLite files, the CLI, logging and key files: I/O; the database is a map from key to row, and a row is written in the same step as memory.
- A crash between the memory update and the commit, and cancellation of a drain task with a message in hand.
- Stamps made by adapters (for example tpcp/tpcp/adapters/mqtt_adapter.py:99-105) are outside the unique-stamp runs; they are inside the convergence and clock theorems as `Foreign` events.
- 64-bit limits of timestamps (SQLite, Go, Rust, Java): timestamps are unbounded integers.
- JSON numbers other than integers, lone surrogates, and the decoding of numbers as float64 before printing in Go (tpcp-go/tpcp/identity.go:60-63).
- Order of keys and writer ids by UTF-16 code unit (TypeScript, Java) or by UTF-8 byte (Go, Rust): for these one order, by code point, is used throughout; it coincides with byte order on UTF-8. Tie-breaking texts are compared by code unit for TypeScript.
- Byte equality of canonical texts across SDKs: claims are per dialect.
- `json.dumps(default=str)` on values that are not JSON, and keys inherited from the JavaScript object prototype.
- Rounding: norms, dot products, token levels and times are reals, and the chunk count is integer ceiling division.
- Base64 and Ed25519 internals: a chunk's data is bytes, absent or undecodable, and verification is a function of key, signature and nonce.
- Signing and verification of chunk and ACK envelopes between chunker and reassembler; the envelopes go straight across.
- Suspensions inside one fan-out: sends of a broadcast are one step, but the deletions that follow may also happen at any later moment as `Deregister` events, under which the safety theorems still hold.
- Which of the relay's messages the token bucket refuses, and the size limit: a refused message ends its connection, which is a `Disconnect` event.
- A ttl that is not an integer, and JSON that fails to parse: the relay ignores the message.
- Backoff times and the retry cap of reconnection: how often a drain starts is left to the run.
- The array-based `search` of TypeScript, which also rejects a non-positive k, and the replay caches of Go, Java and TypeScript and the fixed-capacity queues of Go, Rust and Java.
- ACL lookup, payload validators, framework adapters and the mock node.
