# Cashew, modelled and proved

Cashew is a peer-to-peer content network. This project models its stateful
protocols and the codecs beneath them, and proves what they keep over every
input, every run and every schedule:

- **Ledger.** A hash-chained append-only log with a lookup map, eight derived
  indexes and a cached tip (`LedgerEvent`, `LedgerIndex`, `Ledger`,
  `LedgerRecording`, `LedgerStore`, `LedgerFile`), its sync and merge between nodes (`LedgerSync`,
  `LedgerMerge`, `LedgerBridge`), and a network with one writer, where messages are lost,
  duplicated and reordered at will (`Replication`).
- **Gossip.** One node over time (`Gossip`, `GossipNode`) and a whole network of
  them on a changing topology (`GossipNetwork`).
- **Sessions.** The two-party handshake, key derivation, nonces and framing
  (`Session`, `SessionChannel`), and two parties that talk to each other in any
  roles (`SessionLink`), over the primitives in `Crypto`.
- **Onion routing**, in the two independent forms of the code (`OnionRouting`,
  `Router`), the latter with the request codec and the recursive
  handler. `Framing` is the length-prefixed list that requests and ledger files
  share.
- **Serialization.** The recursive binary format (`Serialization`).
- **Rate limiting, redundancy, replication jobs, token revocation and Merkle
  trees** (`RateLimiter`, `Redundancy`, `ReplicationScheduler`,
  `TokenRevocation`, `ContentIntegrity`).

Objects whose methods update fields are classes. Each method is proved against a
function of the old state; the theorems are about those functions and the runs
they make up. `dafny verify dfyconfig.toml` checks the whole project.

Conventions:

- A 32-byte array is the number its bytes spell; `Bytes32` and `Read256` convert,
  and `Bytes.ToFromLe` and `Bytes.FromToLe` make this a bijection.
- The digest is a parameter of which nothing is known. A theorem that needs it to
  be free of collisions says so, and asks for it only on the finitely many inputs
  that occur.
- The cryptographic primitives are a record of unknown functions. Hypotheses are
  that key exchange commutes (section 6.1 of RFC 7748) and that decryption inverts
  encryption (section 2.8 of RFC 8439). `SessionLink.EstablishedArePaired` also asks
  that an exchange with a proper public key does not fail.
- The clock is a parameter, read once a call: a non-negative signed 64-bit number
  of seconds. Unsigned subtraction wraps as in the code (`SubU64`), so a timestamp
  in the future counts as very old where the code subtracts.
- Other wrap-around is written out: counters modulo 2^64, key totals modulo 2^32,
  expiry days turned into seconds modulo 2^32, length fields cut to their width.
- Random choices (keys, nonces, peers) are parameters or left open.
- Exceptions and failed decodings are `None`.
- Doubles are real numbers in the limiter and the reliability scores, and 64-bit
  patterns in the serializer.

Where the code does not do what its names or comments suggest, the model follows
the code and a lemma says exactly when it falls short:

- two parties that both initiate a handshake: `SessionLink.HandshakeAgreesIff`,
  `SessionLink.BothInitiateClash`;
- loading a ledger file: `Ledger.LoadValidIff`, `Ledger.WedgedUntilOpened`;
- the answers of external additions and merges: `Ledger.ExternalAnswerIff`,
  `LedgerSync.MergeAnswerIff`, `LedgerSync.HandedIff`,
  `LedgerMerge.MisfiresIffRepeatable`;
- a seen-cache that overflows: `Gossip.AtMostOnceIff`;
- jobs started late, and retries: `ReplicationScheduler.WithinFiveIff`,
  `ReplicationScheduler.AlwaysUniqueIff`;
- Merkle roots of contents of different lengths and chunk sizes:
  `ContentIntegrity.BindsAnyLengthIff`, `ContentIntegrity.OtherSizeVerifiesIff`;
- the last hop of a routed onion and the first hop of the router's own:
  `OnionRouting.LastHopIff`, `Router.FirstHopReadsIff`;
- a revocation limit of zero and a limiter at time zero:
  `TokenRevocation.LimitKeptIff`, `RateLimiter.TokenBucketBoundIff`,
  `RateLimiter.CleanupUnobservableIff`.

## Model

| member | source | states |
|---|---|---|
| Bytes.AppendLe | src/core/ledger/ledger.cpp:28-35 | the shift-and-push loop appends exactly the low n bytes, least significant first |
| Bytes.ReadLe | src/core/ledger/ledger.cpp:76-84 | the or-and-shift loop computes the little-endian number of the n bytes at the offset |
| Bytes.FromToLe | src/core/ledger/ledger.cpp:28-35 | decoding an n-byte little-endian encoding gives the value modulo 256^n, so a too large length is cut |
| Bytes.ToFromLe | src/core/ledger/ledger.cpp:76-84 | every byte string is the encoding of the number it spells, so 32-byte arrays and numbers below 2^256 are in bijection |
| LedgerEvent.ToBytes | src/core/ledger/ledger.cpp:15-53 | the serializing code produces the specified encoding, with a length field of 32 bits |
| LedgerEvent.FromBytes | src/core/ledger/ledger.cpp:55-109 | the parsing code computes the specified decoder on every input, malformed and truncated ones included |
| LedgerEvent.RoundTrip | src/core/ledger/ledger.cpp:15-109 | an encoded event with anything behind it decodes to itself when its payload is shorter than 2^32 bytes |
| LedgerEvent.RoundTripIff | src/core/ledger/ledger.cpp:15-109 | the round trip holds if and only if the payload is shorter than 2^32 bytes |
| LedgerEvent.EncodeInjective | src/core/ledger/ledger.cpp:15-53 | different events have different bytes, whatever the payload length: the chain hash covers every field |
| LedgerEvent.DecodesIff | src/core/ledger/ledger.cpp:55-109 | an event is decoded from exactly the byte strings that begin with its encoding, if its payload is under 2^32 bytes |
| LedgerEvent.PayloadsReadBack | src/core/ledger/ledger.cpp:138-253 | what the recording operations put into key, membership and replication payloads is what the index reads from them |
| LedgerEvent.KeyIssuanceIff | src/core/ledger/ledger.cpp:138-176 | a key issue is read from exactly what begins with an encoded one |
| LedgerEvent.MembershipIff | src/core/ledger/ledger.cpp:178-215 | a membership is read from exactly what begins with an encoded one, role included |
| LedgerEvent.ReplicationIff | src/core/ledger/ledger.cpp:217-253 | a replication is read from exactly what begins with an encoded one |
| LedgerIndex.RebuildAgrees | src/core/ledger/ledger.cpp:306-442 | index refines log: for every log each query equals its meaning by kind and payload alone: in-order filters, h a host of c if and only if some replication event says so, members likewise, last join time, key totals modulo 2^32 |
| LedgerIndex.NoteMeans | src/core/ledger/ledger.cpp:312-350 | what the index makes of an event is what its kind and payload say |
| LedgerIndex.NoteEffects | src/core/ledger/ledger.cpp:306-351 | entering an event changes exactly the node, kind, join-time and key-total answers it should and no other |
| LedgerIndex.GroupEffects | src/core/ledger/ledger.cpp:306-351 | entering an event changes exactly the network and thing answers it should and no other |
| LedgerIndex.EnterKeys | src/core/ledger/ledger.cpp:321-328 | one entry keeps the key totals equal to the unbounded sum of issued counts modulo 2^32 |
| LedgerIndex.Indexer.AddEvent | src/core/ledger/ledger.cpp:306-351 | the in-place update of the eight maps is the specified entry |
| LedgerIndex.Indexer.RebuildFromEvents | src/core/ledger/ledger.cpp:353-358 | the rebuilt index agrees with the log on every query, whatever was in it before |
| LedgerIndex.Indexer.Clear | src/core/ledger/ledger.cpp:431-440 | all eight maps are emptied |
| Ledger.AddEventKeeps | src/core/ledger/ledger.cpp:496-549 | adding keeps log, lookup and index in step, and leaves a valid ledger exactly if it was valid or the event was accepted |
| Ledger.ApplyKeeps | src/core/ledger/ledger.cpp:496-565 | each recording or external addition keeps the ledger valid and only extends the log |
| Ledger.ReachableValid | src/core/ledger/ledger.cpp:458-565 | every run of recordings and external additions keeps: unbroken chain, cached tip equal to the last hash, lookup a bijection onto positions, index equal to a rebuild and in agreement with the log; the log only grows |
| Ledger.RecordAppendsIff | src/core/ledger/ledger.cpp:458-549 | a locally recorded event is appended if and only if its id is new; chain and clock checks never refuse it |
| LedgerRecording.IdMaterialInjective | src/core/ledger/ledger.cpp:470-482 | what is hashed into an id determines node, counter and clock |
| LedgerRecording.TagMaterialInjective | src/core/ledger/ledger.cpp:484-492 | what is hashed into the signature determines id, previous hash and payload |
| LedgerRecording.EveryRecordingAppended | src/core/ledger/ledger.cpp:458-526 | over every run of at most 2^64 recordings each is appended with its kind, payload, node, clock and epoch, if the digest tells the ids apart and no external event uses one |
| LedgerRecording.QueriesAnswer | src/core/ledger/ledger.cpp:551-649 | after a recorded replication, membership or join the matching query answers it |
| LedgerRecording.KeysAnswer | src/core/ledger/ledger.cpp:321-328 | a recorded key issue adds its count to the total of its node and type, modulo 2^32, and to no other |
| Ledger.ExternalAnswerIff | src/core/ledger/ledger.cpp:694-732 | the answer of an external addition is right if and only if it is not an empty ledger offered a first event over 300 s in the future, where it says yes and stores nothing |
| Ledger.HashSoundFromDigest | src/core/ledger/ledger.cpp:131-134 | a digest without collisions among the event encodings makes the chain hash tell the events apart |
| Ledger.TipDeterminesPrefix | src/core/ledger/ledger.cpp:15-53 | two unbroken chains with the same tip hash have the same length and the same events |
| Ledger.TipDeterminesHistory | src/core/ledger/ledger.cpp:496-549 | any two ledgers reached from empty have equal tips if and only if they hold identical event sequences |
| Ledger.LoadValidIff | src/core/ledger/ledger.cpp:768-800 | loading leaves a valid ledger if and only if the old tip was zero or some frame decodes to a timely event without predecessor: nothing else resets the tip |
| Ledger.WedgedUntilOpened | src/core/ledger/ledger.cpp:458-549 | after a load that fails, over every run, recordings are refused and the ledger stays empty and invalid exactly until an external first event comes |
| Ledger.WedgedStep | src/core/ledger/ledger.cpp:496-549 | with an empty log and a non-zero tip a recording changes nothing but the counter |
| Ledger.EmptyFileWedges | src/core/ledger/ledger.cpp:768-800 | a concrete failing load: a ledger with one recorded event loads the file of an empty one and then records nothing |
| LedgerFile.SaveToFile | src/core/ledger/ledger.cpp:745-766 | the file is the count and then every event behind its length |
| LedgerFile.FileReads | src/core/ledger/ledger.cpp:745-800 | the frames of a saved file are read back when every encoded event is under 2^32 bytes |
| LedgerFile.SaveLoadIff | src/core/ledger/ledger.cpp:745-800 | a saved valid ledger loads back, log, lookup, index and tip, if and only if every encoded event is under 2^32 bytes, none lies over 300 s in the future, and an empty log is not loaded over a tip |
| Framing.SplitFrames | src/network/router.cpp:139-158 | the reading loop over length-prefixed byte strings, ending with the first one that does not fit |
| Framing.FramesBack | src/network/router.cpp:93-158 | length-prefixed byte strings are read back from any position of their list on |
| LedgerStore.Store.constructor | src/core/ledger/ledger.cpp:444-451 | a new ledger is empty and valid |
| LedgerStore.Store.VerifyEventChain | src/core/ledger/ledger.cpp:710-732 | computes the chain check, which skips the timestamp on an empty ledger |
| LedgerStore.Store.VerifyEvent | src/core/ledger/ledger.cpp:528-549 | accepts exactly new ids that follow the tip and lie at most 300 s ahead |
| LedgerStore.Store.AddEvent | src/core/ledger/ledger.cpp:496-526 | updates log, lookup, index and tip together or not at all, and keeps the invariant |
| LedgerStore.Store.AddExternalEvent | src/core/ledger/ledger.cpp:694-708 | new state and answer of an external addition, including the answer that does not ask what was decided |
| LedgerStore.Store.RecordEvent | src/core/ledger/ledger.cpp:551-649 | creates, counts and adds an event of any kind and returns its id, or the zero hash if the id is known; the ledger stays valid |
| LedgerStore.Store.CreateEvent | src/core/ledger/ledger.cpp:458-494 | id from node, counter and clock; tip as previous hash; digest as signature; counter modulo 2^64 |
| LedgerStore.Store.GetEvent | src/core/ledger/ledger.cpp:651-657 | finds an event if and only if the log has one with that id |
| LedgerStore.Store.GetEventsByNode | src/core/ledger/ledger.cpp:659-671 | the path through the index returns exactly the in-order filter of the log |
| LedgerStore.Store.GetEventsByType | src/core/ledger/ledger.cpp:673-683 | the scan returns exactly the in-order filter of the log |
| LedgerStore.Store.ValidateChain | src/core/ledger/ledger.cpp:802-815 | true if and only if every link after the first event holds; always true on a coherent ledger |
| LedgerStore.Store.DetectConflicts | src/core/ledger/ledger.cpp:817-842 | lists exactly the ids stored more than once, in the order of their bytes, and then the broken links in log order; nothing on a coherent ledger |
| LedgerStore.Store.BrokenLinks | src/core/ledger/ledger.cpp:831-842 | the ids of the events with a broken link, in order |
| LedgerStore.BreaksAre | src/core/ledger/ledger.cpp:831-839 | they are the ids of the events behind the first whose previous hash is not that of the event before |
| LedgerStore.Store.LoadFromFile | src/core/ledger/ledger.cpp:768-800 | loads a complete file in place and says from its frames, the clock and the old tip when the result is valid; keeps log, lookup and index in step whatever the file |
| LedgerStore.Store.LoadFrames | src/core/ledger/ledger.cpp:784-795 | the loop over the events, skipping undecodable and refused ones |
| LedgerSync.ReceiveKeeps | src/network/ledger_sync.cpp:368-410 | a received event extends the log by itself or changes nothing; events handed to the state manager are in the log, once each; known ids change nothing |
| LedgerSync.ReceiveAllKeeps | src/network/ledger_sync.cpp:368-410 | a batch keeps the node invariant, only extends the log, and only by timely events of the batch with a source |
| LedgerSync.ResendIsNoop | src/network/ledger_sync.cpp:368-390 | re-sent events change neither ledger, seen set nor state manager |
| LedgerSync.CatchUpIff | src/network/ledger_sync.cpp:200-243 | a node fed the reply to a sync request ends with the log, tip and index of the sender if and only if its log is a prefix, the range covers every missing event, and each is timely and has a source |
| LedgerSync.MissingIsRest | src/network/state_reconciliation.cpp:270-288 | against a longer copy of the same log, the missing events are exactly the rest of it |
| LedgerSync.MergeConvergesIff | src/network/state_reconciliation.cpp:359-376 | merging a peer's log makes logs, tips and indexes equal if and only if the own log is a prefix of it and no missing event lies too far in the future |
| LedgerSync.MergeAnswerIff | src/network/state_reconciliation.cpp:359-376 | against a log that is ahead the merge answers yes if and only if no missing event lies too far in the future or an empty ledger is offered a single event |
| LedgerSync.MergeForked | src/network/state_reconciliation.cpp:359-376 | merging a forked or shorter log changes nothing; it answers yes if and only if every id of it is known |
| LedgerSync.ReceiveForked | src/network/ledger_sync.cpp:368-410 | events of a forked or shorter log change nothing at a node that receives them |
| LedgerSync.HandedIff | src/network/state_reconciliation.cpp:366-373 | the state manager is handed exactly what the log gained, unless a first event from the future reaches an empty ledger before any it can take |
| LedgerMerge.RunHandedIff | src/network/state_reconciliation.cpp:359-376 | over every run of merges, the state manager is handed exactly what the log gains if and only if no merge misfires |
| LedgerMerge.NoMisfireOnce | src/network/state_reconciliation.cpp:366-373 | over every run of merges without a misfire no event is handed over twice |
| LedgerMerge.MisfiresIffRepeatable | src/network/state_reconciliation.cpp:366-373 | a merge misfires if and only if some part of the same remote log, merged twice, hands an event over twice |
| LedgerBridge.Bridge.constructor | src/network/ledger_sync.cpp:115-122 | a new bridge has seen and applied nothing |
| LedgerBridge.Bridge.ValidateEventChain | src/network/ledger_sync.cpp:392-410 | timely, with a source, and chained unless its epoch lies ahead |
| LedgerBridge.Bridge.ProcessReceivedEvent | src/network/ledger_sync.cpp:368-390 | updates ledger, seen set and state manager as specified and keeps the node invariant |
| LedgerBridge.Bridge.HandleSyncRequest | src/network/ledger_sync.cpp:200-215 | the reply holds exactly the events of the epoch range, in log order |
| LedgerBridge.Bridge.HandleSyncResponse | src/network/ledger_sync.cpp:232-243 | takes the events one after the other and notes the last one as the state of the peer |
| LedgerBridge.FindMissingEvents | src/network/state_reconciliation.cpp:270-288 | the remote events whose id the log lacks, in remote order |
| LedgerBridge.ApplyMergeBoth | src/network/state_reconciliation.cpp:359-376 | the resulting ledger, the answer and the events handed on |
| Replication.TakenIsNext | src/network/ledger_sync.cpp:368-410 | an event of the writer that a replica takes is the very next one of the writer's log |
| Replication.StepSafe | src/network/ledger_sync.cpp:368-410 | every step (record, announce, reply, deliver) keeps all logs prefixes of the writer's and the network free of foreign events |
| Replication.ReplicasArePrefixes | src/network/ledger_sync.cpp:368-410 | single-writer safety: in every state of every schedule with loss, duplication and reordering, each log is a prefix of the writer's |
| Replication.ReplicasNeverFork | src/network/ledger_sync.cpp:368-410 | in every reachable state any two logs are prefixes of one another, and equal tips mean equal logs |
| Gossip.NotAgain | src/network/gossip.cpp:393-399 | a message handled once is refused for as long as its entry could have been forgotten, because the age limit is shorter than the memory |
| Gossip.YoungIff | src/network/gossip.cpp:393-399 | a message is young if it is at most 300 s old and not from the future, or so far ahead that the difference wraps |
| Gossip.HandledIff | src/network/gossip.cpp:601-621 | a message is handled if and only if it is unknown, young and below ten hops |
| Gossip.FirstCopyHandled | src/network/gossip.cpp:417-442 | over every run the first copy of a message that arrives in time and within ten hops is handled |
| Gossip.EchoIgnored | src/network/gossip.cpp:417-457 | what a node has broadcast or handled itself is not handled when it comes back |
| Gossip.CleanedIff | src/network/gossip.cpp:574-590 | cleanup forgets exactly what is older than 600 s |
| Gossip.HandledAtMostOnce | src/network/gossip.cpp:417-442 | over every run with a clock that does not go back, cleanups and broadcasts included, no (id, timestamp) reaches the handlers twice, if no entry under 300 s old is evicted |
| Gossip.SlowAtMostOnce | src/network/gossip.cpp:417-442 | the same for every run whose traffic brings fewer messages in any 300 s than the cache has room for |
| Gossip.AtMostOnceIff | src/network/gossip.cpp:417-442 | all runs of n operations from an empty node are at most once if and only if n is at most one more than the capacity of the cache |
| Gossip.RepeatHandledTwice | src/network/gossip.cpp:623-639 | the run that fails: one message, as many others as the cache has room for, and the first again is handled twice |
| Gossip.LargeCacheNeverEvicts | src/network/gossip.cpp:623-639 | a cache with room for every message of the run meets that condition |
| GossipNode.Protocol.constructor | src/network/gossip.cpp:407-415 | a new node has no peers, an empty cache, fanout 3 and room for 10000 entries |
| GossipNode.Protocol.AddPeer | src/network/gossip.cpp:535-545 | the peer list never holds a node twice |
| GossipNode.Protocol.GetRandomPeers | src/network/gossip.cpp:552-572 | min(count, peers) different peers, by erasing each pick from a working list |
| GossipNode.Protocol.HasSeenMessage | src/network/gossip.cpp:592-599 | true if and only if an entry carries the id |
| GossipNode.Protocol.MarkAsSeen | src/network/gossip.cpp:623-639 | a full cache drops its oldest entry before the new one goes in |
| GossipNode.Protocol.CleanupOldSeenMessages | src/network/gossip.cpp:574-590 | keeps exactly the entries of the last 600 s, in order |
| GossipNode.Protocol.ReceiveMessage | src/network/gossip.cpp:417-442 | handles and forwards with one more hop exactly the unseen, young messages below the hop limit; the cache moves as in the run model |
| GossipNode.Protocol.BroadcastMessage | src/network/gossip.cpp:444-457 | marks the message as seen and sends it to a possible choice of peers |
| GossipNetwork.ArrivalLowers | src/network/gossip.cpp:417-442 | every arrival or loss of a copy strictly lowers the potential of its message |
| GossipNetwork.RunPays | src/network/gossip.cpp:401-462 | over any run, all copies sent are paid for by the starting potential, the broadcasts and the direct messages |
| GossipNetwork.BroadcastDiesOut | src/network/gossip.cpp:401-457 | with fanouts of at most f, one broadcast causes at most f + f^2 + ... + f^11 sends on any topology and schedule |
| GossipNetwork.CopiesConserved | src/network/gossip.cpp:417-462 | conservation: every copy sent has arrived, was lost, or is still in flight |
| GossipNetwork.StepServes | src/network/gossip.cpp:417-442 | a node that accepts a copy of a message had not handled it before, if it evicts no young entry |
| GossipNetwork.ForwardedOnce | src/network/gossip.cpp:417-462 | with no young eviction every node forwards a message once: b broadcasts and d direct messages of it cause at most f * (b + nodes) + d sends |
| Serialization.Serialize | src/utils/serialization.cpp:111-146 | the appending code produces the specified encoding of any nested value |
| Serialization.AppendItems | src/utils/serialization.cpp:185-191 | count, then the items in order |
| Serialization.AppendEntries | src/utils/serialization.cpp:193-200 | count, then key and value of each entry in key order |
| Serialization.AppendText | src/utils/serialization.cpp:175-183 | length, then the bytes |
| Serialization.ParseValue | src/utils/serialization.cpp:268-294 | the recursive decoder computes the specified one and ends on every input, with the remaining bytes as measure |
| Serialization.ParseItems | src/utils/serialization.cpp:248-256 | the array loop, ending with the first undecodable item |
| Serialization.ParseEntries | src/utils/serialization.cpp:258-266 | the map loop, a repeated key overwriting the earlier value |
| Serialization.ParseScalar | src/utils/serialization.cpp:207-246 | bounds checks and results of all unnested types |
| Serialization.DecodeValue | src/utils/serialization.cpp:268-294 | every success consumes at least one byte and stays within the input |
| Serialization.ValueBack | src/utils/serialization.cpp:111-294 | wherever an encoding stands in a buffer, decoding there yields the value and stops right behind it |
| Serialization.RoundTrip | src/utils/serialization.cpp:111-294 | for every value and any suffix, decoding yields the value and consumes exactly its own bytes |
| Serialization.PrefixFree | src/utils/serialization.cpp:111-294 | a byte string starts with the encoding of at most one value |
| Serialization.InsertSorted | src/utils/serialization.cpp:258-266 | assigning to a map keeps its keys strictly ascending and brings in no other entry |
| Serialization.InsertAssigns | src/utils/serialization.cpp:258-266 | assigning to a key changes what is found under it and nothing else |
| Serialization.LooseInputs | src/utils/serialization.cpp:268-294 | any non-zero byte is a true flag and a tag above eight is no value |
| Serialization.DecodedWellFormed | src/utils/serialization.cpp:268-294 | whatever the input, a decoded value has sizes in range and map keys in strict order at every level |
| OnionRouting.LayerRoundTripIff | src/security/onion_routing.cpp:11-62 | a layer survives its wire format if and only if its ciphertext is shorter than 2^32 bytes |
| OnionRouting.ParsesIff | src/security/onion_routing.cpp:32-62 | a layer is parsed from exactly the byte strings that begin with its wire format, if its length fits |
| OnionRouting.PeelWrap | src/security/onion_routing.cpp:162-211 | the holder of the hop's secret key peels exactly what was wrapped |
| OnionRouting.PeelAt | src/security/onion_routing.cpp:66-160 | the hop at any position of any route finds in its layer what the route put there |
| OnionRouting.PeelGivesNext | src/security/onion_routing.cpp:66-105 | without routing prefixes, each hop finds the next layer's bytes and the last one the payload |
| OnionRouting.PayloadArrives | src/security/onion_routing.cpp:66-105 | travelling as bytes over a whole route, the payload arrives as long as the packet fits its length field |
| OnionRouting.RouteFitsIff | src/security/onion_routing.cpp:11-160 | every node of a route can parse the layer made for it if and only if payload + 52 (with routing 84) bytes a further hop are under 2^32 |
| OnionRouting.RelayIff | src/security/onion_routing.cpp:213-250 | a relay learns exactly the next hop and the next layer if and only if the payload and 84 bytes for each hop beyond the next are under 2^32 |
| OnionRouting.LastHopIff | src/security/onion_routing.cpp:213-250 | the last hop recovers the payload if and only if it is under 32 bytes |
| OnionRouting.LastHopCuts | src/security/onion_routing.cpp:228-248 | what the last hop gets of a longer payload: 32 bytes as an address, the rest as payload or layer |
| OnionRouting.BuildLayers | src/security/onion_routing.cpp:66-160 | both build loops, backwards and then reversed, produce the layers of the route |
| OnionRouting.PeelWithRouting | src/security/onion_routing.cpp:213-250 | answer and out-parameters of the peeler, unwritten ones keeping their value |
| Session.RunOk | src/network/session.cpp:129-322 | in every state of every run the ephemeral keys match and established keys are those derived from the exchange |
| Session.CompletesIff | src/network/session.cpp:129-301 | a handshake whose messages get through completes if and only if each arrives within 60 s of being sent and not before |
| Session.AlteredRefused | src/network/session.cpp:12-33 | a handshake altered in any field is refused, if the digest tells the contents apart |
| Session.FailureReopens | src/network/session.cpp:189-203 | a failed exchange leaves the session free to start over |
| Session.ClosedForGood | src/network/session.cpp:303-322 | a closed session holds no key and seals and opens nothing, whatever comes |
| Session.NonceInjective | src/network/session.cpp:481-497 | a nonce determines its counter and its random part |
| Session.OpensOnlyFrames | src/network/session.cpp:356-363 | only an established session opens frames, and none under 28 bytes |
| Session.KeysAgreeIff | src/network/session.cpp:437-479 | parties that hold each other's ephemeral keys have mirrored session keys if and only if they play different roles, and the same keys if and only if they play the same role |
| Session.FramesDeliver | src/network/session.cpp:324-382 | a frame sealed by one side opens at the other to its plaintext |
| SessionLink.HandshakeAgreesIff | src/network/session.cpp:129-301 | over every run in which either party may initiate, answer and take any handshake in either role: established parties that hold each other's keys have mirrored keys if and only if exactly one of them initiated, and then read each other's messages |
| SessionLink.EstablishedArePaired | src/network/session.cpp:129-301 | if exchanges with proper keys never fail, established parties hold each other's keys, and these are mirrored if and only if they did not both initiate |
| SessionLink.BothInitiateClash | src/network/session.cpp:162-213 | the run that fails, for any two parties and secrets: both initiate, both establish with the same keys, and their first messages share key and nonce |
| SessionLink.PairsNeverRepeat | src/network/session.cpp:324-354 | over every run of two parties that end in different roles, no (key, nonce) pair is used twice by one side or across sides within 2^64 messages each |
| SessionLink.SharedKeyIff | src/network/session.cpp:324-354 | the i-th messages of two parties that hold each other's keys carry the same counter and are sealed under the same key if and only if the roles are equal |
| Session.NoncesNeverRepeat | src/network/session.cpp:481-497 | over every run of one session no nonce repeats within 2^64 messages |
| Session.CounterComesBack | src/network/session.cpp:481-497 | the bound is sharp: 2^64 messages later the eight counter bytes are the same |
| Session.DirectionsDiffer | src/network/session.cpp:437-473 | the two directions have different keys if the digest tells their key material apart |
| SessionChannel.Channel.constructor | src/network/session.cpp:108-123 | a new session is disconnected with zero keys |
| SessionChannel.Channel.InitiateHandshake | src/network/session.cpp:129-160 | state and message of the first step, refused outside the disconnected state |
| SessionChannel.Channel.HandleHandshakeResponse | src/network/session.cpp:162-213 | establishes from a fresh, intact response to an open handshake, and says so exactly then |
| SessionChannel.Channel.HandleHandshakeInit | src/network/session.cpp:215-250 | takes a fresh, intact first message when disconnected, and says so exactly then |
| SessionChannel.Channel.SendHandshakeResponse | src/network/session.cpp:252-301 | establishes and answers, or falls back when the exchange fails |
| SessionChannel.Channel.DeriveSessionKeys | src/network/session.cpp:437-479 | the two digests, assigned by role |
| SessionChannel.Channel.Close | src/network/session.cpp:303-322 | wipes ephemeral and session keys; a second call does nothing |
| SessionChannel.Channel.EncryptMessage | src/network/session.cpp:324-354 | frame, counter and message count; nothing happens unless established |
| SessionChannel.Channel.DecryptMessage | src/network/session.cpp:356-382 | opens a frame of at least 28 bytes with the receiving key; counts successes only |
| RateLimiter.TokenBucketBound | src/security/attack_prevention.cpp:21-95 | from any reachable bucket, requests admitted between s > 0 and t are at most burst + (t - s) * rpm / 60 |
| RateLimiter.TokenBucketBoundIff | src/security/attack_prevention.cpp:21-95 | that bound holds of every policy and run from a given time on if and only if that time is not zero |
| RateLimiter.WindowBound | src/security/attack_prevention.cpp:28-57 | in any interval shorter than a window at most twice its limit is admitted, for the minute and for the hour, at any time |
| RateLimiter.SegmentBounds | src/security/attack_prevention.cpp:21-95 | the bounds for any stretch of any run of a client, time zero included but for the burst bound |
| RateLimiter.RefusedOnlyForCause | src/security/attack_prevention.cpp:21-57 | a request after time zero is refused only if the minute's allowance was used in the last 60 s, the hour's in the last 3600 s, or the burst and the gain since some earlier request are spent |
| RateLimiter.SpentIff | src/security/attack_prevention.cpp:78-95 | the tokens run out if and only if, for some earlier request, burst plus the gain since then less the admissions since then is under one |
| RateLimiter.StaleIsNew | src/security/attack_prevention.cpp:63-95 | a bucket idle for over two hours behaves as a new one: its deficit never exceeds two minutes' spending |
| RateLimiter.CleanupUnobservable | src/security/attack_prevention.cpp:59-76 | for every policy and every run after time zero, a limiter that cleans up gives the same answers as one that never does |
| RateLimiter.CleanupUnobservableIff | src/security/attack_prevention.cpp:59-95 | cleanup is unobservable in all runs from a given time on if and only if that time is not zero |
| RateLimiter.ClockZeroBreaks | src/security/attack_prevention.cpp:78-86 | at time zero, which marks a new bucket, a cleanup changes an answer and every request finds the bucket full |
| RateLimiter.Limiter.constructor | src/security/attack_prevention.cpp:13-19 | a new limiter has no buckets |
| RateLimiter.Limiter.AllowRequest | src/security/attack_prevention.cpp:21-57 | answer, bucket and counters of a request, admitted or not |
| RateLimiter.Limiter.RefillTokens | src/security/attack_prevention.cpp:78-95 | first use fills the bucket; later ones add the elapsed gain up to the burst |
| RateLimiter.CleanupIff | src/security/attack_prevention.cpp:63-76 | cleanup removes exactly the clients not heard of for over 7200 s |
| RateLimiter.Limiter.CleanupStaleEntries | src/security/attack_prevention.cpp:63-76 | removes exactly the buckets idle for over 7200 s |
| Redundancy.MarkAt | src/network/network.cpp:314-324 | exactly the member with the id gets the flag and nothing else changes |
| Redundancy.StripAllAt | src/network/network.cpp:738-746 | exactly the listed members lose their replica and nothing else changes |
| Redundancy.StripAllCosts | src/network/network.cpp:141-149 | stripping n ids costs at most n active replicas and never adds one |
| Redundancy.StrippingIsSafe | src/network/network.cpp:710-832 | a chosen removal never takes active replicas from above the target or minimum to below it, strips only members under 0.5, keeps no less reliable holder, and stops early only when no unreliable holder is left |
| Redundancy.SelectNodesForRemoval | src/network/network.cpp:797-832 | the least reliable holders below 0.5, all of them or as many as allowed, without repetition |
| Redundancy.SortByReliability | src/network/network.cpp:815-819 | an ascending permutation |
| Redundancy.CountActive | src/network/network.cpp:141-149 | the number of active members with a replica |
| Redundancy.ActiveReplicasAre | src/network/network.cpp:141-149 | the count is of the positions that hold a replica and are active |
| Redundancy.ActiveIff | src/network/network.cpp:506-513 | a member is active for 3600 s after it was last seen |
| Redundancy.TargetShape | src/network/network.cpp:752-767 | the target by size: all of three, five up to fourteen, one more for every five, ten at most; it grows with the size |
| Redundancy.RemovableIs | src/network/network.cpp:821-824 | as many may go as keep target and minimum, and the excess alone below the minimum, where the subtraction wraps |
| Redundancy.ListHolders | src/network/network.cpp:807-812 | the replica holders in member order |
| Redundancy.Network.AddMember | src/network/network.cpp:85-107 | adds a member if and only if its id is new and there is room; ids stay unique |
| Redundancy.Network.MarkReplica | src/network/network.cpp:314-324 | sets or clears the replica flag of the first member with the id |
| Redundancy.Network.HasUnreliableHolder | src/network/network.cpp:777-795 | true if and only if some replica holder is under 0.5 |
| Redundancy.Network.AdjustRedundancy | src/network/network.cpp:710-750 | sets the target for the size, keeps every safety clause against the new target, and reports a change exactly when there is one |
| ReplicationScheduler.SortOrdered | src/network/network.cpp:1056-1072 | sorting gives an ordered permutation |
| ReplicationScheduler.SortStable | src/network/network.cpp:1056-1072 | jobs that compare equal keep their order |
| ReplicationScheduler.NextIsMaximal | src/network/network.cpp:885-898 | a job is handed out if and only if fewer than five run and one is pending, and it has the highest priority of the pending ones |
| ReplicationScheduler.NextIsFirst | src/network/network.cpp:890-895 | no pending job stands before the one handed out |
| ReplicationScheduler.StartsThatJob | src/network/network.cpp:900-913 | starting the job just handed out changes that job and no other, duplicates included |
| ReplicationScheduler.StartsItIff | src/network/network.cpp:900-913 | its own request starts a waiting job if and only if no waiting job before it has the same network and node |
| ReplicationScheduler.UniqueStartsIt | src/network/network.cpp:900-913 | without live duplicates, a returned job that still waits is the one that is started, whenever that happens |
| ReplicationScheduler.ScheduleOrdered | src/network/network.cpp:838-1015 | over every run of request, cancel, fetch, start, complete, retry and cleanup, with starts at any time: pending jobs in priority order and the next job maximal |
| ReplicationScheduler.WithinFiveIff | src/network/network.cpp:885-939 | over every run, at most five jobs are active at all times if and only if every start finds fewer than five or nothing to start |
| ReplicationScheduler.PromptWithinFive | src/network/network.cpp:885-939 | a dispatcher that starts each job it was handed before it asks for the next never has more than five active |
| ReplicationScheduler.OvertakingExceedsFive | src/network/network.cpp:885-913 | a run that starts only returned requests, each once, with live jobs unique throughout, and has six active: a job of higher priority is queued and fetched before the first is started |
| ReplicationScheduler.DoubleStart | src/network/network.cpp:900-913 | with a live duplicate, starting one returned request twice starts two jobs |
| ReplicationScheduler.QueueKeepsUnique | src/network/network.cpp:838-868 | a request never creates a second live job for the same network and node |
| ReplicationScheduler.RetryUniqueIff | src/network/network.cpp:979-993 | a retry keeps live jobs unique if and only if no job it revives shares its network and node with a live or revived one |
| ReplicationScheduler.RetryCanDuplicate | src/network/network.cpp:979-993 | a run of a prompt dispatcher that ends in a live duplicate: fail, request again, retry |
| ReplicationScheduler.AlwaysUniqueIff | src/network/network.cpp:838-1015 | over every run, live jobs stay unique throughout if and only if each retry revives no job that shares network and node with a live or revived one |
| ReplicationScheduler.CleanupExactly | src/network/network.cpp:995-1015 | cleanup leaves the waiting and running jobs as they are, in order, and keeps of the others exactly the recent ones |
| ReplicationScheduler.CancelExactly | src/network/network.cpp:870-883 | after a cancel no live job of the network and node is left, and every other job is untouched |
| ReplicationScheduler.RetryExactly | src/network/network.cpp:979-993 | a retry brings back exactly the failed jobs with retries left, one retry used, and changes no other |
| ReplicationScheduler.CompleteCases | src/network/network.cpp:915-939 | a completion ends the first running job of the key, as success or failure, and changes no other |
| ReplicationScheduler.LiveUntilEnded | src/network/network.cpp:838-1015 | conservation over every run: a live job stays live until a cancel or a completion of its network and node |
| ReplicationScheduler.RequestedStaysLive | src/network/network.cpp:838-868 | over every run, once requested, a network and node have a live job until a cancel or a completion |
| ReplicationScheduler.HandedOutStaysLive | src/network/network.cpp:885-898 | over every run, a job handed out stays until a cancel or a completion |
| ReplicationScheduler.RetriesBounded | src/network/network.cpp:979-993 | over every run no job is revived more often than the retries allow |
| ReplicationScheduler.Coordinator.RequestReplication | src/network/network.cpp:838-868 | queues and sorts unless a live job has the same network and node |
| ReplicationScheduler.Coordinator.CancelReplication | src/network/network.cpp:870-883 | cancels every live job of the network and node and nothing else |
| ReplicationScheduler.Coordinator.ActiveJobCount | src/network/network.cpp:975-977 | the number of jobs in progress |
| ReplicationScheduler.Coordinator.GetNextJob | src/network/network.cpp:885-898 | the first pending job while fewer than five run |
| ReplicationScheduler.Coordinator.MarkJobStarted | src/network/network.cpp:900-913 | the first pending match starts, nothing else moves |
| ReplicationScheduler.Coordinator.MarkJobCompleted | src/network/network.cpp:915-939 | the first running match completes or fails, nothing else moves |
| ReplicationScheduler.Coordinator.RetryFailedJobs | src/network/network.cpp:979-993 | revives every failed job with retries left, then sorts |
| ReplicationScheduler.Coordinator.CleanupOldJobs | src/network/network.cpp:995-1015 | keeps live jobs and recent others, in order; ages are compared in clock ticks |
| TokenRevocation.IdDetermines | src/security/token_revocation.cpp:121-138 | the bytes hashed into an id determine every field but the signature |
| TokenRevocation.IndexesAgree | src/security/token_revocation.cpp:244-301 | in every reachable state both indexes list exactly the stored revocations, seen ids are stored, no node is over its limit, and a token is revoked if and only if a stored revocation matches it |
| TokenRevocation.AcceptedAtMostOnce | src/security/token_revocation.cpp:358-387 | over every run with a clock that does not go back, no revocation id is accepted twice: it is forgotten only once it has expired, and expiry never ends |
| TokenRevocation.RevokedIff | src/security/token_revocation.cpp:283-301 | the check through the node index answers as a search of the whole store |
| TokenRevocation.RevokedOnlyBy | src/security/token_revocation.cpp:12-35 | over every run a token is revoked only by an operation that concerns its node, capability and context and is younger than it |
| TokenRevocation.RevokedUntilExpiry | src/security/token_revocation.cpp:244-301 | over every run, what a revocation that gets in concerns stays revoked until a cleanup finds it expired |
| TokenRevocation.PutIn | src/security/token_revocation.cpp:378-385 | what a revocation that gets in leaves behind: the entry, its witness, and, from the network only, a seen id |
| TokenRevocation.ExpiredIff | src/security/token_revocation.cpp:492-496 | expiry is revocation time plus days, if nothing overflows |
| TokenRevocation.WithoutInv | src/security/token_revocation.cpp:468-490 | removing any set of ids keeps the index agreement |
| TokenRevocation.WithoutStep | src/security/token_revocation.cpp:525-548 | erasing an id from its own two index entries erases it everywhere |
| TokenRevocation.AddInv | src/security/token_revocation.cpp:517-523 | entering a revocation keeps both indexes in exact agreement with the store and every node within its limit |
| TokenRevocation.LimitKeptIff | src/security/token_revocation.cpp:260-265 | over all runs, no node is ever over the limit if and only if the limit is not zero, which still lets one through |
| TokenRevocation.Manager.constructor | src/security/token_revocation.cpp:236-242 | a new manager is empty |
| TokenRevocation.Manager.AddToIndexes | src/security/token_revocation.cpp:517-523 | indexes that listed exactly what was stored list exactly what is stored with the new entry, each id under its own node and capability |
| TokenRevocation.Manager.RevokeToken | src/security/token_revocation.cpp:244-281 | stores and indexes a local revocation, not marked as seen, unless the node is at its limit |
| TokenRevocation.Manager.ProcessRevocation | src/security/token_revocation.cpp:358-387 | takes exactly unseen, unexpired revocations at most 300 s ahead for a node below its limit |
| TokenRevocation.Manager.IsTokenRevoked | src/security/token_revocation.cpp:283-301 | the loop finds a match if and only if the node's index entry has one |
| TokenRevocation.Manager.RemoveFromIndexes | src/security/token_revocation.cpp:525-548 | the id leaves both indexes and the seen set; emptied entries go |
| TokenRevocation.Manager.CleanupExpiredRevocations | src/security/token_revocation.cpp:468-496 | removes exactly the expired revocations everywhere and keeps the invariant |
| ContentIntegrity.RootInjective | src/security/content_integrity.cpp:59-93 | levels of equal length with equal roots are equal |
| ContentIntegrity.MerkleBinding | src/security/content_integrity.cpp:38-93 | contents of equal length under the same chunk size have equal roots if and only if they are equal |
| ContentIntegrity.RootsAgreeIff | src/security/content_integrity.cpp:38-93 | without chunks of 64 bytes, contents of any lengths cut at any two sizes have equal roots if and only if they are cut into the same chunks |
| ContentIntegrity.MerkleBindingAnyLength | src/security/content_integrity.cpp:38-93 | without chunks of 64 bytes, contents of any two lengths have equal roots if and only if they are equal |
| ContentIntegrity.BindsAnyLengthIff | src/security/content_integrity.cpp:38-93 | roots bind contents of whatever lengths if and only if the chunk size is under 64 bytes |
| ContentIntegrity.NoPairSizedIff | src/security/content_integrity.cpp:45-49 | whether a content has a chunk of 64 bytes follows from its length and the chunk size |
| ContentIntegrity.PairForges | src/security/content_integrity.cpp:51-87 | leaves and inner nodes are hashed alike: the two leaf digests of a content of two chunks are a 64-byte content with the same root |
| ContentIntegrity.MetadataBinding | src/security/content_integrity.cpp:118-174 | metadata made at the default chunk size verifies for a content if and only if it is the one it was made of |
| ContentIntegrity.TamperedRefused | src/security/content_integrity.cpp:149-174 | metadata with another size, digest or root is refused for its content |
| ContentIntegrity.ChunkHashesBind | src/security/content_integrity.cpp:131-137 | the chunk digests belong to one content only, one for each chunk begun |
| ContentIntegrity.SmallContentVerifies | src/security/content_integrity.cpp:149-174 | metadata of a content that is a single chunk at both sizes verifies whatever the size it was made at |
| ContentIntegrity.OtherSizeVerifiesIff | src/security/content_integrity.cpp:118-174 | metadata is accepted for its own content if it was made at the default chunk size or the content is a single chunk at both sizes, and only then unless one of the sizes cuts off a chunk of 64 bytes |
| ContentIntegrity.HashChunks | src/security/content_integrity.cpp:42-57 | the leaf loop hashes the chunks in order |
| ContentIntegrity.NextLevel | src/security/content_integrity.cpp:63-87 | neighbours hashed together, an odd last one moved up |
| ContentIntegrity.BuildMerkleTree | src/security/content_integrity.cpp:38-93 | the level loop ends and computes the root; no content gives the zero hash |
| ContentIntegrity.GenerateMetadata | src/security/content_integrity.cpp:118-147 | size, digest, root and chunk digests |
| ContentIntegrity.VerifyMetadata | src/security/content_integrity.cpp:149-174 | size, digest and root at the default chunk size, in that order |
| Router.XorWithKeystream | src/network/router.cpp:20-37 | the block-by-block loop masks byte i with byte i of the key stream, the block counter wrapping at 2^32 |
| Router.MaskTwice | src/network/router.cpp:20-37 | masking is an involution |
| Router.XorBitwise | src/network/router.cpp:31-33 | bit by bit the exclusive or is the sum modulo two |
| Router.MaskOfZeros | src/network/router.cpp:20-37 | byte i of the key stream is byte i mod 32 of block i / 32 |
| Router.BlocksDiffer | src/network/router.cpp:24-29 | blocks differ from node to node and from block to block, if the digest tells their inputs apart |
| Router.UnwrapWrap | src/network/router.cpp:844-898 | a node takes off exactly the layer made for it |
| Router.UnwrapIff | src/network/router.cpp:877-898 | a node opens exactly the layers made for it, with whatever next hop |
| Router.RouteNamesHops | src/network/router.cpp:855-863 | each node's layer names the node after it, the last one's none |
| Router.RouteDelivers | src/network/router.cpp:844-898 | peeling at each node of any route in turn recovers the payload |
| Router.CreateOnionLayers | src/network/router.cpp:844-875 | the backward loop builds the onion of the route |
| Router.ParseRequest | src/network/router.cpp:105-162 | the layer loop computes the specified decoder on every input |
| Router.RequestRoundTrip | src/network/router.cpp:68-162 | a request whose counts and lengths fit their fields decodes to itself |
| Router.RequestDecodesIff | src/network/router.cpp:105-162 | a request is read from exactly the byte strings that begin with its encoding, if it fits |
| Router.RequestRoundTripIff | src/network/router.cpp:68-162 | the round trip holds if and only if there are under 2^16 layers, each under 2^32 bytes |
| Router.DepthBound | src/network/router.cpp:614-641 | handling ends for every input: each level of recursion costs the first layer at least 146 bytes |
| Router.HandledExactly | src/network/router.cpp:614-695 | what becomes of the innermost request: served content is answered; else it is passed on with exactly one hop less and nothing else changed, or refused exactly if it has one hop, is the node's own, or has no route |
| Router.ForwardsArePlain | src/network/router.cpp:614-695 | whatever comes in, what is forwarded has no layers, a hop left, a route, and is not the node's own request |
| Router.HopsRunOut | src/network/router.cpp:686-694 | along any chain of routers a request with limit h is passed on at most h - 1 times |
| Router.HopsAreUsed | src/network/router.cpp:825-838 | along a chain of nodes that all pass it on it gets exactly that far |
| Router.LayeredHopsRunOut | src/network/router.cpp:614-641 | with layers the limit is that of the request under them |
| Router.OneHopDelivers | src/network/router.cpp:575-641 | over a one-hop route the hop handles exactly the request that was wrapped |
| Router.FirstHopReadsIff | src/network/router.cpp:575-641 | the first hop parses the packet of the hop after it as a request, and reads the original one if and only if the packet begins with it: always over one hop, over more only if the content hash begins with the mark of a layer |
| Router.ContentRouter.constructor | src/network/router.cpp:524-535 | a new router has counted nothing |
| Router.ContentRouter.HandleContentRequest | src/network/router.cpp:614-695 | outcome and counters, one received request a level of recursion |

## Left out

- Sockets, the HTTP gateway, WebSockets, STUN, file storage, configuration, logging and the command line: input and output only.
- The wrappers around libsodium and BLAKE3: abstract, as described above.
- The state manager, reputation, proof of stake and content objects: `apply_event` is modelled as appending to a list of applied events.
- Quorum reconciliation, automatic reconciliation and remote preference: they compare the hash of an event list with a tip hash, which are different quantities.
- The traffic padding engine, whose removal reads the length from another position than the one it is written to, and HTML sanitizing.
- Peer scoring, statistics, string output, threads and locks: easy members or outside a sequential model.
- Host selection in the routing table: whether a route exists is a parameter of the handler.
- The byte formats of sync and gossip messages: requests and responses are modelled at the handlers. A sync message without events has 53 bytes and is below the 57-byte guard of its decoder.
- Ledger files that end early, on which the code reads a size of indeterminate value; integers in the file are little-endian, as on the machines the code is built for.
- LedgerStore.Store.LoadFromFile: promises nothing but the invariant of a file that ends early, for the reason just given.
- GossipNode.Protocol.MarkAsSeen: does not model a cache of capacity zero, for which the code erases from an empty list and its behaviour is undefined; the model skips that step, and `Gossip.AtMostOnceIff` asks for a capacity of at least one.
- ContentIntegrity.OtherSizeVerifiesIff: leaves open whether metadata of another chunk size can be accepted when a chunk has exactly 64 bytes, which would take a content that holds digests of itself.
- Children, offset and length of Merkle nodes: only the hashes take part in any check.
- The session manager, rekeying, timeouts, and the timestamps and byte counts of a session.
- Size fields so large that adding them to the offset wraps: the serializer and the model both fail on them, the former in an allocation.
- Decoding then encoding is not the identity: a true flag may be any non-zero byte and map entries may come in any order.
- OnionRouting.PayloadArrives: goes one way only, since nothing is assumed about opening a packet that was cut by its length field; `OnionRouting.RouteFitsIff` says exactly when none is cut.
- RateLimiter.SegmentBounds: is about real numbers; the rounding of doubles is not modelled.
- SessionLink.PairsNeverRepeat: two parties in equal roles are left to `SessionLink.SharedKeyIff` and `SessionLink.BothInitiateClash`: they share key and counter, and whether a pair repeats depends on four random bytes.
- Redundancy.SortByReliability: states what is known of an unstable sort, not the order of equal elements.
