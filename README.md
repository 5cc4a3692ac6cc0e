# QRL peer-to-peer factory: a verified model

This project models the sequential core of QRL's `P2PFactory` (`qrl/core/p2pfactory.py`). That is the Twisted server factory a QRL node uses to talk to its peers. The model covers:

- **RFM (request full message).** For a hash that peers announced, the factory asks the first announcing peer not yet asked for the full payload. It arms a retry timer, and it drops the `requested_hash` entry once the payload is known or every announcer has been asked.
- **select_best_bkmr.** It pops the best (lowest score) block candidate from `bkmr_priorityq`. If the chain already holds a better block at the tracked number, it drops the whole queue. Otherwise it requests the candidate's block and reschedules itself after 5 seconds.
- **register_and_broadcast / broadcast / send_block_to_peers.** These register local data in the message-receipt registry (`master_mr`), then announce it (an MR record) to every session except the peers that announced that hash. A block announce carries the reveal hash only from block number 2 on.
- **get_synced_state / ping_peers.** Each sends SYNC or PING to every session, in `peer_connections` order.
- **connect_peers.** It dials port 9000 on every configured address that no current session's host matches.

The factory is the class `P2PFactory.Factory` and the registry is the class `RequestTracking.MessageReceipt`. Everything the factory does to the outside world is appended, in order, to the field `effects`:

- socket writes;
- `reactor.callLater` timers (a timer's handle is the index of its entry in the log);
- `reactor.connectTCP` attempts;
- registry registrations.

Each method's postcondition states its new state and the exact suffix it appends to the log. That suffix is given in terms of specification functions, and their properties are proved as lemmas:

- `RfmSpec` for one RFM step;
- `RetryTrace` for repeated retries;
- `Select` for a select_best_bkmr decision;
- `Recipients` and `Writes` for broadcast;
- `Unconnected` and `Connects` for connect_peers.

Files:
- `messages.dfy` (`Messages`): hashes, peers, the MR record, wire messages, effects, and the records built for announces.
- `request_tracking.dfy` (`RequestTracking`): request entries, the RFM step and its retry lemmas, and the registry class.
- `bkmr_queue.dfy` (`BkmrQueue`): the candidate queue as a sorted sequence, and the selection decision.
- `peer_sets.dfy` (`PeerSets`): which sessions get a broadcast and which addresses get dialled.
- `factory.dfy` (`P2PFactory`): the factory class.

## Model

| member | source | states |
|---|---|---|
| Messages.MinimalMR | qrl/core/p2pfactory.py:213-216 | the record broadcast builds without data carries exactly the hash and type, with every other field unset |
| Messages.BlockAnnounce | qrl/core/p2pfactory.py:155-161 | a block announce carries the block's stake selector, number and previous header hash; it carries a reveal hash if and only if the block number exceeds 1, and then the block's own one; the type is unset until stamped |
| Messages.Stamped | qrl/core/p2pfactory.py:195-199 | the announced record has the given hash and type; every other field comes from the supplied record, or is unset when none is supplied |
| RequestTracking.FirstUnaskedSpec | qrl/core/p2pfactory.py:94-97 | the peer picked was not asked yet, and every announcer before it in announce order was; no pick means every announcer was asked |
| RequestTracking.FirstUnaskedAt | qrl/core/p2pfactory.py:94-97 | the loop's first un-asked peer, at position i, is exactly the one picked |
| RequestTracking.AskNextSpec | qrl/core/p2pfactory.py:94-104 | a retry gives up if and only if every announcer was asked; otherwise it asks an announcer not asked before, appends exactly that peer to the asked list, records the new timer and keeps the announcer list |
| RequestTracking.AskNextAsksFirst | qrl/core/p2pfactory.py:94-97 | the peer a retry asks is the first announcer, in announce order, not asked yet: every announcer before it was asked |
| RequestTracking.AskNextKeepsAskedDistinct | qrl/core/p2pfactory.py:95-97 | the asked list never gains a duplicate |
| RequestTracking.RfmSpecCases | qrl/core/p2pfactory.py:85-110 | the lookup fails (KeyError) if and only if the payload is unknown and there is no entry, and then nothing changes; other hashes' entries are untouched; a known payload loses its entry and nothing is sent; a surviving entry gained exactly one new asked peer, the first un-asked announcer in announce order, which gets exactly one SFM, with one retry timer for the receipt timeout; an entry dropped while the payload is unknown had every announcer asked |
| RequestTracking.RfmKnownIdempotent | qrl/core/p2pfactory.py:87-90 | after RFM on a known payload, a second call changes nothing and sends nothing |
| RequestTracking.RetryTraceIgnoresTimer | qrl/core/p2pfactory.py:100-103 | which peers retries ask, and whether they drop the entry, does not depend on the handle of the timer last armed |
| RequestTracking.RetriesAskEachCandidateOnce | qrl/core/p2pfactory.py:94-110 | more retries than there are un-asked announcers ask each of them exactly once, and no one else, then drop the entry |
| RequestTracking.RetriesEndInDrop | qrl/core/p2pfactory.py:106-110 | after as many retries as there are un-asked announcers, plus one, the entry has been dropped |
| RequestTracking.RetriesAskOnlyUnasked | qrl/core/p2pfactory.py:94-97 | any number of retries asks distinct peers, each an announcer not asked before |
| RequestTracking.DroppedAfterAskingAll | qrl/core/p2pfactory.py:106-110 | retries that dropped the entry had asked every announcer not asked before |
| RequestTracking.RetriesFollowAnnounceOrder | qrl/core/p2pfactory.py:94-110 | for a fresh entry with distinct announcers, retries ask them exactly in announce order and the call after the last one drops the entry |
| RequestTracking.RetriesFromPrefix | qrl/core/p2pfactory.py:94-110 | once the first k announcers were asked, the remaining retries ask the rest in order and then drop the entry |
| RequestTracking.UnaskedShrinks | qrl/core/p2pfactory.py:97 | appending an un-asked announcer to the asked list removes exactly that peer from the un-asked ones |
| RequestTracking.MessageReceipt.Register | qrl/core/p2pfactory.py:192 | registering makes the payload known under its hash and leaves the request entries alone |
| BkmrQueue.SortedTail | qrl/core/p2pfactory.py:115 | popping the minimum keeps the queue in (score, hash) order |
| BkmrQueue.HeadHasLowestScore | qrl/core/p2pfactory.py:115 | the popped candidate has the lowest score in the queue |
| BkmrQueue.PruneDiscardsOnlyWorse | qrl/core/p2pfactory.py:116-121 | when the queue is dropped, every candidate in it scored worse than the chain's block at the tracked number |
| BkmrQueue.PromoteTakesBest | qrl/core/p2pfactory.py:116-129 | a promoted candidate is no worse than the chain's block (ties included) whenever that score is consulted, and no queued candidate scores lower |
| PeerSets.HostsAt | qrl/core/p2pfactory.py:263-266 | an address has a session if and only if some session in the list has that remote host |
| PeerSets.RecipientsIgnoringNone | qrl/core/p2pfactory.py:209-211 | without a request entry, broadcast reaches every session, in order |
| PeerSets.RecipientsMembers | qrl/core/p2pfactory.py:218-221 | a session gets the announce if and only if it is connected and not among the hash's announcers |
| PeerSets.RecipientsCounts | qrl/core/p2pfactory.py:218-221 | each such session gets it exactly as often as it appears in peer_connections; announcers get nothing |
| PeerSets.UnconnectedMembers | qrl/core/p2pfactory.py:260-269 | an address is dialled if and only if it is configured and no session's host matches it |
| PeerSets.UnconnectedCounts | qrl/core/p2pfactory.py:260-269 | each such address is dialled exactly as often as it is configured |
| PeerSets.WritesAt | qrl/core/p2pfactory.py:184-185 | a loop over sessions writes exactly once to each, in session order |
| PeerSets.ConnectsAt | qrl/core/p2pfactory.py:269 | exactly one connection attempt per dialled address, in order, on the given port |
| PeerSets.ConnectPeersIdempotent | qrl/core/p2pfactory.py:260-269 | once every address it dialled has a session and no session was lost, a second connect_peers dials nothing |
| P2PFactory.Factory.constructor | qrl/core/p2pfactory.py:44-57 | a new factory has no sessions, no synced peers, an empty candidate queue tracking block 0, no live reselect timer, no ping time and no effects |
| P2PFactory.Factory.GetSyncedState | qrl/core/p2pfactory.py:69-72 | the synced set is emptied and one SYNC is written to each session, in order |
| P2PFactory.Factory.Rfm | qrl/core/p2pfactory.py:74-110 | the registry's request table, the effects appended and the KeyError outcome are exactly those of one RFM step (RfmSpec), with the retry timer's handle being its position in the log; known payloads are not touched |
| P2PFactory.Factory.SelectBestBkmr | qrl/core/p2pfactory.py:112-134 | empty queue: nothing changes; a losing best candidate: the queue is emptied and nothing is sent or rescheduled; otherwise: the best candidate is popped and its block is requested with type BK as by RFM; unless that raised KeyError, a reselect is scheduled after 5 and becomes the live processor handle; the queue stays sorted |
| P2PFactory.Factory.PingPeers | qrl/core/p2pfactory.py:179-186 | the ping time is recorded and one PING is written to each session, in order |
| P2PFactory.Factory.RegisterAndBroadcast | qrl/core/p2pfactory.py:190-201 | the payload is registered first, then the record stamped with the hash and type is announced to exactly the broadcast recipients; request entries are untouched |
| P2PFactory.Factory.Broadcast | qrl/core/p2pfactory.py:203-221 | one MR is written to each session outside the hash's announcers, in peer_connections order (the minimal record when none is given); the registry is not modified |
| P2PFactory.Factory.SendBlockToPeers | qrl/core/p2pfactory.py:153-167 | the block is registered under its header hash with type BK, then its announce record (reveal hash only past block 1) is broadcast |
| P2PFactory.Factory.HasSession | qrl/core/p2pfactory.py:262-266 | the search finds a session exactly when some session's remote host equals the address |
| P2PFactory.Factory.ConnectPeers | qrl/core/p2pfactory.py:248-269 | exactly the configured addresses without a session are dialled on port 9000, in configuration order |

## Left out

- The Twisted reactor is not modelled. Timers, connection attempts and writes are entries in the effect log; nothing fires or runs concurrently. The code never cancels a live timer it replaces: RFM overwrites `callLater` (line 103) and select_best_bkmr overwrites `bkmr_processor` (line 129). The model therefore has no cancel effect either.
- The source constructor sets `master_mr` to `None` (line 31), and only `setPOS` (lines 64-66) supplies the registry. `Factory`'s constructor takes the registry directly, so the AttributeError raised by calling RFM or broadcast before `setPOS` is not modelled.
- The constructor arms and at once cancels a dummy `setPOS` timer to obtain an `IDelayedCall` (lines 54-55). The model records this as no live handle (`None`) with no effect.
- A retry timer can fire after its entry was deleted while the payload is still not in `hash_msg`. This happens, for example, when the entry was dropped because every announcer had been asked, but an overwritten timer was still live. RFM then raises KeyError (line 92); the model reports `raisedKeyError` and does not treat it as a no-op. If the payload became known meanwhile, the call takes the cleanup branch (lines 87-90) instead.
- RFM's KeyError is an outcome, not a precondition, because select_best_bkmr's `except Exception` (lines 132-134) catches it and then skips the reschedule. The model does not capture other exceptions that handler could catch, or its logging.
- Protobuf and JSON serialisation (`MessageToJson`, `wrap_message`) are not modelled. A message is a wire kind plus the MR record as a value, and a payload's JSON is an opaque string.
- `not data` in register_and_broadcast and broadcast is read as "no record was supplied" (`None`). A supplied record object is always truthy.
- `qrl/core/messagereceipt.py` is not part of this model. `MessageReceipt.Register` is assumed to record the payload in `hash_msg` only, and the registry is reduced to its two tables.
- The retry lemmas (`RetryTrace` and the `Retries*` lemmas) follow one entry through successive timeouts with its announcer list fixed. The running node can append further announcers between timeouts when other peers announce the same hash; those lemmas do not cover that case.
- A request entry is a value in the map, not a shared object. The in-place `append` on `already_requested_peers` is modelled as writing the updated entry back, so aliasing of entries is not captured.
- `BufferedChain` is not part of this model. The chain height and `get_block_score` are parameters of `SelectBestBkmr`, and scores are modelled as integers.
- `queue.PriorityQueue` is a sequence kept sorted by (score, hash), with bytes compared as Python compares them. Pushes into it happen outside this file and are not modelled.
- `time.time()` in ping_peers is the parameter `now`. The `ntp` module and the logging calls are left out.
- `setPOS`, `reset_processor_flag`, `reset_processor_flag_with_err` and the `send_tx/st/vote/destake_txn_to_peers` wrappers are left out. Apart from the type tag, each only forwards to register_and_broadcast; `SendBlockToPeers` is modelled because of its reveal-hash rule.
- The connection event handlers (lines 235-246) are left out, because they only log.
- Unused or externally driven fields are not represented: `peers_blockheight`, `target_peers`, `connections`, `sync`, `genesis`, `txn_processor_running`, `pos`, `node`, `sync_state`. The configured peer addresses (`node._peer_addresses`) are a parameter of `ConnectPeers`.
- `stake_selector` is the address of a block's first transaction; the model takes it as a field of the block.
- Peers are compared by session identity. The model gives each session an id besides its host, so two sessions from one host are distinct.
