/**
 Values exchanged by the peer-to-peer factory: hashes, peer sessions, the
 message-receipt record (MR) that announces data by hash, the wire messages
 written to peers, and the effects the factory has on the world outside it
 (socket writes, timers, outbound connections, registry calls).
 */
module Messages {

  datatype Option<T> = None | Some(value: T)

  /** Message hashes, header hashes and addresses are byte strings. */
  type Hash = seq<bv8>
  type Address = seq<bv8>
  type Host = string

  /** A live peer session. Two sessions are the same peer only if they are the
      same connection, so each carries a connection `id` besides its remote host. */
  datatype Peer = Peer(id: nat, host: Host)

  /** Type tags of announced data: 'TX', 'ST', 'VT', 'DST' and 'BK'. */
  datatype MsgType = TX | ST | VT | DST | BK

  /** The announce record (protobuf MR). Unset optional fields are `None`. */
  datatype MR = MR(
    hash: Hash,
    msgType: Option<MsgType>,
    stakeSelector: Option<Address>,
    blockNumber: Option<nat>,
    prevHeaderhash: Option<Hash>,
    revealHash: Option<Hash>)

  /** A freshly constructed record: every field unset. */
  const EmptyMR := MR([], None, None, None, None, None)

  /** The record built when none is supplied: just a hash and a type. */
  function MinimalMR(h: Hash, t: MsgType): (r: MR)
    ensures r.hash == h && r.msgType == Some(t)
    ensures r.blockNumber.None? && r.revealHash.None? && r.stakeSelector.None? && r.prevHeaderhash.None?
  {
    EmptyMR.(hash := h, msgType := Some(t))
  }

  /** Messages written to a peer's transport, by wire tag:
      'MR' (announce), 'SFM' (request the full message), 'SYNC' and 'PING'. */
  datatype Wire = Announce(record: MR) | SendFullMessage(record: MR) | Sync | Ping

  /** What a timer re-invokes when it fires: RFM on a record, or select_best_bkmr. */
  datatype Callback = RetryRfm(record: MR) | SelectBkmr

  /** One observable action of the factory, in the order it happens. */
  datatype Effect =
    | Write(peer: Peer, msg: Wire)                 // peer.transport.write
    | CallLater(delay: nat, callback: Callback)    // reactor.callLater
    | ConnectTCP(host: Host, port: nat)            // reactor.connectTCP
    | Registered(hash: Hash, msgType: MsgType)     // master_mr.register

  /** The parts of a block that its announce carries. */
  datatype Block = Block(
    headerhash: Hash,
    blockNumber: nat,
    prevHeaderhash: Hash,
    revealHash: Hash,
    stakeSelector: Address,   // address of the block's first (coinbase) transaction
    json: string)

  /** The announce record send_block_to_peers builds for a block: the reveal
      hash is carried only from block number 2 on. */
  function BlockAnnounce(b: Block): (r: MR)
    ensures r.revealHash.Some? <==> b.blockNumber > 1
    ensures r.revealHash.Some? ==> r.revealHash.value == b.revealHash
    ensures r.blockNumber == Some(b.blockNumber) && r.stakeSelector == Some(b.stakeSelector)
    ensures r.prevHeaderhash == Some(b.prevHeaderhash)
    ensures r.msgType.None?
  {
    var data := EmptyMR.(stakeSelector := Some(b.stakeSelector),
                         blockNumber := Some(b.blockNumber),
                         prevHeaderhash := Some(b.prevHeaderhash));
    if b.blockNumber > 1 then data.(revealHash := Some(b.revealHash)) else data
  }

  /** What register_and_broadcast announces: the supplied record, or a fresh
      one, with its hash and type overwritten by the given ones. */
  function Stamped(data: Option<MR>, h: Hash, t: MsgType): (r: MR)
    ensures r.hash == h && r.msgType == Some(t)
    ensures data.Some? ==>
              && r.blockNumber == data.value.blockNumber && r.revealHash == data.value.revealHash
              && r.stakeSelector == data.value.stakeSelector && r.prevHeaderhash == data.value.prevHeaderhash
    ensures data.None? ==> r == MinimalMR(h, t)
  {
    var base := if data.None? then EmptyMR else data.value;
    base.(hash := h, msgType := Some(t))
  }
}
