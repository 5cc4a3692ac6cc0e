/**
 The peer-to-peer server factory: the live sessions, the block-candidate
 queue, and the operations that announce data, request full messages,
 promote block candidates and (re)connect to configured peers.

 Everything the factory does to the outside world is appended, in order, to
 `effects`: socket writes, timers armed with reactor.callLater (a timer's
 handle is the index of its entry), outbound connection attempts and calls
 to the registry's register.
 */
module P2PFactory {
  import opened Messages
  import opened RequestTracking
  import opened BkmrQueue
  import opened PeerSets

  /** Port used for outbound connection attempts. */
  const PeerPort: nat := 9000

  /** Delay before select_best_bkmr runs again after promoting a candidate. */
  const BkmrReselectDelay: nat := 5

  /** The peers broadcast skips for a hash: those that announced it. */
  function IgnorePeers(requested: map<Hash, RequestState>, h: Hash): seq<Peer> {
    if h in requested then requested[h].peersConnectionList else []
  }

  class Factory {
    var masterMr: MessageReceipt
    const messageReceiptTimeout: nat   // config.dev.message_receipt_timeout
    const stake: bool                  // config.user.enable_auto_staking
    var peerConnections: seq<Peer>
    var syncedPeers: set<Peer>
    var bkmrBlocknumber: nat           // block number whose candidates are queued
    var bkmrPriorityq: seq<Candidate>
    var bkmrProcessor: Option<nat>     // handle of the last select_best_bkmr timer
    var lastPing: Option<int>
    var effects: seq<Effect>

    ghost predicate Valid()
      reads this
    {
      Sorted(bkmrPriorityq)
    }

    /** A factory with no sessions and an empty queue. The initial
        select_best_bkmr timer, armed and cancelled at once, is no handle. */
    constructor (mr: MessageReceipt, receiptTimeout: nat, enableAutoStaking: bool)
      ensures Valid()
      ensures masterMr == mr && messageReceiptTimeout == receiptTimeout && stake == enableAutoStaking
      ensures peerConnections == [] && syncedPeers == {}
      ensures bkmrBlocknumber == 0 && bkmrPriorityq == [] && bkmrProcessor == None
      ensures lastPing == None && effects == []
    {
      masterMr := mr;
      messageReceiptTimeout := receiptTimeout;
      stake := enableAutoStaking;
      peerConnections := [];
      syncedPeers := {};
      bkmrBlocknumber := 0;
      bkmrPriorityq := [];
      bkmrProcessor := None;
      lastPing := None;
      effects := [];
    }

    /** Forgets which peers are synced and asks every session for its state. */
    method GetSyncedState()
      modifies this`syncedPeers, this`effects
      ensures syncedPeers == {}
      ensures effects == old(effects) + Writes(peerConnections, Sync)
    {
      syncedPeers := {};
      var conns := peerConnections;
      for i := 0 to |conns|
        invariant syncedPeers == {}
        invariant effects == old(effects) + Writes(conns[..i], Sync)
      {
        assert conns[..i + 1] == conns[..i] + [conns[i]];
        WritesSnoc(conns[..i], conns[i], Sync);
        effects := effects + [Write(conns[i], Sync)];
      }
      assert conns[..|conns|] == conns;
    }

    /** Request Full Message: asks the first announcer of `data.hash` not yet
        asked and arms a retry; drops the request entry once the payload is
        known or every announcer has been asked. A missing entry for a hash
        whose payload is unknown raises KeyError (`raisedKeyError`), before
        anything changes. */
    method Rfm(data: MR) returns (raisedKeyError: bool)
      modifies this`effects, masterMr
      ensures masterMr.hashMsg == old(masterMr.hashMsg)
      ensures var r := RfmSpec(data.hash in old(masterMr.hashMsg), old(masterMr.requestedHash), data,
                               messageReceiptTimeout, |old(effects)| + 1);
              && masterMr.requestedHash == r.requested
              && effects == old(effects) + r.sent
              && raisedKeyError == r.raisedKeyError
    {
      var msgHash := data.hash;
      if msgHash in masterMr.hashMsg {
        if msgHash in masterMr.requestedHash {
          masterMr.requestedHash := masterMr.requestedHash - {msgHash};
        }
        return false;
      }
      if msgHash !in masterMr.requestedHash {
        return true;
      }
      var peersList := masterMr.requestedHash[msgHash].peersConnectionList;
      var messageRequest := masterMr.requestedHash[msgHash];
      for i := 0 to |peersList|
        invariant forall j :: 0 <= j < i ==> peersList[j] in messageRequest.alreadyRequestedPeers
        invariant messageRequest == old(masterMr.requestedHash)[msgHash]
        invariant masterMr.requestedHash == old(masterMr.requestedHash) && effects == old(effects)
      {
        var peer := peersList[i];
        if peer !in messageRequest.alreadyRequestedPeers {
          FirstUnaskedAt(peersList, messageRequest.alreadyRequestedPeers, i);
          messageRequest := messageRequest.(alreadyRequestedPeers := messageRequest.alreadyRequestedPeers + [peer]);
          effects := effects + [Write(peer, SendFullMessage(data))];
          var callLaterObj := |effects|;
          effects := effects + [CallLater(messageReceiptTimeout, RetryRfm(data))];
          messageRequest := messageRequest.(callLater := Some(callLaterObj));
          masterMr.requestedHash := masterMr.requestedHash[msgHash := messageRequest];
          return false;
        }
      }
      // No announcer could provide the full message: give the hash up.
      FirstUnaskedSpec(peersList, messageRequest.alreadyRequestedPeers);
      if msgHash in masterMr.requestedHash {
        masterMr.requestedHash := masterMr.requestedHash - {msgHash};
      }
      return false;
    }

    /** Pops the best block candidate. If the chain already holds a better
        block at the tracked number the whole queue is dropped; otherwise the
        candidate's block is requested and the step is rescheduled. A KeyError
        from the request is caught by the step's generic handler: it is logged
        and the step is not rescheduled. */
    method SelectBestBkmr(chainHeight: nat, blockScore: nat -> int)
      requires Valid()
      modifies this`bkmrPriorityq, this`bkmrProcessor, this`effects, masterMr
      ensures Valid()
      ensures masterMr.hashMsg == old(masterMr.hashMsg)
      ensures !Select(old(bkmrPriorityq), bkmrBlocknumber, chainHeight, blockScore).Promote? ==>
                && bkmrPriorityq == []
                && bkmrProcessor == old(bkmrProcessor)
                && effects == old(effects)
                && masterMr.requestedHash == old(masterMr.requestedHash)
      ensures Select(old(bkmrPriorityq), bkmrBlocknumber, chainHeight, blockScore).Promote? ==>
                var data := MinimalMR(old(bkmrPriorityq)[0].hash, BK);
                var r := RfmSpec(data.hash in old(masterMr.hashMsg), old(masterMr.requestedHash), data,
                                 messageReceiptTimeout, |old(effects)| + 1);
                && bkmrPriorityq == old(bkmrPriorityq)[1..]
                && masterMr.requestedHash == r.requested
                && (r.raisedKeyError ==> effects == old(effects) && bkmrProcessor == old(bkmrProcessor))
                && (!r.raisedKeyError ==>
                      && effects == old(effects) + r.sent + [CallLater(BkmrReselectDelay, SelectBkmr)]
                      && bkmrProcessor == Some(|old(effects)| + |r.sent|))
    {
      var blocknumber := bkmrBlocknumber;
      if bkmrPriorityq == [] {
        return;
      }
      var dscore, dhash := bkmrPriorityq[0].score, bkmrPriorityq[0].hash;
      SortedTail(bkmrPriorityq);
      bkmrPriorityq := bkmrPriorityq[1..];
      if blocknumber <= chainHeight {
        var oldscore := blockScore(blocknumber);
        if dscore > oldscore {
          bkmrPriorityq := [];
          return;
        }
      }
      var data := MinimalMR(dhash, BK);
      var raised := Rfm(data);
      if raised {
        return;
      }
      effects := effects + [CallLater(BkmrReselectDelay, SelectBkmr)];
      bkmrProcessor := Some(|effects| - 1);
    }

    /** Sends a ping to every session and records when. */
    method PingPeers(now: int)
      modifies this`lastPing, this`effects
      ensures lastPing == Some(now)
      ensures effects == old(effects) + Writes(peerConnections, Ping)
    {
      lastPing := Some(now);
      var conns := peerConnections;
      for i := 0 to |conns|
        invariant lastPing == Some(now)
        invariant effects == old(effects) + Writes(conns[..i], Ping)
      {
        assert conns[..i + 1] == conns[..i] + [conns[i]];
        WritesSnoc(conns[..i], conns[i], Ping);
        effects := effects + [Write(conns[i], Ping)];
      }
      assert conns[..|conns|] == conns;
    }

    /** Registers locally originated data as known, then announces it. The
        record announced is the supplied one, or a fresh one, stamped with
        the hash and type. */
    method RegisterAndBroadcast(msgType: MsgType, msgHash: Hash, msgJson: string, data: Option<MR>)
      modifies this`effects, masterMr
      ensures masterMr.hashMsg == old(masterMr.hashMsg)[msgHash := Stored(msgJson, msgType)]
      ensures masterMr.requestedHash == old(masterMr.requestedHash)
      ensures effects == old(effects) + [Registered(msgHash, msgType)]
                + Writes(Recipients(peerConnections, IgnorePeers(masterMr.requestedHash, msgHash)),
                         Announce(Stamped(data, msgHash, msgType)))
    {
      masterMr.Register(msgHash, msgJson, msgType);
      effects := effects + [Registered(msgHash, msgType)];
      var record := Stamped(data, msgHash, msgType);
      Broadcast(msgHash, msgType, Some(record));
    }

    /** Announces a hash to every session except the peers that announced it
        to us. Without a record, a minimal one with hash and type is sent. */
    method Broadcast(msgHash: Hash, msgType: MsgType, data: Option<MR>)
      modifies this`effects
      ensures effects == old(effects)
                + Writes(Recipients(peerConnections, IgnorePeers(masterMr.requestedHash, msgHash)),
                         Announce(if data.None? then MinimalMR(msgHash, msgType) else data.value))
    {
      var ignorePeers := IgnorePeers(masterMr.requestedHash, msgHash);
      var record := if data.None? then MinimalMR(msgHash, msgType) else data.value;
      var conns := peerConnections;
      for i := 0 to |conns|
        invariant effects == old(effects) + Writes(Recipients(conns[..i], ignorePeers), Announce(record))
      {
        var peer := conns[i];
        WritesRecipientsSnoc(conns, i, ignorePeers, Announce(record));
        if peer !in ignorePeers {
          effects := effects + [Write(peer, Announce(record))];
        }
      }
      assert conns[..|conns|] == conns;
    }

    /** Announces a block under its header hash with type 'BK', carrying its
        stake selector, number, previous header hash and, past block 1, its
        reveal hash. */
    method SendBlockToPeers(block: Block)
      modifies this`effects, masterMr
      ensures masterMr.hashMsg == old(masterMr.hashMsg)[block.headerhash := Stored(block.json, BK)]
      ensures masterMr.requestedHash == old(masterMr.requestedHash)
      ensures effects == old(effects) + [Registered(block.headerhash, BK)]
                + Writes(Recipients(peerConnections, IgnorePeers(masterMr.requestedHash, block.headerhash)),
                         Announce(Stamped(Some(BlockAnnounce(block)), block.headerhash, BK)))
    {
      RegisterAndBroadcast(BK, block.headerhash, block.json, Some(BlockAnnounce(block)));
    }

    /** Whether some current session's remote host is `host`: the inner
        search of connect_peers, stopping at the first match. */
    method HasSession(host: Host) returns (found: bool)
      ensures found <==> host in Hosts(peerConnections)
    {
      found := false;
      for k := 0 to |peerConnections|
        invariant !found
        invariant forall j :: 0 <= j < k ==> peerConnections[j].host != host
      {
        if host == peerConnections[k].host {
          found := true;
          break;
        }
      }
      HostsAt(peerConnections, host);
    }

    /** Dials, on the peer port and in configuration order, every configured
        address that no current session's host matches. */
    method ConnectPeers(peerAddresses: seq<Host>)
      modifies this`effects
      ensures effects == old(effects) + Connects(Unconnected(peerAddresses, peerConnections), PeerPort)
    {
      var conns := peerConnections;
      for i := 0 to |peerAddresses|
        invariant effects == old(effects) + Connects(Unconnected(peerAddresses[..i], conns), PeerPort)
      {
        var peerAddress := peerAddresses[i];
        var found := HasSession(peerAddress);
        ghost var dialled := Unconnected(peerAddresses[..i], conns);
        assert Unconnected(peerAddresses[..i + 1], conns)
               == dialled + (if peerAddress in Hosts(conns) then [] else [peerAddress]) by {
          assert peerAddresses[..i + 1] == peerAddresses[..i] + [peerAddress];
          UnconnectedSnoc(peerAddresses[..i], peerAddress, conns);
        }
        if !found {
          ConnectsSnoc(dialled, peerAddress, PeerPort);
          effects := effects + [ConnectTCP(peerAddress, PeerPort)];
        } else {
          assert dialled + [] == dialled;
        }
      }
      assert peerAddresses[..|peerAddresses|] == peerAddresses;
    }
  }
}
