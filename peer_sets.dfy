/**
 Which sessions a loop over peer_connections writes to, and which configured
 addresses connect_peers dials.
 */
module PeerSets {
  import opened Messages

  /** The hosts of the current sessions. */
  function Hosts(sessions: seq<Peer>): set<Host> {
    set p | p in sessions :: p.host
  }

  /** A host has a session exactly when some session in the list has it. */
  lemma HostsAt(sessions: seq<Peer>, h: Host)
    ensures h in Hosts(sessions) <==> exists j :: 0 <= j < |sessions| && sessions[j].host == h
  {
    if h in Hosts(sessions) {
      var p :| p in sessions && p.host == h;
      var j :| 0 <= j < |sessions| && sessions[j] == p;
    }
  }

  /** The sessions, in peer_connections order, that are not in `ignore`. */
  function Recipients(peers: seq<Peer>, ignore: seq<Peer>): seq<Peer>
    decreases |peers|
  {
    if peers == [] then []
    else Recipients(peers[..|peers| - 1], ignore) + (if peers[|peers| - 1] in ignore then [] else [peers[|peers| - 1]])
  }

  /** With no entry for the hash nothing is ignored: every session, in order. */
  lemma {:induction false} RecipientsIgnoringNone(peers: seq<Peer>)
    ensures Recipients(peers, []) == peers
    decreases |peers|
  {
    if peers != [] {
      RecipientsIgnoringNone(peers[..|peers| - 1]);
      assert peers == peers[..|peers| - 1] + [peers[|peers| - 1]];
    }
  }

  /** Exactly the sessions outside `ignore` are written to... */
  lemma {:induction false} RecipientsMembers(peers: seq<Peer>, ignore: seq<Peer>)
    ensures forall p :: p in Recipients(peers, ignore) <==> p in peers && p !in ignore
    decreases |peers|
  {
    if peers != [] {
      var init, last := peers[..|peers| - 1], peers[|peers| - 1];
      assert peers == init + [last];
      RecipientsMembers(init, ignore);
    }
  }

  /** ... each as often as it occurs in peer_connections. */
  lemma {:induction false} RecipientsCounts(peers: seq<Peer>, ignore: seq<Peer>)
    ensures forall p :: p !in ignore ==> multiset(Recipients(peers, ignore))[p] == multiset(peers)[p]
    ensures forall p :: p in ignore ==> multiset(Recipients(peers, ignore))[p] == 0
    decreases |peers|
  {
    if peers != [] {
      var init, last := peers[..|peers| - 1], peers[|peers| - 1];
      assert peers == init + [last];
      RecipientsCounts(init, ignore);
    }
  }

  /** The configured addresses, in configuration order, that no session's
      host matches. */
  function Unconnected(addresses: seq<Host>, sessions: seq<Peer>): seq<Host>
    decreases |addresses|
  {
    if addresses == [] then []
    else
      var last := addresses[|addresses| - 1];
      Unconnected(addresses[..|addresses| - 1], sessions) + (if last in Hosts(sessions) then [] else [last])
  }

  /** Exactly the addresses without a session are dialled ... */
  lemma {:induction false} UnconnectedMembers(addresses: seq<Host>, sessions: seq<Peer>)
    ensures forall a :: a in Unconnected(addresses, sessions) <==> a in addresses && a !in Hosts(sessions)
    decreases |addresses|
  {
    if addresses != [] {
      var init, last := addresses[..|addresses| - 1], addresses[|addresses| - 1];
      assert addresses == init + [last];
      UnconnectedMembers(init, sessions);
    }
  }

  /** ... each as often as it is configured. */
  lemma {:induction false} UnconnectedCounts(addresses: seq<Host>, sessions: seq<Peer>)
    ensures forall a :: a !in Hosts(sessions) ==> multiset(Unconnected(addresses, sessions))[a] == multiset(addresses)[a]
    decreases |addresses|
  {
    if addresses != [] {
      var init, last := addresses[..|addresses| - 1], addresses[|addresses| - 1];
      assert addresses == init + [last];
      UnconnectedCounts(init, sessions);
    }
  }

  /** One write of `msg` to each peer, in order. */
  function Writes(peers: seq<Peer>, msg: Wire): seq<Effect>
    decreases |peers|
  {
    if peers == [] then [] else Writes(peers[..|peers| - 1], msg) + [Write(peers[|peers| - 1], msg)]
  }

  /** The i-th write goes to the i-th peer, and there is one per peer. */
  lemma {:induction false} WritesAt(peers: seq<Peer>, msg: Wire)
    ensures |Writes(peers, msg)| == |peers|
    ensures forall i :: 0 <= i < |peers| ==> Writes(peers, msg)[i] == Write(peers[i], msg)
    decreases |peers|
  {
    if peers != [] {
      WritesAt(peers[..|peers| - 1], msg);
    }
  }

  /** One outbound connection attempt per address, in order, on `port`. */
  function Connects(hosts: seq<Host>, port: nat): seq<Effect>
    decreases |hosts|
  {
    if hosts == [] then [] else Connects(hosts[..|hosts| - 1], port) + [ConnectTCP(hosts[|hosts| - 1], port)]
  }

  /** The i-th attempt dials the i-th host, and there is one per host. */
  lemma {:induction false} ConnectsAt(hosts: seq<Host>, port: nat)
    ensures |Connects(hosts, port)| == |hosts|
    ensures forall i :: 0 <= i < |hosts| ==> Connects(hosts, port)[i] == ConnectTCP(hosts[i], port)
    decreases |hosts|
  {
    if hosts != [] {
      ConnectsAt(hosts[..|hosts| - 1], port);
    }
  }

  lemma RecipientsSnoc(peers: seq<Peer>, p: Peer, ignore: seq<Peer>)
    ensures Recipients(peers + [p], ignore) == Recipients(peers, ignore) + (if p in ignore then [] else [p])
  {
    assert (peers + [p])[..|peers|] == peers;
  }

  lemma UnconnectedSnoc(addresses: seq<Host>, a: Host, sessions: seq<Peer>)
    ensures Unconnected(addresses + [a], sessions) == Unconnected(addresses, sessions) + (if a in Hosts(sessions) then [] else [a])
  {
    assert (addresses + [a])[..|addresses|] == addresses;
  }

  /** Considering one more session adds one write, unless it is ignored. */
  lemma WritesRecipientsSnoc(peers: seq<Peer>, i: nat, ignore: seq<Peer>, msg: Wire)
    requires i < |peers|
    ensures Writes(Recipients(peers[..i + 1], ignore), msg)
            == Writes(Recipients(peers[..i], ignore), msg) + (if peers[i] in ignore then [] else [Write(peers[i], msg)])
  {
    assert peers[..i + 1] == peers[..i] + [peers[i]];
    RecipientsSnoc(peers[..i], peers[i], ignore);
    var sent := Recipients(peers[..i], ignore);
    if peers[i] in ignore {
      assert sent + [] == sent;
    } else {
      WritesSnoc(sent, peers[i], msg);
    }
  }

  lemma WritesSnoc(peers: seq<Peer>, p: Peer, msg: Wire)
    ensures Writes(peers + [p], msg) == Writes(peers, msg) + [Write(p, msg)]
  {
    assert (peers + [p])[..|peers|] == peers;
  }

  lemma ConnectsSnoc(hosts: seq<Host>, h: Host, port: nat)
    ensures Connects(hosts + [h], port) == Connects(hosts, port) + [ConnectTCP(h, port)]
  {
    assert (hosts + [h])[..|hosts|] == hosts;
  }

  /** connect_peers is idempotent: once every address it dialled has a
      session, and no session was lost, a second call dials nothing. */
  lemma ConnectPeersIdempotent(addresses: seq<Host>, before: seq<Peer>, after: seq<Peer>)
    requires Hosts(before) <= Hosts(after)
    requires forall a :: a in Unconnected(addresses, before) ==> a in Hosts(after)
    ensures Unconnected(addresses, after) == []
  {
    UnconnectedMembers(addresses, before);
    UnconnectedMembers(addresses, after);
    var r := Unconnected(addresses, after);
    assert forall i :: 0 <= i < |r| ==> r[i] in r;
  }
}
