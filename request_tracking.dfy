/**
 The message-receipt registry the factory drives (master_mr) and the
 "request full message" (RFM) retry step over its requested_hash table.

 For a hash that peers announced but whose payload is not known yet, the
 registry keeps a RequestState: the peers that announced it, in announce
 order, and the peers already asked for the full message. Each RFM call asks
 the first candidate not asked yet and arms a retry timer; once every
 candidate has been asked, the entry is dropped.
 */
module RequestTracking {
  import opened Messages

  /** One requested_hash entry. `callLater` is the handle of the last retry
      timer armed for it: the index of its CallLater entry in the effect log. */
  datatype RequestState = RequestState(
    peersConnectionList: seq<Peer>,
    alreadyRequestedPeers: seq<Peer>,
    callLater: Option<nat>)

  /** A payload the registry holds (hash_msg), with its type tag. */
  datatype Stored = Stored(json: string, msgType: MsgType)

  predicate NoDup<T(==)>(s: seq<T>) {
    forall i, j :: 0 <= i < j < |s| ==> s[i] != s[j]
  }

  /** Index of the first candidate, in announce order, that was not asked
      yet. */
  function FirstUnasked(candidates: seq<Peer>, asked: seq<Peer>): (r: Option<nat>)
    ensures r.Some? ==> r.value < |candidates|
  {
    if candidates == [] then None
    else if candidates[0] !in asked then Some(0)
    else match FirstUnasked(candidates[1..], asked)
      case None => None
      case Some(i) => Some(i + 1)
  }

  /** FirstUnasked finds a candidate not asked yet, every candidate before it
      having been asked, or finds none when every candidate was asked. */
  lemma {:induction false} FirstUnaskedSpec(candidates: seq<Peer>, asked: seq<Peer>)
    ensures var r := FirstUnasked(candidates, asked);
            && (r.Some? ==>
                  && r.value < |candidates| && candidates[r.value] !in asked
                  && forall j :: 0 <= j < r.value ==> candidates[j] in asked)
            && (r.None? ==> forall j :: 0 <= j < |candidates| ==> candidates[j] in asked)
  {
    if candidates != [] && candidates[0] in asked {
      FirstUnaskedSpec(candidates[1..], asked);
      forall j | 0 < j < |candidates| ensures candidates[j] == candidates[1..][j - 1] {
      }
    }
  }

  /** The first un-asked candidate is the one at `i` exactly when every
      candidate before `i` was asked and `i` was not. */
  lemma FirstUnaskedAt(candidates: seq<Peer>, asked: seq<Peer>, i: nat)
    requires i < |candidates| && candidates[i] !in asked
    requires forall j :: 0 <= j < i ==> candidates[j] in asked
    ensures FirstUnasked(candidates, asked) == Some(i)
  {
    FirstUnaskedSpec(candidates, asked);
  }

  /** The outcome of asking one more candidate: who was asked, and the entry
      after it (that peer appended to the asked list, the new timer recorded;
      the previous timer is overwritten, not cancelled). */
  datatype Ask = Ask(peer: Peer, entry: RequestState)

  /** One retry on an entry: ask the first un-asked candidate and arm retry
      timer `timer`, or `None` when every candidate was asked already. */
  function AskNext(st: RequestState, timer: nat): Option<Ask>
  {
    match FirstUnasked(st.peersConnectionList, st.alreadyRequestedPeers)
    case None => None
    case Some(i) =>
      var p := st.peersConnectionList[i];
      Some(Ask(p, st.(alreadyRequestedPeers := st.alreadyRequestedPeers + [p], callLater := Some(timer))))
  }

  /** A retry gives up exactly when every candidate was asked; otherwise it
      asks a candidate not asked before, records it as asked and keeps the
      new timer, leaving the candidates as they were. */
  lemma AskNextSpec(st: RequestState, timer: nat)
    ensures var r := AskNext(st, timer);
            && (r.None? <==> forall p :: p in st.peersConnectionList ==> p in st.alreadyRequestedPeers)
            && (r.Some? ==>
                  && r.value.peer in st.peersConnectionList && r.value.peer !in st.alreadyRequestedPeers
                  && r.value.entry == RequestState(st.peersConnectionList, st.alreadyRequestedPeers + [r.value.peer], Some(timer)))
  {
    FirstUnaskedSpec(st.peersConnectionList, st.alreadyRequestedPeers);
  }

  /** A retry asks the first announcer, in announce order, not asked yet:
      every announcer before it was asked already. */
  lemma AskNextAsksFirst(st: RequestState, timer: nat)
    ensures var r := AskNext(st, timer);
            r.Some? ==>
              exists i :: 0 <= i < |st.peersConnectionList| && st.peersConnectionList[i] == r.value.peer
                          && forall j :: 0 <= j < i ==> st.peersConnectionList[j] in st.alreadyRequestedPeers
  {
    FirstUnaskedSpec(st.peersConnectionList, st.alreadyRequestedPeers);
    var f := FirstUnasked(st.peersConnectionList, st.alreadyRequestedPeers);
    if f.Some? {
      assert st.peersConnectionList[f.value] == AskNext(st, timer).value.peer;
    }
  }

  /** The asked list never gains a duplicate: a retry appends a peer not in it. */
  lemma AskNextKeepsAskedDistinct(st: RequestState, timer: nat)
    requires NoDup(st.alreadyRequestedPeers)
    ensures AskNext(st, timer).Some? ==> NoDup(AskNext(st, timer).value.entry.alreadyRequestedPeers)
  {
    AskNextSpec(st, timer);
    var r := AskNext(st, timer);
    if r.Some? {
      var s, p := st.alreadyRequestedPeers, r.value.peer;
      forall i, j | 0 <= i < j < |s + [p]| ensures (s + [p])[i] != (s + [p])[j] {
        if j == |s| {
          assert (s + [p])[i] == s[i];
        }
      }
    }
  }

  /** What one RFM call does to the requested_hash table: the new table, what
      it appends to the effect log, and whether the lookup raised KeyError. */
  datatype RfmResult = RfmResult(
    requested: map<Hash, RequestState>,
    sent: seq<Effect>,
    raisedKeyError: bool)

  /** One RFM call for `data.hash`. `known` says whether the payload is already
      in hash_msg; `timer` is the handle the retry timer gets if one is armed. */
  function RfmSpec(known: bool, requested: map<Hash, RequestState>, data: MR, timeout: nat, timer: nat): RfmResult
  {
    var h := data.hash;
    if known then RfmResult(requested - {h}, [], false)
    else if h !in requested then RfmResult(requested, [], true)
    else match AskNext(requested[h], timer)
      case None => RfmResult(requested - {h}, [], false)
      case Some(a) =>
        RfmResult(requested[h := a.entry], [Write(a.peer, SendFullMessage(data)), CallLater(timeout, RetryRfm(data))], false)
  }

  /** What one RFM call promises: a missing entry for a hash still unknown
      is a KeyError that changes nothing; every other entry is left alone; a
      known payload loses its stale entry and nothing is sent; an entry that
      survives had exactly one more candidate, not asked before, sent one
      request, with one retry timer armed; an entry dropped while the payload
      is unknown had every candidate asked already. */
  lemma RfmSpecCases(known: bool, requested: map<Hash, RequestState>, data: MR, timeout: nat, timer: nat)
    ensures var r := RfmSpec(known, requested, data, timeout, timer);
      && (r.raisedKeyError <==> !known && data.hash !in requested)
      && (r.raisedKeyError ==> r.requested == requested && r.sent == [])
      && (forall k :: k != data.hash ==> (k in r.requested <==> k in requested))
      && (forall k :: k != data.hash && k in requested ==> r.requested[k] == requested[k])
      && (known ==> data.hash !in r.requested && r.sent == [])
      && (!r.raisedKeyError && data.hash in r.requested ==>
            && !known && data.hash in requested
            && var st, st' := requested[data.hash], r.requested[data.hash];
            && st'.peersConnectionList == st.peersConnectionList
            && |st'.alreadyRequestedPeers| == |st.alreadyRequestedPeers| + 1
            && st'.callLater == Some(timer)
            && var p := st'.alreadyRequestedPeers[|st.alreadyRequestedPeers|];
               && st'.alreadyRequestedPeers == st.alreadyRequestedPeers + [p]
               && p in st.peersConnectionList && p !in st.alreadyRequestedPeers
               && (exists i :: 0 <= i < |st.peersConnectionList| && st.peersConnectionList[i] == p
                               && forall j :: 0 <= j < i ==> st.peersConnectionList[j] in st.alreadyRequestedPeers)
               && r.sent == [Write(p, SendFullMessage(data)), CallLater(timeout, RetryRfm(data))])
      && (!known && data.hash in requested && data.hash !in r.requested ==>
            && r.sent == []
            && forall p :: p in requested[data.hash].peersConnectionList ==> p in requested[data.hash].alreadyRequestedPeers)
  {
    if data.hash in requested {
      AskNextSpec(requested[data.hash], timer);
      AskNextAsksFirst(requested[data.hash], timer);
    }
  }

  /** RFM on a hash whose payload is known is idempotent: a second call finds
      no entry to drop and sends nothing. */
  lemma RfmKnownIdempotent(requested: map<Hash, RequestState>, data: MR, timeout: nat, t1: nat, t2: nat)
    ensures var once := RfmSpec(true, requested, data, timeout, t1);
            RfmSpec(true, once.requested, data, timeout, t2) == RfmResult(once.requested, [], false)
  {
    var once := RfmSpec(true, requested, data, timeout, t1);
    assert once.requested - {data.hash} == once.requested;
  }

  /** The candidates of an entry not asked yet. */
  function Unasked(st: RequestState): set<Peer>
  {
    (set p | p in st.peersConnectionList) - (set p | p in st.alreadyRequestedPeers)
  }

  /** The peers asked, in order, by `n` successive RFM calls on one entry
      while its payload never arrives (each retry timer firing in turn), and
      whether one of them dropped the entry. Timer handles do not influence
      who is asked (RetryTraceIgnoresTimer), so each step arms handle 0. The
      announcer list is taken to stay fixed between timeouts. */
  datatype Retries = Retries(asked: seq<Peer>, dropped: bool)

  function RetryTrace(st: RequestState, n: nat): Retries
    decreases n
  {
    if n == 0 then Retries([], false)
    else match AskNext(st, 0)
      case None => Retries([], true)
      case Some(a) =>
        var rest := RetryTrace(a.entry, n - 1);
        Retries([a.peer] + rest.asked, rest.dropped)
  }

  /** Retries ask every not-yet-asked candidate exactly once and then drop the
      entry; more calls than there are such candidates are enough. */
  lemma RetriesAskEachCandidateOnce(st: RequestState, n: nat)
    requires n > |Unasked(st)|
    ensures var t := RetryTrace(st, n);
            && t.dropped
            && NoDup(t.asked)
            && (forall p :: p in t.asked <==> p in Unasked(st))
  {
    RetriesEndInDrop(st, n);
    RetriesAskOnlyUnasked(st, n);
    DroppedAfterAskingAll(st, n);
  }

  /** Once the un-asked candidates run out the entry is dropped, and they run
      out after as many retries as there were of them. */
  lemma {:induction false} RetriesEndInDrop(st: RequestState, n: nat)
    requires n > |Unasked(st)|
    ensures RetryTrace(st, n).dropped
    decreases n
  {
    var r := AskNext(st, 0);
    AskNextSpec(st, 0);
    if r.Some? {
      var a := r.value;
      UnaskedShrinks(st, a.peer, a.entry);
      RetriesEndInDrop(a.entry, n - 1);
      RetryTraceStep(st, n);
    }
  }

  /** Whatever the number of retries, the peers asked are distinct candidates
      that had not been asked before. */
  lemma {:induction false} RetriesAskOnlyUnasked(st: RequestState, n: nat)
    ensures var t := RetryTrace(st, n);
            && NoDup(t.asked)
            && forall p :: p in t.asked ==> p in st.peersConnectionList && p !in st.alreadyRequestedPeers
    decreases n
  {
    var r := AskNext(st, 0);
    AskNextSpec(st, 0);
    if n > 0 && r.Some? {
      var a := r.value;
      RetriesAskOnlyUnasked(a.entry, n - 1);
      RetryTraceStep(st, n);
      NoDupCons(a.peer, RetryTrace(a.entry, n - 1).asked);
    }
  }

  /** Retries that end by dropping the entry have asked every candidate that
      had not been asked before. */
  lemma {:induction false} DroppedAfterAskingAll(st: RequestState, n: nat)
    requires RetryTrace(st, n).dropped
    ensures forall p :: p in st.peersConnectionList && p !in st.alreadyRequestedPeers ==> p in RetryTrace(st, n).asked
    decreases n
  {
    var r := AskNext(st, 0);
    AskNextSpec(st, 0);
    if r.Some? {
      var a := r.value;
      RetryTraceStep(st, n);
      DroppedAfterAskingAll(a.entry, n - 1);
    }
  }

  /** Who retries ask does not depend on the handle of the timer last armed. */
  lemma {:induction false} RetryTraceIgnoresTimer(st: RequestState, t: Option<nat>, n: nat)
    ensures RetryTrace(st, n) == RetryTrace(st.(callLater := t), n)
    decreases n
  {
    if n > 0 {
      assert AskNext(st, 0) == AskNext(st.(callLater := t), 0);
      match AskNext(st, 0)
      case None =>
      case Some(a) => RetryTraceIgnoresTimer(a.entry, a.entry.callLater, n - 1);
    }
  }

  /** A retry that asks someone is followed by the retries of the updated entry. */
  lemma RetryTraceStep(st: RequestState, n: nat)
    requires n > 0 && AskNext(st, 0).Some?
    ensures var a := AskNext(st, 0).value;
            var rest := RetryTrace(a.entry, n - 1);
            RetryTrace(st, n) == Retries([a.peer] + rest.asked, rest.dropped)
  {
  }

  /** Asking one more un-asked candidate removes exactly it from the un-asked ones. */
  lemma UnaskedShrinks(st: RequestState, p: Peer, st': RequestState)
    requires p in Unasked(st)
    requires st'.peersConnectionList == st.peersConnectionList
    requires st'.alreadyRequestedPeers == st.alreadyRequestedPeers + [p]
    ensures Unasked(st') == Unasked(st) - {p} && |Unasked(st')| == |Unasked(st)| - 1
  {
  }

  lemma NoDupCons<T>(x: T, s: seq<T>)
    requires NoDup(s) && x !in s
    ensures NoDup([x] + s)
  {
    forall i, j | 0 <= i < j < |[x] + s| ensures ([x] + s)[i] != ([x] + s)[j] {
      if i == 0 {
        assert ([x] + s)[j] == s[j - 1];
      }
    }
  }

  /** For a fresh entry whose announcers are distinct, retries ask them one
      after the other in announce order: the n-th timeout asks the (n+1)-th
      candidate, never a repeat, and the call after the last drops the entry. */
  lemma {:induction false} RetriesFollowAnnounceOrder(st: RequestState)
    requires st.alreadyRequestedPeers == []
    requires NoDup(st.peersConnectionList)
    ensures RetryTrace(st, |st.peersConnectionList| + 1) == Retries(st.peersConnectionList, true)
  {
    var cands := st.peersConnectionList;
    assert st == RequestState(cands, cands[..0], st.callLater);
    RetriesFromPrefix(cands, 0, st.callLater);
    assert cands[0..] == cands;
  }

  /** Once the first `k` of distinct candidates were asked, the remaining
      retries ask the rest in order and then drop the entry. */
  lemma {:induction false} RetriesFromPrefix(cands: seq<Peer>, k: nat, timer: Option<nat>)
    requires NoDup(cands) && k <= |cands|
    ensures RetryTrace(RequestState(cands, cands[..k], timer), |cands| - k + 1) == Retries(cands[k..], true)
    decreases |cands| - k
  {
    if k < |cands| {
      RetriesFromPrefix(cands, k + 1, Some(0));
      PrefixStep(cands, k, timer);
    } else {
      var st := RequestState(cands, cands[..k], timer);
      AskNextOfPrefix(st, k);
      TraceNil(st);
      assert cands[k..] == [];
    }
  }

  /** The inductive step of RetriesFromPrefix: asking the candidate at `k`
      and then the rest. */
  lemma PrefixStep(cands: seq<Peer>, k: nat, timer: Option<nat>)
    requires NoDup(cands) && k < |cands|
    requires RetryTrace(RequestState(cands, cands[..k + 1], Some(0)), |cands| - k) == Retries(cands[k + 1..], true)
    ensures RetryTrace(RequestState(cands, cands[..k], timer), |cands| - k + 1) == Retries(cands[k..], true)
  {
    var st, st' := RequestState(cands, cands[..k], timer), RequestState(cands, cands[..k + 1], Some(0));
    var n := |cands| - k + 1;
    assert AskNext(st, 0) == Some(Ask(cands[k], st')) by {
      AskNextOfPrefix(st, k);
    }
    assert RetryTrace(st, n) == Retries([cands[k]] + cands[k + 1..], true) by {
      TraceCons(st, n, cands[k], st', cands[k + 1..]);
    }
    assert cands[k..] == [cands[k]] + cands[k + 1..] by {
      DropOne(cands, k);
    }
  }

  /** A retry that asks `p` and leaves `st'`, followed by the trace of `st'`. */
  lemma TraceCons(st: RequestState, n: nat, p: Peer, st': RequestState, rest: seq<Peer>)
    requires n > 0 && AskNext(st, 0) == Some(Ask(p, st'))
    requires RetryTrace(st', n - 1) == Retries(rest, true)
    ensures RetryTrace(st, n) == Retries([p] + rest, true)
  {
    RetryTraceStep(st, n);
  }

  /** A retry on an entry with no one left to ask drops it. */
  lemma TraceNil(st: RequestState)
    requires AskNext(st, 0).None?
    ensures RetryTrace(st, 1) == Retries([], true)
  {
  }

  lemma DropOne<T>(s: seq<T>, k: nat)
    requires k < |s|
    ensures s[k..] == [s[k]] + s[k + 1..]
  {
  }

  /** On distinct candidates of which the first `k` were asked, a retry asks
      the one at `k`, or drops the entry when there is none. */
  lemma AskNextOfPrefix(st: RequestState, k: nat)
    requires NoDup(st.peersConnectionList)
    requires k <= |st.peersConnectionList|
    requires st.alreadyRequestedPeers == st.peersConnectionList[..k]
    ensures var cands := st.peersConnectionList;
            AskNext(st, 0) == if k < |cands| then Some(Ask(cands[k], RequestState(cands, cands[..k + 1], Some(0)))) else None
  {
    var cands := st.peersConnectionList;
    AskNextSpec(st, 0);
    FirstUnaskedOfPrefix(cands, k);
    if k < |cands| {
      assert cands[..k] + [cands[k]] == cands[..k + 1];
    }
  }

  /** With distinct candidates of which the first `k` were asked, the next to
      ask is the one at `k`. */
  lemma FirstUnaskedOfPrefix(cands: seq<Peer>, k: nat)
    requires NoDup(cands) && k <= |cands|
    ensures FirstUnasked(cands, cands[..k]) == if k < |cands| then Some(k) else None
  {
    forall j | 0 <= j < k ensures cands[j] in cands[..k] {
      assert cands[..k][j] == cands[j];
    }
    if k < |cands| {
      assert cands[k] !in cands[..k] by {
        forall j | 0 <= j < k ensures cands[..k][j] != cands[k] {
        }
      }
      FirstUnaskedAt(cands, cands[..k], k);
    } else {
      FirstUnaskedSpec(cands, cands[..k]);
    }
  }

  /** The message-receipt registry (master_mr): payloads already known
      (hash_msg) and the request entries of announced hashes (requested_hash). */
  class MessageReceipt {
    var hashMsg: map<Hash, Stored>
    var requestedHash: map<Hash, RequestState>

    constructor ()
      ensures hashMsg == map[] && requestedHash == map[]
    {
      hashMsg := map[];
      requestedHash := map[];
    }

    /** Records a locally originated payload as fully known, so that requests
        for it can be answered. */
    method Register(h: Hash, json: string, t: MsgType)
      modifies this
      ensures hashMsg == old(hashMsg)[h := Stored(json, t)]
      ensures requestedHash == old(requestedHash)
    {
      hashMsg := hashMsg[h := Stored(json, t)];
    }
  }
}
