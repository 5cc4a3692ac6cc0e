/**
 The block-candidate queue (bkmr_priorityq) and the decision one
 select_best_bkmr step takes on it.

 Candidates are (score, hash) pairs for the block number being contested; a
 lower score is better. The priority queue is modelled as a sequence kept in
 ascending (score, hash) order, so popping the minimum is taking the head.
 */
module BkmrQueue {
  import opened Messages

  datatype Candidate = Candidate(score: int, hash: Hash)

  /** Byte strings compared as Python compares `bytes`: lexicographically, a
      proper prefix first. */
  predicate BytesLe(x: Hash, y: Hash)
    decreases |x|
  {
    if x == [] then true
    else if y == [] then false
    else if x[0] != y[0] then x[0] < y[0]
    else BytesLe(x[1..], y[1..])
  }

  /** The order of (score, hash) tuples. */
  predicate Before(a: Candidate, b: Candidate) {
    a.score < b.score || (a.score == b.score && BytesLe(a.hash, b.hash))
  }

  /** The queue's representation invariant: ascending (score, hash) order. */
  predicate Sorted(q: seq<Candidate>) {
    forall i :: 0 < i < |q| ==> Before(q[i - 1], q[i])
  }

  /** Popping the minimum of a sorted queue leaves a sorted queue. */
  lemma SortedTail(q: seq<Candidate>)
    requires Sorted(q) && q != []
    ensures Sorted(q[1..])
  {
    forall i | 0 < i < |q[1..]| ensures Before(q[1..][i - 1], q[1..][i]) {
      assert q[1..][i - 1] == q[i] && q[1..][i] == q[i + 1];
    }
  }

  /** The head of a sorted queue has the lowest score in it. */
  lemma {:induction false} HeadHasLowestScore(q: seq<Candidate>)
    requires Sorted(q) && q != []
    ensures forall c :: c in q ==> q[0].score <= c.score
  {
    if |q| > 1 {
      SortedTail(q);
      HeadHasLowestScore(q[1..]);
      forall c | c in q ensures q[0].score <= c.score {
        if c != q[0] {
          assert c in q[1..];
        }
      }
    }
  }

  /** What one select_best_bkmr step does with the queue. */
  datatype Selection =
    | QueueEmpty        // nothing to pop: stop, no reschedule
    | Prune             // the best candidate loses to the chain: drop the whole queue
    | Promote(hash: Hash)  // request the best candidate's block and reschedule

  /** The decision on the popped minimum. The chain's accepted score is only
      consulted when the tracked block number is at or below the chain height. */
  function Select(q: seq<Candidate>, blocknumber: nat, height: nat, blockScore: nat -> int): Selection
  {
    if q == [] then QueueEmpty
    else if blocknumber <= height && q[0].score > blockScore(blocknumber) then Prune
    else Promote(q[0].hash)
  }

  /** Pruning throws away only candidates that lose to the chain: when the
      popped minimum is worse than the accepted score, so is every queued one. */
  lemma PruneDiscardsOnlyWorse(q: seq<Candidate>, blocknumber: nat, height: nat, blockScore: nat -> int)
    requires Sorted(q)
    requires Select(q, blocknumber, height, blockScore).Prune?
    ensures forall c :: c in q ==> c.score > blockScore(blocknumber)
  {
    HeadHasLowestScore(q);
  }

  /** A promoted candidate is at least as good as the chain's accepted score
      (ties included) whenever that score is consulted, and no queued
      candidate has a lower score. */
  lemma PromoteTakesBest(q: seq<Candidate>, blocknumber: nat, height: nat, blockScore: nat -> int)
    requires Sorted(q)
    requires Select(q, blocknumber, height, blockScore).Promote?
    ensures blocknumber <= height ==> q[0].score <= blockScore(blocknumber)
    ensures forall c :: c in q ==> q[0].score <= c.score
  {
    HeadHasLowestScore(q);
  }
}
