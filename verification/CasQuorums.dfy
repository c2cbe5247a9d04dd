/** Where CAS quorums meet. The proposer counts itself but makes itself no promise, so two quorums always meet in some
    node, which may be a proposer. */
module CasQuorums {
  import opened Lamport
  import opened PutRule
  import opened CasAcceptor
  import opened CasRuns

  /** The numbers from `lo` up to `hi`. */
  function Ids(lo: nat, hi: nat): (s: set<nat>)
    requires lo <= hi
    ensures |s| == hi - lo && forall i :: i in s <==> lo <= i < hi
    decreases hi
  {
    if lo == hi then {} else Ids(lo, hi - 1) + {hi - 1}
  }

  function NodeIds(n: nat): set<nat> {
    Ids(0, n)
  }

  /** Two sets of nodes that are together larger than the cluster meet. */
  lemma LargeSetsMeet(n: nat, a: set<nat>, b: set<nat>)
    requires a <= NodeIds(n) && b <= NodeIds(n) && |a| + |b| > n
    ensures a * b != {}
  {
    SubsetSize(a + b, NodeIds(n));
    assert |a + b| + |a * b| == |a| + |b|;
  }

  /** Any two passing quorums, each with its proposer added, share a node. */
  lemma QuorumsMeet(n: nat, p: nat, a: set<nat>, q: nat, b: set<nat>)
    requires p < n && a <= NodeIds(n) - {p} && |a| >= Quorum(n)
    requires q < n && b <= NodeIds(n) - {q} && |b| >= Quorum(n)
    ensures (a + {p}) * (b + {q}) != {}
  {
    assert |a + {p}| == |a| + 1 && |b + {q}| == |b| + 1;
    LargeSetsMeet(n, a + {p}, b + {q});
  }

  /** In every run, two committed rounds share a node, proposers included. */
  lemma CommittedMeet(states: seq<Cluster>, steps: seq<Step>, i: nat, a: nat, b: nat)
    requires IsRun(states, steps) && i < |states| && a < |states[i].rounds| && b < |states[i].rounds|
    requires states[i].rounds[a].committed && states[i].rounds[b].committed
    ensures var ra, rb := states[i].rounds[a], states[i].rounds[b];
            (ra.acceptedBy + {ra.proposer}) * (rb.promisedBy + {rb.proposer}) != {}
  {
    RunKeepsInv(states, steps, i);
    var ra, rb := states[i].rounds[a], states[i].rounds[b];
    var n := |states[i].nodes|;
    assert AnswersHold(states[i].nodes, ra) && AnswersHold(states[i].nodes, rb);
    QuorumsMeet(n, ra.proposer, ra.acceptedBy, rb.proposer, rb.promisedBy);
  }

  /** Answer counts that fence: when the nodes that accepted the lower round and those that promised the higher
      together outnumber the cluster, the higher round started from the lower's write or a later one. */
  lemma CountsFence(states: seq<Cluster>, steps: seq<Step>, i: nat, a: nat, b: nat)
    requires IsRun(states, steps) && i < |states| && a < |states[i].rounds| && b < |states[i].rounds|
    requires states[i].rounds[a].committed && states[i].rounds[b].committed
    requires Gt(states[i].rounds[b].next, states[i].rounds[a].next)
    requires |states[i].rounds[a].acceptedBy| + |states[i].rounds[b].promisedBy| > |states[i].nodes|
    ensures !Gt(states[i].rounds[a].next, states[i].rounds[b].prev)
  {
    RunKeepsInv(states, steps, i);
    var ra, rb := states[i].rounds[a], states[i].rounds[b];
    assert AnswersHold(states[i].nodes, ra) && AnswersHold(states[i].nodes, rb);
    LargeSetsMeet(|states[i].nodes|, ra.acceptedBy, rb.promisedBy);
    CommittedFenced(states, steps, i, a, b);
  }

  /** Waiting for `q` answers forces the answers of any two proposers to share a node. */
  ghost predicate ForcesWitness(n: nat, q: nat) {
    forall p1, p2, a, b ::
      p1 < n && p2 < n && p1 != p2 && a <= NodeIds(n) - {p1} && b <= NodeIds(n) - {p2} && |a| >= q && |b| >= q ==>
        a * b != {}
  }

  /** The exact number of answers that forces a common witness: more than half of the cluster, not counting the
      proposer. */
  lemma WitnessThreshold(n: nat, q: nat)
    requires n >= 2
    ensures ForcesWitness(n, q) <==> 2 * q > n
  {
    if 2 * q > n {
      ManyAnswersMeet(n, q);
    } else {
      FewAnswersMayMiss(n, q);
    }
  }

  lemma ManyAnswersMeet(n: nat, q: nat)
    requires 2 * q > n
    ensures ForcesWitness(n, q)
  {
    forall p1, p2, a: set<nat>, b: set<nat> |
      p1 < n && p2 < n && p1 != p2 && a <= NodeIds(n) - {p1} && b <= NodeIds(n) - {p2} && |a| >= q && |b| >= q
      ensures a * b != {}
    {
      LargeSetsMeet(n, a, b);
    }
  }

  lemma FewAnswersMayMiss(n: nat, q: nat)
    requires 2 <= n && 2 * q <= n
    ensures !ForcesWitness(n, q)
  {
    var a, b := DisjointAnswers(q);
    assert forall i :: i in a + b ==> i in NodeIds(n);
    assert a <= NodeIds(n) - {0} && b <= NodeIds(n) - {1};
  }

  /** Answers to proposers 0 and 1 from different nodes: each answers the other. */
  lemma {:induction false} DisjointAnswers(q: nat) returns (a: set<nat>, b: set<nat>)
    ensures |a| == q && |b| == q && a * b == {} && 0 !in a && 1 !in b
    ensures forall i :: i in a + b ==> i < 2 * q
  {
    if q == 0 {
      a, b := {}, {};
    } else {
      a, b := DisjointAnswers(q - 1);
      a, b := a + {2 * q - 1}, b + {2 * q - 2};
    }
  }

  /** The number the code waits for is one short of that, for every cluster. */
  lemma CodeQuorumIsOneShort(n: nat)
    requires n >= 2
    ensures !ForcesWitness(n, Quorum(n)) && ForcesWitness(n, Quorum(n) + 1)
  {
    WitnessThreshold(n, Quorum(n));
    WitnessThreshold(n, Quorum(n) + 1);
  }
}
