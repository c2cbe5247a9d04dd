/** When compare-and-set has one winner: which pairs of rounds are fenced in every run, and in which clusters all
    committed ones are. */
module CasFencing {
  import opened Lamport
  import opened PutRule
  import opened CasAcceptor
  import opened CasRuns
  import opened CasQuorums
  import opened CasScenarios

  /** The higher round started from the lower's write or a later one. */
  predicate Follows(a: Round, b: Round) {
    Gt(b.next, a.next) ==> !Gt(a.next, b.prev)
  }

  /** A node that accepted both rounds fences them. */
  predicate AcceptorFences(a: Round, b: Round, n: nat) {
    n in a.acceptedBy && n in b.acceptedBy ==> Follows(a, b)
  }

  /** The proposer of a committed round that accepted another fences them. */
  predicate ProposerFences(a: Round, b: Round) {
    a.committed && a.proposer in b.acceptedBy ==> Follows(a, b)
  }

  ghost predicate AcceptorsFence(rounds: seq<Round>) {
    forall i, j, n :: 0 <= i < |rounds| && 0 <= j < |rounds| ==> AcceptorFences(rounds[i], rounds[j], n)
  }

  predicate ProposersFence(rounds: seq<Round>) {
    forall i, j :: 0 <= i < |rounds| && 0 <= j < |rounds| ==> ProposerFences(rounds[i], rounds[j])
  }

  /** Rounds alike in all that the two predicates look at. */
  predicate Alike(k: Round, k': Round) {
    k.proposer == k'.proposer && k.prev == k'.prev && k.next == k'.next && k.acceptedBy == k'.acceptedBy
  }

  predicate AllAlike(rounds: seq<Round>, rounds': seq<Round>) {
    |rounds| <= |rounds'| &&
    (forall r :: 0 <= r < |rounds| ==> Alike(rounds[r], rounds'[r])) &&
    forall r :: |rounds| <= r < |rounds'| ==> rounds'[r].acceptedBy == {} && !rounds'[r].committed
  }

  lemma StepAlike(c: Cluster, s: Step)
    requires Inv(c) && Enabled(c, s) && !s.HandleAccept?
    ensures AllAlike(c.rounds, Next(c, s).rounds)
    ensures !s.Finish? ==> forall r :: 0 <= r < |c.rounds| ==> Next(c, s).rounds[r].committed == c.rounds[r].committed
  {}

  /** What a node must be like to accept a round. */
  lemma AcceptNeeds(c: Cluster, s: Step)
    requires Inv(c) && Enabled(c, s) && s.HandleAccept?
    ensures var k := c.rounds[s.r]; var a := c.nodes[s.n];
            && (AcceptReply(a, k.value, k.prev, k.next, s.atRoot).Success? ==>
                  !Gt(a.entry.stamp, k.prev) && a.promised.Some? && !Gt(a.promised.value, k.next) &&
                  Next(c, s).rounds == c.rounds[s.r := k.(acceptedBy := k.acceptedBy + {s.n})])
            && (!AcceptReply(a, k.value, k.prev, k.next, s.atRoot).Success? ==> Next(c, s).rounds == c.rounds)
  {
    assert c.rounds[s.r := c.rounds[s.r]] == c.rounds;
  }

  /** A node that stores at least `a`'s stamp and may accept `b` has seen `b` start from there. */
  lemma Between(a: Stamp, stored: Stamp, prev: Stamp)
    requires !Gt(a, stored) && !Gt(stored, prev)
    ensures !Gt(a, prev)
  {}

  lemma AcceptedFences(nodes: seq<Acceptor>, rounds: seq<Round>, r: nat, n: nat)
    requires Answers(nodes, rounds) && AcceptorsFence(rounds) && r < |rounds| && n < |nodes|
    requires !Gt(nodes[n].entry.stamp, rounds[r].prev)
    requires nodes[n].promised.Some? && !Gt(nodes[n].promised.value, rounds[r].next)
    ensures AcceptorsFence(rounds[r := rounds[r].(acceptedBy := rounds[r].acceptedBy + {n})])
  {
    var rounds' := rounds[r := rounds[r].(acceptedBy := rounds[r].acceptedBy + {n})];
    forall i, j, m | 0 <= i < |rounds'| && 0 <= j < |rounds'| ensures AcceptorFences(rounds'[i], rounds'[j], m) {
      assert AcceptorFences(rounds[i], rounds[j], m);
      assert AnswersHold(nodes, rounds[i]) && AnswersHold(nodes, rounds[j]);
      if m == n && n in rounds[i].acceptedBy {
        Between(rounds[i].next, nodes[n].entry.stamp, rounds[r].prev);
      }
    }
  }

  lemma AcceptedByProposer(nodes: seq<Acceptor>, rounds: seq<Round>, r: nat, n: nat)
    requires Answers(nodes, rounds) && ProposersFence(rounds) && r < |rounds| && n < |nodes|
    requires !Gt(nodes[n].entry.stamp, rounds[r].prev)
    ensures ProposersFence(rounds[r := rounds[r].(acceptedBy := rounds[r].acceptedBy + {n})])
  {
    var rounds' := rounds[r := rounds[r].(acceptedBy := rounds[r].acceptedBy + {n})];
    forall i, j | 0 <= i < |rounds'| && 0 <= j < |rounds'| ensures ProposerFences(rounds'[i], rounds'[j]) {
      assert ProposerFences(rounds[i], rounds[j]);
      assert AnswersHold(nodes, rounds[i]);
      if rounds[i].proposer == n && rounds[i].committed {
        Between(rounds[i].next, nodes[n].entry.stamp, rounds[r].prev);
      }
    }
  }

  lemma AcceptorsFenceOn(c: Cluster, s: Step)
    requires Inv(c) && Enabled(c, s) && AcceptorsFence(c.rounds)
    ensures AcceptorsFence(Next(c, s).rounds)
  {
    if s.HandleAccept? {
      AcceptNeeds(c, s);
      if Next(c, s).rounds != c.rounds {
        AcceptedFences(c.nodes, c.rounds, s.r, s.n);
      }
    } else {
      StepAlike(c, s);
      var rounds' := Next(c, s).rounds;
      forall i, j, n | 0 <= i < |rounds'| && 0 <= j < |rounds'| ensures AcceptorFences(rounds'[i], rounds'[j], n) {
        if i < |c.rounds| && j < |c.rounds| {
          assert AcceptorFences(c.rounds[i], c.rounds[j], n);
        }
      }
    }
  }

  lemma ProposersFenceOn(c: Cluster, s: Step)
    requires Inv(c) && Enabled(c, s) && ProposersFence(c.rounds) && (s.Finish? ==> s.atRoot)
    ensures ProposersFence(Next(c, s).rounds)
  {
    if s.HandleAccept? {
      AcceptNeeds(c, s);
      if Next(c, s).rounds != c.rounds {
        AcceptedByProposer(c.nodes, c.rounds, s.r, s.n);
      }
    } else {
      StepAlike(c, s);
      var rounds' := Next(c, s).rounds;
      forall i, j | 0 <= i < |rounds'| && 0 <= j < |rounds'| ensures ProposerFences(rounds'[i], rounds'[j]) {
        if i < |c.rounds| && j < |c.rounds| {
          assert ProposerFences(c.rounds[i], c.rounds[j]);
          if s.Finish? {
            TruthfulFinish(c, s, j);
          }
        }
      }
    }
  }

  /** A proposer that accepted a higher round is told the truth about its own: it does not commit. */
  lemma TruthfulFinish(c: Cluster, s: Step, j: nat)
    requires Inv(c) && Enabled(c, s) && s.Finish? && s.atRoot && j < |c.rounds|
    ensures var r := c.proposals[s.p].value.round.value;
            c.rounds[r].proposer == s.p && Next(c, s).rounds == c.rounds[r := Next(c, s).rounds[r]] &&
            (s.p in c.rounds[j].acceptedBy && Gt(c.rounds[j].next, c.rounds[r].next) ==> !Next(c, s).rounds[r].committed)
  {
    assert ProposalHolds(s.p, c.proposals[s.p], c.rounds);
    assert AnswersHold(c.nodes, c.rounds[j]);
  }

  /** In every run, a node that accepted two rounds fences them. */
  lemma {:induction false} RunAcceptorsFence(states: seq<Cluster>, steps: seq<Step>, i: nat)
    requires IsRun(states, steps) && i < |states|
    ensures AcceptorsFence(states[i].rounds)
  {
    if i == 0 {
    } else {
      RunAcceptorsFence(states, steps, i - 1);
      RunKeepsInv(states, steps, i - 1);
      assert states[i] == Next(states[i - 1], steps[i - 1]);
      AcceptorsFenceOn(states[i - 1], steps[i - 1]);
    }
  }

  /** In every truthful run, so does a committed round's proposer that accepted a higher one. */
  lemma {:induction false} RunProposersFence(states: seq<Cluster>, steps: seq<Step>, i: nat)
    requires IsRun(states, steps) && Truthful(steps) && i < |states|
    ensures ProposersFence(states[i].rounds)
  {
    if i == 0 {
    } else {
      RunProposersFence(states, steps, i - 1);
      RunKeepsInv(states, steps, i - 1);
      assert states[i] == Next(states[i - 1], steps[i - 1]);
      ProposersFenceOn(states[i - 1], steps[i - 1]);
    }
  }

  // ---------------------------------------------------------------- in which clusters

  /** Of any two committed rounds, the higher started from the lower's write or a later one. */
  predicate AllFollow(rounds: seq<Round>) {
    forall a, b :: 0 <= a < |rounds| && 0 <= b < |rounds| && rounds[a].committed && rounds[b].committed ==>
      Follows(rounds[a], rounds[b])
  }

  predicate Wins(k: Round) {
    k.committed && Gt(k.next, k.prev)
  }

  /** No two rounds win from one starting stamp. */
  predicate OneWinnerEach(rounds: seq<Round>) {
    forall a, b :: 0 <= a < b < |rounds| && Wins(rounds[a]) && Wins(rounds[b]) ==> rounds[a].prev != rounds[b].prev
  }

  ghost predicate IsRunOf(states: seq<Cluster>, steps: seq<Step>, n: nat, truthful: bool) {
    IsRun(states, steps) && |states[0].nodes| == n && (truthful ==> Truthful(steps))
  }

  /** Every run of `n` nodes, or every truthful one, fences all its committed rounds. */
  ghost predicate AlwaysFences(n: nat, truthful: bool) {
    forall states: seq<Cluster>, steps: seq<Step> :: IsRunOf(states, steps, n, truthful) ==>
      forall i :: 0 <= i < |states| ==> AllFollow(states[i].rounds)
  }

  ghost predicate AlwaysOneWinner(n: nat, truthful: bool) {
    forall states: seq<Cluster>, steps: seq<Step> :: IsRunOf(states, steps, n, truthful) ==>
      forall i :: 0 <= i < |states| ==> OneWinnerEach(states[i].rounds)
  }

  lemma {:induction false} SizeStays(states: seq<Cluster>, steps: seq<Step>, i: nat)
    requires IsRun(states, steps) && i < |states|
    ensures |states[i].nodes| == |states[0].nodes|
  {
    if i == 0 {
    } else {
      SizeStays(states, steps, i - 1);
      assert states[i] == Next(states[i - 1], steps[i - 1]);
    }
  }

  /** Two sets of answers of half the cluster each meet, or one holds everyone outside the other. */
  lemma HalvesMeetOrFill(n: nat, a: set<nat>, b: set<nat>, x: nat)
    requires a <= NodeIds(n) && b <= NodeIds(n) && |a| + |b| >= n && x < n && x !in a
    ensures a * b != {} || x in b
  {
    if x !in b {
      var others := NodeIds(n) - {x};
      assert |others| == n - 1;
      assert a + b <= others;
      SubsetSize(a + b, others);
      assert |a + b| + |a * b| == |a| + |b|;
    }
  }

  lemma EvenFences(states: seq<Cluster>, steps: seq<Step>, i: nat, a: nat, b: nat)
    requires IsRun(states, steps) && Truthful(steps) && i < |states| && |states[i].nodes| % 2 == 0
    requires a < |states[i].rounds| && b < |states[i].rounds|
    requires states[i].rounds[a].committed && states[i].rounds[b].committed
    ensures Follows(states[i].rounds[a], states[i].rounds[b])
  {
    var c := states[i];
    var ra, rb := c.rounds[a], c.rounds[b];
    RunKeepsInv(states, steps, i);
    RunAcceptorsFence(states, steps, i);
    RunProposersFence(states, steps, i);
    assert AnswersHold(c.nodes, ra) && AnswersHold(c.nodes, rb);
    HalvesMeetOrFill(|c.nodes|, ra.acceptedBy, rb.acceptedBy, ra.proposer);
    if ra.proposer in rb.acceptedBy {
      assert ProposerFences(ra, rb);
    } else {
      var n :| n in ra.acceptedBy * rb.acceptedBy;
      assert AcceptorFences(ra, rb, n);
    }
  }

  lemma SingleFences(states: seq<Cluster>, steps: seq<Step>, i: nat, a: nat, b: nat)
    requires IsRun(states, steps) && i < |states| && |states[i].nodes| <= 1
    requires a < |states[i].rounds| && b < |states[i].rounds|
    requires states[i].rounds[a].committed && states[i].rounds[b].committed
    ensures Follows(states[i].rounds[a], states[i].rounds[b])
  {
    RunKeepsInv(states, steps, i);
    assert AnswersHold(states[i].nodes, states[i].rounds[a]) && AnswersHold(states[i].nodes, states[i].rounds[b]);
    if Gt(states[i].rounds[b].next, states[i].rounds[a].next) {
      CommittedFenced(states, steps, i, a, b);
    }
  }

  /** Fencing leaves one winner. */
  lemma FollowsLeavesOne(states: seq<Cluster>, steps: seq<Step>, i: nat)
    requires IsRun(states, steps) && i < |states| && AllFollow(states[i].rounds)
    ensures OneWinnerEach(states[i].rounds)
  {
    var rounds := states[i].rounds;
    forall a, b | 0 <= a < b < |rounds| && Wins(rounds[a]) && Wins(rounds[b]) ensures rounds[a].prev != rounds[b].prev {
      NextsDiffer(states, steps, i, a, b);
      assert Follows(rounds[a], rounds[b]) && Follows(rounds[b], rounds[a]);
    }
  }

  /** Which clusters have one winner per starting stamp in every run: those of an even number of nodes and those of
      one, as long as the store reports truthfully; those of at most one node otherwise. */
  predicate Guarded(n: nat, truthful: bool) {
    if truthful then n % 2 == 0 || n == 1 else n <= 1
  }

  lemma FencesExactly(n: nat, truthful: bool)
    ensures AlwaysFences(n, truthful) <==> Guarded(n, truthful)
    ensures AlwaysOneWinner(n, truthful) <==> Guarded(n, truthful)
  {
    if Guarded(n, truthful) {
      forall states: seq<Cluster>, steps: seq<Step>, i | IsRunOf(states, steps, n, truthful) && 0 <= i < |states|
        ensures AllFollow(states[i].rounds) && OneWinnerEach(states[i].rounds)
      {
        RunFences(states, steps, i, n, truthful);
        FollowsLeavesOne(states, steps, i);
      }
    } else {
      var states, steps := TwoWinners(n);
      var rounds := states[|steps|].rounds;
      assert IsRunOf(states, steps, n, truthful);
      assert !Follows(rounds[1], rounds[0]) && Wins(rounds[0]) && Wins(rounds[1]);
    }
  }

  lemma RunFences(states: seq<Cluster>, steps: seq<Step>, i: nat, n: nat, truthful: bool)
    requires IsRunOf(states, steps, n, truthful) && i < |states| && Guarded(n, truthful)
    ensures AllFollow(states[i].rounds)
  {
    SizeStays(states, steps, i);
    var rounds := states[i].rounds;
    forall a, b | 0 <= a < |rounds| && 0 <= b < |rounds| && rounds[a].committed && rounds[b].committed
      ensures Follows(rounds[a], rounds[b])
    {
      if n <= 1 {
        SingleFences(states, steps, i, a, b);
      } else {
        EvenFences(states, steps, i, a, b);
      }
    }
  }
}
