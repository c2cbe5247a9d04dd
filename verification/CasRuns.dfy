/** Whole runs of compare-and-set on one key that every node holds as data: any number of proposers, client
    and replicated SETs in between, requests delivered in any order, repeatedly or never. */
module CasRuns {
  import opened Lamport
  import opened PutRule
  import opened CasAcceptor

  /** One PREPARE broadcast and what became of it. `promisedBy` and `acceptedBy` are the nodes whose handler
      answered success; the proposer may have heard of only some of them. */
  datatype Round = Round(proposer: nat, prev: Stamp, next: Stamp, value: string, promisedBy: set<nat>,
                         acceptedBy: set<nat>, acceptSent: bool, committed: bool)

  /** A CAS request a node is working on: the counter of its last round, and that round's number. A node works
      on one request per key at a time. */
  datatype Proposal = Proposal(counter: nat, expected: string, newValue: string, round: Option<nat>)

  datatype Cluster = Cluster(nodes: seq<Acceptor>, proposals: seq<Option<Proposal>>, rounds: seq<Round>)

  datatype Step =
    | BeginCas(p: nat, expected: string, newValue: string)
    | SendPrepare(p: nat)
    | HandlePrepare(n: nat, r: nat)
    | SendAccept(p: nat, heard: set<nat>)
    | HandleAccept(n: nat, r: nat, atRoot: bool)
    | Finish(p: nat, heard: set<nat>, atRoot: bool)
    | GiveUp(p: nat)
    | Set(n: nat, put: Put)

  /** How many successful answers the proposer waits for: a majority of all nodes, counting itself. */
  function Quorum(nodes: nat): nat {
    (nodes / 2 + 1) - 1
  }

  predicate Working(c: Cluster, p: nat) {
    p < |c.nodes| && p < |c.proposals| && c.proposals[p].Some?
  }

  /** The request of `p` is in round `r`. */
  predicate InRound(c: Cluster, p: nat, r: nat) {
    Working(c, p) && c.proposals[p].value.round == Some(r) && r < |c.rounds|
  }

  predicate Enabled(c: Cluster, s: Step) {
    match s
    case BeginCas(p, _, _) => p < |c.nodes| && p < |c.proposals| && c.proposals[p].None?
    case SendPrepare(p) =>
      Working(c, p) && (c.proposals[p].value.round.Some? ==>
        InRound(c, p, c.proposals[p].value.round.value) && !c.rounds[c.proposals[p].value.round.value].acceptSent)
    case HandlePrepare(n, r) => n < |c.nodes| && r < |c.rounds| && n != c.rounds[r].proposer
    case SendAccept(p, heard) =>
      Working(c, p) && c.proposals[p].value.round.Some? &&
      var r := c.proposals[p].value.round.value;
      InRound(c, p, r) && heard <= c.rounds[r].promisedBy && |heard| >= Quorum(|c.nodes|)
    case HandleAccept(n, r, _) =>
      n < |c.nodes| && r < |c.rounds| && n != c.rounds[r].proposer && c.rounds[r].acceptSent
    case Finish(p, heard, _) =>
      Working(c, p) && c.proposals[p].value.round.Some? &&
      var r := c.proposals[p].value.round.value;
      InRound(c, p, r) && c.rounds[r].acceptSent && heard <= c.rounds[r].acceptedBy && |heard| >= Quorum(|c.nodes|)
    case GiveUp(p) => Working(c, p)
    case Set(n, put) => n < |c.nodes| && put.strategy == if put.fromNode then SET_MAX else TICK
  }

  function Next(c: Cluster, s: Step): Cluster
    requires Enabled(c, s)
  {
    match s
    case BeginCas(p, expected, newValue) =>
      c.(proposals := c.proposals[p := Some(Proposal(c.nodes[p].clock, expected, newValue, None))])
    case SendPrepare(p) =>
      var op := c.proposals[p].value;
      var entry := c.nodes[p].entry;
      if entry.value != op.expected then c.(proposals := c.proposals[p := None])
      else
        var next := Stamp(op.counter + 1, p);
        Cluster(c.nodes,
                c.proposals[p := Some(op.(counter := op.counter + 1, round := Some(|c.rounds|)))],
                c.rounds + [Round(p, entry.stamp, next, op.newValue, {}, {}, false, false)])
    case HandlePrepare(n, r) =>
      var k := c.rounds[r];
      var ok := PrepareReply(c.nodes[n], k.prev, k.next).Success?;
      Cluster(c.nodes[n := OnPrepare(c.nodes[n], k.prev, k.next)], c.proposals,
              c.rounds[r := k.(promisedBy := if ok then k.promisedBy + {n} else k.promisedBy)])
    case SendAccept(p, _) =>
      var r := c.proposals[p].value.round.value;
      c.(rounds := c.rounds[r := c.rounds[r].(acceptSent := true)])
    case HandleAccept(n, r, atRoot) =>
      var k := c.rounds[r];
      var ok := AcceptReply(c.nodes[n], k.value, k.prev, k.next, atRoot).Success?;
      Cluster(c.nodes[n := OnAccept(c.nodes[n], k.value, k.prev, k.next, atRoot)], c.proposals,
              c.rounds[r := k.(acceptedBy := if ok then k.acceptedBy + {n} else k.acceptedBy)])
    case Finish(p, _, atRoot) =>
      var r := c.proposals[p].value.round.value;
      var a := c.nodes[p];
      var put := CasPut(a, c.rounds[r].value, c.rounds[r].next);
      Cluster(c.nodes[p := Store(a, put)], c.proposals[p := None],
              c.rounds[r := c.rounds[r].(committed := StoreReportsOk(a, put, atRoot))])
    case GiveUp(p) => c.(proposals := c.proposals[p := None])
    case Set(n, put) => c.(nodes := c.nodes[n := Store(c.nodes[n], put)])
  }

  predicate Init(c: Cluster) {
    && c.rounds == [] && |c.proposals| == |c.nodes|
    && (forall n :: 0 <= n < |c.nodes| ==> ClockCovers(c.nodes[n]))
    && (forall p :: 0 <= p < |c.proposals| ==> c.proposals[p].None?)
  }

  predicate IsRun(states: seq<Cluster>, steps: seq<Step>) {
    |states| == |steps| + 1 && Init(states[0]) &&
    forall i {:trigger steps[i]} :: 0 <= i < |steps| ==>
      Enabled(states[i], steps[i]) && states[i + 1] == Next(states[i], steps[i])
  }

  // ---------------------------------------------------------------- invariant

  predicate Promised(a: Acceptor, next: Stamp) {
    a.promised.Some? && !Gt(next, a.promised.value)
  }

  /** What a node's answers to a round still say about the node. */
  predicate AnswersHold(nodes: seq<Acceptor>, k: Round) {
    && (forall n :: n in k.promisedBy ==> n < |nodes| && n != k.proposer && Promised(nodes[n], k.next))
    && (forall n :: n in k.acceptedBy ==>
          n < |nodes| && n != k.proposer && Promised(nodes[n], k.next) && !Gt(k.next, nodes[n].entry.stamp))
    && (k.proposer < |nodes|)
    && (k.committed ==> !Gt(k.next, nodes[k.proposer].entry.stamp))
    && QuorumsPassed(k, |nodes|)
  }

  /** A round moves on only past a quorum of answers. */
  predicate QuorumsPassed(k: Round, nodes: nat) {
    && (k.acceptSent ==> |k.promisedBy| >= Quorum(nodes))
    && (k.committed ==> k.acceptSent && |k.acceptedBy| >= Quorum(nodes))
  }

  lemma SubsetSize(a: set<nat>, b: set<nat>)
    requires a <= b
    ensures |a| <= |b|
  {
    assert b == a + (b - a);
  }

  predicate Answers(nodes: seq<Acceptor>, rounds: seq<Round>) {
    forall r :: 0 <= r < |rounds| ==> AnswersHold(nodes, rounds[r])
  }

  predicate Covered(nodes: seq<Acceptor>) {
    forall n :: 0 <= n < |nodes| ==> ClockCovers(nodes[n])
  }

  /** Node `n` accepted round `a` and promised the higher round `b`: then `b` started from `a`'s write or a
      later one. */
  predicate FencedAt(a: Round, b: Round, n: nat) {
    n in a.acceptedBy && n in b.promisedBy && Gt(b.next, a.next) ==> !Gt(a.next, b.prev)
  }

  ghost predicate Fenced(rounds: seq<Round>) {
    forall i, j, n :: 0 <= i < |rounds| && 0 <= j < |rounds| ==> FencedAt(rounds[i], rounds[j], n)
  }

  /** A committed round of a proposer comes before all its later rounds. */
  predicate Serial(rounds: seq<Round>) {
    forall i, j :: 0 <= i < j < |rounds| && rounds[i].proposer == rounds[j].proposer && rounds[i].committed ==>
      !Gt(rounds[i].next, rounds[j].prev) && rounds[i].next.counter < rounds[j].next.counter
  }

  /** The request in progress at `p` counts from above every stamp `p` has committed, and is in the last of its
      rounds. */
  predicate ProposalHolds(p: nat, op: Option<Proposal>, rounds: seq<Round>) {
    op.Some? ==>
      && (forall i :: 0 <= i < |rounds| && rounds[i].proposer == p && rounds[i].committed ==>
            rounds[i].next.counter <= op.value.counter)
      && (op.value.round.Some? ==>
            && op.value.round.value < |rounds| && rounds[op.value.round.value].proposer == p
            && forall i :: op.value.round.value < i < |rounds| ==> rounds[i].proposer != p)
  }

  predicate Proposals(proposals: seq<Option<Proposal>>, rounds: seq<Round>) {
    forall p :: 0 <= p < |proposals| ==> ProposalHolds(p, proposals[p], rounds)
  }

  ghost predicate Inv(c: Cluster) {
    && |c.proposals| == |c.nodes|
    && Covered(c.nodes)
    && Answers(c.nodes, c.rounds)
    && Fenced(c.rounds)
    && Serial(c.rounds)
    && Proposals(c.proposals, c.rounds)
  }

  /** Everything the rounds say about the nodes survives a node that only rises. */
  lemma NodeRises(nodes: seq<Acceptor>, rounds: seq<Round>, n: nat, b: Acceptor)
    requires Covered(nodes) && Answers(nodes, rounds) && n < |nodes| && Rises(nodes[n], b)
    ensures Covered(nodes[n := b]) && Answers(nodes[n := b], rounds)
  {
    forall r | 0 <= r < |rounds| ensures AnswersHold(nodes[n := b], rounds[r]) {
      assert AnswersHold(nodes, rounds[r]);
    }
  }

  /** Two rounds that differ in their answers only. */
  predicate SameRound(k: Round, k': Round) {
    k.proposer == k'.proposer && k.prev == k'.prev && k.next == k'.next && k.committed == k'.committed
  }

  lemma OneRoundAnswered(proposals: seq<Option<Proposal>>, rounds: seq<Round>, r: nat, k': Round)
    requires Serial(rounds) && Proposals(proposals, rounds) && r < |rounds| && SameRound(rounds[r], k')
    ensures Serial(rounds[r := k']) && Proposals(proposals, rounds[r := k'])
  {
    forall p | 0 <= p < |proposals| ensures ProposalHolds(p, proposals[p], rounds[r := k']) {
      assert ProposalHolds(p, proposals[p], rounds);
    }
  }

  lemma OneRoundReplaced(nodes: seq<Acceptor>, rounds: seq<Round>, r: nat, k': Round)
    requires Answers(nodes, rounds) && r < |rounds| && AnswersHold(nodes, k')
    ensures Answers(nodes, rounds[r := k'])
  {}

  /** A node that stores nothing above a round's starting stamp may promise it. */
  lemma PromiseFenced(nodes: seq<Acceptor>, rounds: seq<Round>, r: nat, n: nat)
    requires Answers(nodes, rounds) && Fenced(rounds) && r < |rounds| && n < |nodes|
    requires !Gt(nodes[n].entry.stamp, rounds[r].prev)
    ensures Fenced(rounds[r := rounds[r].(promisedBy := rounds[r].promisedBy + {n})])
  {
    var rounds' := rounds[r := rounds[r].(promisedBy := rounds[r].promisedBy + {n})];
    forall i, j, m | 0 <= i < |rounds'| && 0 <= j < |rounds'| ensures FencedAt(rounds'[i], rounds'[j], m) {
      assert FencedAt(rounds[i], rounds[j], m);
      assert AnswersHold(nodes, rounds[i]);
    }
  }

  /** A node that promised nothing above a round may accept it. */
  lemma AcceptFenced(nodes: seq<Acceptor>, rounds: seq<Round>, r: nat, n: nat)
    requires Answers(nodes, rounds) && Fenced(rounds) && r < |rounds| && n < |nodes|
    requires nodes[n].promised.Some? && !Gt(nodes[n].promised.value, rounds[r].next)
    ensures Fenced(rounds[r := rounds[r].(acceptedBy := rounds[r].acceptedBy + {n})])
  {
    var rounds' := rounds[r := rounds[r].(acceptedBy := rounds[r].acceptedBy + {n})];
    forall i, j, m | 0 <= i < |rounds'| && 0 <= j < |rounds'| ensures FencedAt(rounds'[i], rounds'[j], m) {
      assert FencedAt(rounds[i], rounds[j], m);
      assert AnswersHold(nodes, rounds[j]);
    }
  }

  lemma PrepareKeepsInv(c: Cluster, n: nat, r: nat)
    requires Inv(c) && Enabled(c, HandlePrepare(n, r))
    ensures Inv(Next(c, HandlePrepare(n, r)))
  {
    var c' := Next(c, HandlePrepare(n, r));
    var k, k' := c.rounds[r], c'.rounds[r];
    PrepareRises(c.nodes[n], k.prev, k.next);
    NodeRises(c.nodes, c.rounds, n, c'.nodes[n]);
    OneRoundAnswered(c.proposals, c.rounds, r, k');
    if PrepareReply(c.nodes[n], k.prev, k.next).Success? {
      PromiseFenced(c.nodes, c.rounds, r, n);
      assert AnswersHold(c'.nodes, k') by {
        assert AnswersHold(c'.nodes, k);
        SubsetSize(k.promisedBy, k'.promisedBy);
      }
      OneRoundReplaced(c'.nodes, c.rounds, r, k');
    } else {
      assert c'.rounds == c.rounds;
    }
  }

  lemma AcceptKeepsInv(c: Cluster, s: Step)
    requires Inv(c) && Enabled(c, s) && s.HandleAccept?
    ensures Inv(Next(c, s))
  {
    var c' := Next(c, s);
    var n, k, k' := s.n, c.rounds[s.r], c'.rounds[s.r];
    AcceptRises(c.nodes[n], k.value, k.prev, k.next, s.atRoot);
    NodeRises(c.nodes, c.rounds, n, c'.nodes[n]);
    OneRoundAnswered(c.proposals, c.rounds, s.r, k');
    if AcceptReply(c.nodes[n], k.value, k.prev, k.next, s.atRoot).Success? {
      AcceptFenced(c.nodes, c.rounds, s.r, n);
      assert AnswersHold(c'.nodes, k') by {
        assert AnswersHold(c'.nodes, k);
        SubsetSize(k.acceptedBy, k'.acceptedBy);
      }
      OneRoundReplaced(c'.nodes, c.rounds, s.r, k');
    } else {
      assert c'.rounds == c.rounds;
    }
  }

  /** Fencing looks at a round's answers and stamps only. */
  lemma SameAnswersFenced(rounds: seq<Round>, r: nat, k': Round)
    requires Fenced(rounds) && r < |rounds|
    requires k' == rounds[r].(acceptSent := k'.acceptSent, committed := k'.committed)
    ensures Fenced(rounds[r := k'])
  {
    var rounds' := rounds[r := k'];
    forall i, j, m | 0 <= i < |rounds'| && 0 <= j < |rounds'| ensures FencedAt(rounds'[i], rounds'[j], m) {
      assert FencedAt(rounds[i], rounds[j], m);
    }
  }

  lemma SendPrepareKeepsInv(c: Cluster, p: nat)
    requires Inv(c) && Enabled(c, SendPrepare(p))
    ensures Inv(Next(c, SendPrepare(p)))
  {
    var c' := Next(c, SendPrepare(p));
    forall q | 0 <= q < |c'.proposals| ensures ProposalHolds(q, c'.proposals[q], c'.rounds) {
      assert ProposalHolds(q, c.proposals[q], c.rounds);
    }
    if |c'.rounds| > |c.rounds| {
      var k := c'.rounds[|c.rounds|];
      forall i | 0 <= i < |c.rounds| && c.rounds[i].proposer == p && c.rounds[i].committed
        ensures !Gt(c.rounds[i].next, k.prev) && c.rounds[i].next.counter < k.next.counter
      {
        assert AnswersHold(c.nodes, c.rounds[i]) && ProposalHolds(p, c.proposals[p], c.rounds);
      }
      forall i, j, m | 0 <= i < |c'.rounds| && 0 <= j < |c'.rounds| ensures FencedAt(c'.rounds[i], c'.rounds[j], m) {
        if i < |c.rounds| && j < |c.rounds| {
          assert FencedAt(c.rounds[i], c.rounds[j], m);
        }
      }
    }
  }

  lemma SendAcceptKeepsInv(c: Cluster, s: Step)
    requires Inv(c) && Enabled(c, s) && s.SendAccept?
    ensures Inv(Next(c, s))
  {
    var c' := Next(c, s);
    var r := c.proposals[s.p].value.round.value;
    OneRoundAnswered(c.proposals, c.rounds, r, c'.rounds[r]);
    SameAnswersFenced(c.rounds, r, c'.rounds[r]);
    assert AnswersHold(c.nodes, c.rounds[r]);
    SubsetSize(s.heard, c.rounds[r].promisedBy);
  }

  /** Committing a proposer's last round keeps its rounds in order. */
  lemma LastRoundCommits(c: Cluster, p: nat, r: nat, ok: bool)
    requires Serial(c.rounds) && Proposals(c.proposals, c.rounds) && InRound(c, p, r)
    ensures var rounds' := c.rounds[r := c.rounds[r].(committed := ok)];
            Serial(rounds') && Proposals(c.proposals[p := None], rounds')
  {
    assert ProposalHolds(p, c.proposals[p], c.rounds);
    forall q | 0 <= q < |c.proposals| && q != p
      ensures ProposalHolds(q, c.proposals[q], c.rounds[r := c.rounds[r].(committed := ok)])
    {
      assert ProposalHolds(q, c.proposals[q], c.rounds);
    }
  }

  lemma FinishKeepsInv(c: Cluster, s: Step)
    requires Inv(c) && Enabled(c, s) && s.Finish?
    ensures Inv(Next(c, s))
  {
    var c' := Next(c, s);
    var r := c.proposals[s.p].value.round.value;
    assert ProposalHolds(s.p, c.proposals[s.p], c.rounds);
    SetRises(c.nodes[s.p], CasPut(c.nodes[s.p], c.rounds[r].value, c.rounds[r].next));
    NodeRises(c.nodes, c.rounds, s.p, c'.nodes[s.p]);
    LastRoundCommits(c, s.p, r, c'.rounds[r].committed);
    SameAnswersFenced(c.rounds, r, c'.rounds[r]);
    assert AnswersHold(c'.nodes, c'.rounds[r]) by {
      assert AnswersHold(c'.nodes, c.rounds[r]);
      SubsetSize(s.heard, c.rounds[r].acceptedBy);
    }
    OneRoundReplaced(c'.nodes, c.rounds, r, c'.rounds[r]);
  }

  lemma RequestKeepsInv(c: Cluster, s: Step)
    requires Inv(c) && Enabled(c, s) && (s.BeginCas? || s.GiveUp?)
    ensures Inv(Next(c, s))
  {
    var c' := Next(c, s);
    forall q | 0 <= q < |c'.proposals| ensures ProposalHolds(q, c'.proposals[q], c'.rounds) {
      assert ProposalHolds(q, c.proposals[q], c.rounds);
      forall i | 0 <= i < |c.rounds| && c.rounds[i].proposer == s.p && c.rounds[i].committed
        ensures c.rounds[i].next.counter <= c.nodes[s.p].clock
      {
        assert AnswersHold(c.nodes, c.rounds[i]);
      }
    }
  }

  lemma SetKeepsInv(c: Cluster, s: Step)
    requires Inv(c) && Enabled(c, s) && s.Set?
    ensures Inv(Next(c, s))
  {
    SetRises(c.nodes[s.n], s.put);
    NodeRises(c.nodes, c.rounds, s.n, Store(c.nodes[s.n], s.put));
  }

  lemma NextKeepsInv(c: Cluster, s: Step)
    requires Inv(c) && Enabled(c, s)
    ensures Inv(Next(c, s))
  {
    match s {
      case BeginCas(_, _, _) => RequestKeepsInv(c, s);
      case GiveUp(_) => RequestKeepsInv(c, s);
      case SendPrepare(p) => SendPrepareKeepsInv(c, p);
      case HandlePrepare(n, r) => PrepareKeepsInv(c, n, r);
      case SendAccept(_, _) => SendAcceptKeepsInv(c, s);
      case HandleAccept(_, _, _) => AcceptKeepsInv(c, s);
      case Finish(_, _, _) => FinishKeepsInv(c, s);
      case Set(_, _) => SetKeepsInv(c, s);
    }
  }

  lemma {:induction false} RunKeepsInv(states: seq<Cluster>, steps: seq<Step>, i: nat)
    requires IsRun(states, steps) && i < |states|
    ensures Inv(states[i])
  {
    if i == 0 {
    } else {
      RunKeepsInv(states, steps, i - 1);
      assert states[i] == Next(states[i - 1], steps[i - 1]);
      NextKeepsInv(states[i - 1], steps[i - 1]);
    }
  }

  // ---------------------------------------------------------------- results

  lemma StepRises(c: Cluster, s: Step, n: nat)
    requires Inv(c) && Enabled(c, s) && n < |c.nodes|
    ensures |Next(c, s).nodes| == |c.nodes| && Rises(c.nodes[n], Next(c, s).nodes[n])
  {
    match s {
      case HandlePrepare(m, r) => PrepareRises(c.nodes[m], c.rounds[r].prev, c.rounds[r].next);
      case HandleAccept(m, r, atRoot) => AcceptRises(c.nodes[m], c.rounds[r].value, c.rounds[r].prev, c.rounds[r].next, atRoot);
      case Finish(p, _, _) =>
        var k := c.rounds[c.proposals[p].value.round.value];
        SetRises(c.nodes[p], CasPut(c.nodes[p], k.value, k.next));
      case Set(m, put) => SetRises(c.nodes[m], put);
      case _ =>
    }
  }

  /** No node ever goes back on a stored stamp or a promise. */
  lemma {:induction false} NeverGoesBack(states: seq<Cluster>, steps: seq<Step>, i: nat, j: nat, n: nat)
    requires IsRun(states, steps) && i <= j < |states| && n < |states[i].nodes|
    ensures n < |states[j].nodes| && Rises(states[i].nodes[n], states[j].nodes[n])
    decreases j
  {
    if i == j {
    } else {
      NeverGoesBack(states, steps, i, j - 1, n);
      RunKeepsInv(states, steps, j - 1);
      assert states[j] == Next(states[j - 1], steps[j - 1]);
      StepRises(states[j - 1], steps[j - 1], n);
    }
  }

  /** Fencing: if one node accepted round `a` and promised the higher round `b`, in either order, then `b`
      started from `a`'s write or a later one. */
  lemma Fencing(states: seq<Cluster>, steps: seq<Step>, i: nat, a: nat, b: nat, n: nat)
    requires IsRun(states, steps) && i < |states| && a < |states[i].rounds| && b < |states[i].rounds|
    requires n in states[i].rounds[a].acceptedBy && n in states[i].rounds[b].promisedBy
    requires Gt(states[i].rounds[b].next, states[i].rounds[a].next)
    ensures !Gt(states[i].rounds[a].next, states[i].rounds[b].prev)
  {
    RunKeepsInv(states, steps, i);
    assert FencedAt(states[i].rounds[a], states[i].rounds[b], n);
  }

  /** Two rounds have a common witness: one proposer, or a node that accepted the first and promised the
      second. */
  predicate Witnessed(a: Round, b: Round) {
    a.proposer == b.proposer || a.acceptedBy * b.promisedBy != {}
  }

  /** Of two committed rounds with a common witness, the higher started from the lower's write or a later one. */
  lemma CommittedFenced(states: seq<Cluster>, steps: seq<Step>, i: nat, a: nat, b: nat)
    requires IsRun(states, steps) && i < |states| && a < |states[i].rounds| && b < |states[i].rounds|
    requires states[i].rounds[a].committed && states[i].rounds[b].committed
    requires Gt(states[i].rounds[b].next, states[i].rounds[a].next)
    requires Witnessed(states[i].rounds[a], states[i].rounds[b])
    ensures !Gt(states[i].rounds[a].next, states[i].rounds[b].prev)
  {
    RunKeepsInv(states, steps, i);
    var ra, rb := states[i].rounds[a], states[i].rounds[b];
    if ra.proposer != rb.proposer {
      var n :| n in ra.acceptedBy * rb.promisedBy;
      assert FencedAt(ra, rb, n);
    }
  }

  /** At most one winner per starting stamp among witnessed rounds: of two committed rounds that start from the same
      stamp and go up from it, the higher has no witness of the lower. */
  lemma OneWinner(states: seq<Cluster>, steps: seq<Step>, i: nat, a: nat, b: nat)
    requires IsRun(states, steps) && i < |states| && a < |states[i].rounds| && b < |states[i].rounds| && a != b
    requires states[i].rounds[a].committed && states[i].rounds[b].committed
    requires states[i].rounds[a].prev == states[i].rounds[b].prev
    requires Gt(states[i].rounds[a].next, states[i].rounds[a].prev)
    requires Gt(states[i].rounds[b].next, states[i].rounds[b].prev)
    ensures var ra, rb := states[i].rounds[a], states[i].rounds[b];
            (Gt(rb.next, ra.next) && !Witnessed(ra, rb)) || (Gt(ra.next, rb.next) && !Witnessed(rb, ra))
  {
    var ra, rb := states[i].rounds[a], states[i].rounds[b];
    NextsDiffer(states, steps, i, a, b);
    if Gt(rb.next, ra.next) && Witnessed(ra, rb) {
      CommittedFenced(states, steps, i, a, b);
    } else if Gt(ra.next, rb.next) && Witnessed(rb, ra) {
      CommittedFenced(states, steps, i, b, a);
    }
  }

  /** The stamp of a committed round belongs to no later round and to no other committed round. */
  lemma NextsDiffer(states: seq<Cluster>, steps: seq<Step>, i: nat, a: nat, b: nat)
    requires IsRun(states, steps) && i < |states| && a < |states[i].rounds| && b < |states[i].rounds| && a != b
    requires states[i].rounds[a].committed && (a < b || states[i].rounds[b].committed)
    ensures states[i].rounds[a].next != states[i].rounds[b].next
  {
    RunKeepsInv(states, steps, i);
    StampsNameProposer(states, steps, i);
    assert states[i].rounds[a].next.node == states[i].rounds[a].proposer;
    assert states[i].rounds[b].next.node == states[i].rounds[b].proposer;
  }

  lemma {:induction false} StampsNameProposer(states: seq<Cluster>, steps: seq<Step>, i: nat)
    requires IsRun(states, steps) && i < |states|
    ensures forall r :: 0 <= r < |states[i].rounds| ==> states[i].rounds[r].next.node == states[i].rounds[r].proposer
  {
    if i == 0 {
    } else {
      StampsNameProposer(states, steps, i - 1);
      assert states[i] == Next(states[i - 1], steps[i - 1]);
    }
  }
}
