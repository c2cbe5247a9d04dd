/** Compare-and-set compares: what every round of every run was opened for, what each step then does to the key, and
    when a request can succeed. */
module CasCompare {
  import opened Lamport
  import opened PutRule
  import opened CasAcceptor
  import opened CasRuns
  import opened CasQuorums
  import opened CasScenarios

  /** Node `p` works on a request to replace one value by another. */
  predicate Asks(c: Cluster, p: nat, expected: string, newValue: string) {
    Working(c, p) && c.proposals[p].value.expected == expected && c.proposals[p].value.newValue == newValue
  }

  /** A request in progress was begun at some step, with its values, and has been in progress since; it counts from the
      clock of that moment. */
  ghost predicate BegunAt(states: seq<Cluster>, steps: seq<Step>, j: nat, p: nat, b: nat)
    requires IsRun(states, steps) && j < |states|
  {
    b < j && steps[b].BeginCas? && steps[b].p == p && p < |states[b].nodes| &&
    (forall m :: b < m <= j ==> Asks(states[m], p, steps[b].expected, steps[b].newValue)) &&
    states[j].proposals[p].value.counter >= states[b].nodes[p].clock
  }

  lemma {:induction false} RequestBegun(states: seq<Cluster>, steps: seq<Step>, j: nat, p: nat) returns (b: nat)
    requires IsRun(states, steps) && j < |states| && Working(states[j], p)
    ensures BegunAt(states, steps, j, p, b)
  {
    if j == 0 {
      assert false;
    } else {
      var c, s := states[j - 1], steps[j - 1];
      assert Enabled(c, s) && states[j] == Next(c, s);
      if s == BeginCas(p, states[j].proposals[p].value.expected, states[j].proposals[p].value.newValue) {
        b := j - 1;
      } else {
        StillWorking(c, s, p);
        b := RequestBegun(states, steps, j - 1, p);
      }
    }
  }

  lemma StillWorking(c: Cluster, s: Step, p: nat)
    requires Enabled(c, s) && Working(Next(c, s), p)
    requires var op := Next(c, s).proposals[p].value; s != BeginCas(p, op.expected, op.newValue)
    ensures Working(c, p)
    ensures var op, op' := c.proposals[p].value, Next(c, s).proposals[p].value;
            op'.expected == op.expected && op'.newValue == op.newValue && op'.counter >= op.counter
  {}

  /** Every round of every reachable state was opened by a PREPARE of a request, in progress since it was begun, at a
      moment when the proposer stored the value the request expected. The round starts from the stamp of that value,
      carries the request's new value, and is stamped above the clock the request began with. */
  lemma {:induction false} RoundsCompared(states: seq<Cluster>, steps: seq<Step>, j: nat, r: nat) returns (b: nat, i: nat)
    requires IsRun(states, steps) && j < |states| && r < |states[j].rounds|
    ensures b < i < j && steps[b].BeginCas? && steps[i] == SendPrepare(steps[b].p)
    ensures var k, p := states[j].rounds[r], steps[b].p;
            && k.proposer == p && p < |states[i].nodes| && p < |states[b].nodes| && |states[i].rounds| == r
            && (forall m :: b < m <= i ==> Asks(states[m], p, steps[b].expected, steps[b].newValue))
            && states[i].nodes[p].entry.value == steps[b].expected && states[i].nodes[p].entry.stamp == k.prev
            && k.value == steps[b].newValue && k.next.node == p && k.next.counter > states[b].nodes[p].clock
  {
    if j == 0 {
      assert false;
    } else {
      var c, s := states[j - 1], steps[j - 1];
      assert Enabled(c, s) && states[j] == Next(c, s);
      if r < |c.rounds| {
        b, i := RoundsCompared(states, steps, j - 1, r);
      } else {
        i := j - 1;
        b := RequestBegun(states, steps, i, s.p);
      }
    }
  }

  /** A PREPARE is sent exactly when the stored value is the expected one; otherwise the request ends and nothing else
      changes. */
  lemma MismatchEnds(states: seq<Cluster>, steps: seq<Step>, i: nat)
    requires IsRun(states, steps) && i < |steps| && steps[i].SendPrepare?
    ensures var c, c', p := states[i], states[i + 1], steps[i].p;
            && Working(c, p) && c'.nodes == c.nodes
            && (|c'.rounds| == |c.rounds| + 1 <==> c.nodes[p].entry.value == c.proposals[p].value.expected)
            && (c.nodes[p].entry.value != c.proposals[p].value.expected ==>
                  c' == c.(proposals := c.proposals[p := None]))
  {
    assert Enabled(states[i], steps[i]) && states[i + 1] == Next(states[i], steps[i]);
  }

  /** What a write that carries its own stamp leaves: a greater stamp stays; otherwise the value is stored under the stamp
      of the write and the old key text, and the clock is raised to it if it was below. */
  predicate Kept(was: Acceptor, now: Acceptor, k: Round) {
    if Gt(was.entry.stamp, k.next) then now.entry == was.entry && now.clock == was.clock
    else
      now.entry.value == k.value && now.entry.stamp == k.next && now.entry.key == was.entry.key &&
      was.clock <= now.clock && k.next.counter <= now.clock && (now.clock == was.clock || now.clock == k.next.counter)
  }

  /** The end of a request: the proposer stores the new value under the round's stamp unless it stores a greater one, in
      which case it keeps what it has and the round commits only on a false report. */
  lemma FinishExactly(states: seq<Cluster>, steps: seq<Step>, i: nat)
    requires IsRun(states, steps) && i < |steps| && steps[i].Finish?
    ensures var c, c', p := states[i], states[i + 1], steps[i].p;
            Working(c, p) && c.proposals[p].value.round.Some? &&
            var r := c.proposals[p].value.round.value;
            r < |c.rounds| && |c'.rounds| == |c.rounds| && |c'.nodes| == |c.nodes| &&
            c.rounds[r].value == c.proposals[p].value.newValue &&
            var k, was, now := c.rounds[r], c.nodes[p], c'.nodes[p];
            var done := !Gt(was.entry.stamp, k.next) || !steps[i].atRoot;
            && c' == Cluster(c.nodes[p := now], c.proposals[p := None], c.rounds[r := k.(committed := done)])
            && Kept(was, now, k) && now.promised == was.promised
  {
    var c, p := states[i], steps[i].p;
    assert Enabled(c, steps[i]) && states[i + 1] == Next(c, steps[i]);
    RoundIsRequests(states, steps, i, p);
  }

  /** The round a request is in carries the request's value. */
  lemma {:induction false} RoundIsRequests(states: seq<Cluster>, steps: seq<Step>, j: nat, p: nat)
    requires IsRun(states, steps) && j < |states| && Working(states[j], p) && states[j].proposals[p].value.round.Some?
    ensures var op := states[j].proposals[p].value;
            op.round.value < |states[j].rounds| && states[j].rounds[op.round.value].value == op.newValue
  {
    if j == 0 {
      assert false;
    } else {
      var c, s := states[j - 1], steps[j - 1];
      assert Enabled(c, s) && states[j] == Next(c, s);
      if Working(c, p) && c.proposals[p].value.round == states[j].proposals[p].value.round {
        RoundIsRequests(states, steps, j - 1, p);
      }
    }
  }

  /** What a node does with PREPARE: it refuses when it stores something newer than the round starts from or has promised
      a higher round; otherwise it answers success and promises the round, unless it had promised as much. */
  lemma PrepareAnswers(states: seq<Cluster>, steps: seq<Step>, i: nat)
    requires IsRun(states, steps) && i < |steps| && steps[i].HandlePrepare?
    ensures var c, c', n, r := states[i], states[i + 1], steps[i].n, steps[i].r;
            n < |c.nodes| == |c'.nodes| && r < |c.rounds| == |c'.rounds| &&
            var k, was, now := c.rounds[r], c.nodes[n], c'.nodes[n];
            if Gt(was.entry.stamp, k.prev) || (was.promised.Some? && Gt(was.promised.value, k.next)) then c' == c
            else
              now == was.(promised := Some(k.next)) &&
              c' == Cluster(c.nodes[n := now], c.proposals, c.rounds[r := k.(promisedBy := k.promisedBy + {n})])
  {
    var c := states[i];
    assert Enabled(c, steps[i]) && states[i + 1] == Next(c, steps[i]);
    assert c.rounds[steps[i].r := c.rounds[steps[i].r]] == c.rounds && c.nodes[steps[i].n := c.nodes[steps[i].n]] == c.nodes;
  }

  /** What a node does with ACCEPT: it refuses in the same cases; otherwise it stores the round's value under its stamp,
      unless it stores a greater one, and answers success if it ever promised anything and the store did not, truthfully,
      report that. */
  lemma AcceptAnswers(states: seq<Cluster>, steps: seq<Step>, i: nat)
    requires IsRun(states, steps) && i < |steps| && steps[i].HandleAccept?
    ensures var c, c', n, r := states[i], states[i + 1], steps[i].n, steps[i].r;
            n < |c.nodes| == |c'.nodes| && r < |c.rounds| == |c'.rounds| &&
            var k, was, now := c.rounds[r], c.nodes[n], c'.nodes[n];
            if Gt(was.entry.stamp, k.prev) || (was.promised.Some? && Gt(was.promised.value, k.next)) then c' == c
            else
              var success := was.promised.Some? && !(Gt(was.entry.stamp, k.next) && steps[i].atRoot);
              var k' := k.(acceptedBy := if success then k.acceptedBy + {n} else k.acceptedBy);
              && c' == Cluster(c.nodes[n := now], c.proposals, c.rounds[r := k'])
              && Kept(was, now, k) && now.promised == (if success then Some(k.next) else was.promised)
  {
    var c := states[i];
    assert Enabled(c, steps[i]) && states[i + 1] == Next(c, steps[i]);
    assert c.rounds[steps[i].r := c.rounds[steps[i].r]] == c.rounds && c.nodes[steps[i].n := c.nodes[steps[i].n]] == c.nodes;
  }

  /** Requests travel freely: in every state of every run every round's PREPARE, and its ACCEPT once sent, can reach any
      node but the proposer, now or again; an idle node can begin a request, a working one give it up; and any SET can
      come in between. */
  lemma AnyDelivery(states: seq<Cluster>, steps: seq<Step>, i: nat)
    requires IsRun(states, steps) && i < |states|
    ensures |states[i].proposals| == |states[i].nodes|
    ensures forall n: nat, r: nat :: n < |states[i].nodes| && r < |states[i].rounds| && n != states[i].rounds[r].proposer ==>
              Enabled(states[i], HandlePrepare(n, r))
    ensures forall n: nat, r: nat, atRoot ::
              (n < |states[i].nodes| && r < |states[i].rounds| && n != states[i].rounds[r].proposer &&
               states[i].rounds[r].acceptSent) ==> Enabled(states[i], HandleAccept(n, r, atRoot))
    ensures forall p: nat, expected, newValue :: p < |states[i].nodes| && states[i].proposals[p].None? ==>
              Enabled(states[i], BeginCas(p, expected, newValue))
    ensures forall p: nat :: p < |states[i].nodes| && states[i].proposals[p].Some? ==> Enabled(states[i], GiveUp(p))
    ensures forall n: nat, put: Put :: n < |states[i].nodes| && put.strategy == (if put.fromNode then SET_MAX else TICK) ==>
              Enabled(states[i], Set(n, put))
  {
    RunKeepsInv(states, steps, i);
  }

  /** A SET in between: a client's always lands, under a stamp above the node's clock; a replicated one unless a greater
      stamp is stored. */
  lemma SetLands(states: seq<Cluster>, steps: seq<Step>, i: nat)
    requires IsRun(states, steps) && i < |steps| && steps[i].Set?
    ensures var c, c', n, put := states[i], states[i + 1], steps[i].n, steps[i].put;
            n < |c.nodes| == |c'.nodes| &&
            var was, now := c.nodes[n], c'.nodes[n];
            && c' == c.(nodes := c.nodes[n := now]) && now.promised == was.promised
            && if put.fromNode && Gt(was.entry.stamp, put.stamp) then now == was
               else now.entry.value == put.value && now.entry.key == was.entry.key &&
                    if put.fromNode then
                      now.entry.stamp == put.stamp && was.clock <= now.clock && put.stamp.counter <= now.clock &&
                      (now.clock == was.clock || now.clock == put.stamp.counter)
                    else
                      now.entry.stamp == Stamp(now.clock, put.stamp.node) && now.clock > was.clock &&
                      now.clock > put.stamp.counter && (now.clock == was.clock + 1 || now.clock == put.stamp.counter + 1)
  {
    assert Enabled(states[i], steps[i]) && states[i + 1] == Next(states[i], steps[i]);
  }

  // ---------------------------------------------------------------- when a request can succeed

  /** The other nodes that store nothing above what `p` stores. */
  function UpToDate(c: Cluster, p: nat): (s: set<nat>)
    requires p < |c.nodes|
    ensures forall n: nat :: n in s <==> n < |c.nodes| && n != p && !Gt(c.nodes[n].entry.stamp, c.nodes[p].entry.stamp)
  {
    set n: nat | n in NodeIds(|c.nodes|) && n != p && !Gt(c.nodes[n].entry.stamp, c.nodes[p].entry.stamp)
  }

  lemma {:induction false} HighEnough(nodes: seq<Acceptor>) returns (h: nat)
    ensures forall n :: 0 <= n < |nodes| ==>
              nodes[n].entry.stamp.counter < h && (nodes[n].promised.Some? ==> nodes[n].promised.value.counter < h)
  {
    if nodes == [] {
      h := 0;
    } else {
      var last := nodes[|nodes| - 1];
      var m := HighEnough(nodes[..|nodes| - 1]);
      h := 1 + m + last.entry.stamp.counter + if last.promised.Some? then last.promised.value.counter else 0;
    }
  }

  /** Node `n` after promising or accepting round `k`. */
  function AfterAnswer(a: Acceptor, k: Round, accept: bool): Acceptor {
    if accept then Acceptor(DataEntry(a.entry.key, k.value, k.next), Some(k.next), ClockAfter(SET_MAX, a.clock, k.next.counter))
    else a.(promised := Some(k.next))
  }

  /** A node that stores nothing above the round's start and promised nothing above the round. */
  predicate Willing(a: Acceptor, k: Round, accept: bool) {
    !Gt(a.entry.stamp, k.prev) && !Gt(a.entry.stamp, k.next) &&
    if accept then a.promised == Some(k.next) else a.promised.Some? ==> Gt(k.next, a.promised.value)
  }

  lemma WillingAnswers(c: Cluster, r: nat, n: nat, accept: bool)
    requires r < |c.rounds| && n < |c.nodes| && n != c.rounds[r].proposer && (accept ==> c.rounds[r].acceptSent)
    requires Willing(c.nodes[n], c.rounds[r], accept)
    ensures Enabled(c, Delivery(n, r, accept))
    ensures Next(c, Delivery(n, r, accept)) ==
            Cluster(c.nodes[n := AfterAnswer(c.nodes[n], c.rounds[r], accept)], c.proposals,
                    c.rounds[r := Answered(c.rounds[r], accept, {n})])
  {}

  /** The state after all of `ns` answered. */
  ghost predicate AllAnswered(c: Cluster, d: Cluster, r: nat, ns: set<nat>, accept: bool)
    requires r < |c.rounds|
  {
    && |d.nodes| == |c.nodes| && d.proposals == c.proposals
    && d.rounds == c.rounds[r := Answered(c.rounds[r], accept, ns)]
    && forall n :: 0 <= n < |c.nodes| ==>
         d.nodes[n] == if n in ns then AfterAnswer(c.nodes[n], c.rounds[r], accept) else c.nodes[n]
  }

  lemma {:induction false} Ask(c: Cluster, r: nat, ns: set<nat>, accept: bool) returns (steps: seq<Step>, d: Cluster)
    requires r < |c.rounds| && (accept ==> c.rounds[r].acceptSent)
    requires forall n :: n in ns ==> n < |c.nodes| && n != c.rounds[r].proposer && Willing(c.nodes[n], c.rounds[r], accept)
    ensures Leads(c, steps, d) && Truthful(steps) && AllAnswered(c, d, r, ns, accept)
    decreases ns
  {
    if ns == {} {
      NobodyAnswered(c, r, accept);
      steps, d := [], c;
    } else {
      var n :| n in ns;
      var before, e := Ask(c, r, ns - {n}, accept);
      WillingAnswers(e, r, n, accept);
      OneMore(c, before, e, Delivery(n, r, accept));
      OneMoreAnswered(c, e, r, ns, n, accept);
      steps, d := before + [Delivery(n, r, accept)], Next(e, Delivery(n, r, accept));
    }
  }

  lemma NobodyAnswered(c: Cluster, r: nat, accept: bool)
    requires r < |c.rounds|
    ensures AllAnswered(c, c, r, {}, accept)
  {
    var k := c.rounds[r];
    assert k.acceptedBy + {} == k.acceptedBy && k.promisedBy + {} == k.promisedBy && c.rounds[r := k] == c.rounds;
  }

  lemma OneMoreAnswered(c: Cluster, e: Cluster, r: nat, ns: set<nat>, n: nat, accept: bool)
    requires r < |c.rounds| && n in ns && n < |c.nodes| && AllAnswered(c, e, r, ns - {n}, accept)
    ensures AllAnswered(c, Cluster(e.nodes[n := AfterAnswer(e.nodes[n], e.rounds[r], accept)], e.proposals,
                                   e.rounds[r := Answered(e.rounds[r], accept, {n})]), r, ns, accept)
  {
    AnsweredTwice(c.rounds[r], accept, ns - {n}, {n});
    assert ns - {n} + {n} == ns;
  }

  /** Round `r`, the last one, is passed by `ns`: promised, accepted and committed. */
  lemma Pass(e: Cluster, p: nat, r: nat, ns: set<nat>) returns (steps: seq<Step>, d: Cluster)
    requires InRound(e, p, r) && e.rounds[r].proposer == p && Fresh(e.rounds[r]) && |ns| >= Quorum(|e.nodes|)
    requires forall n :: n in ns ==> n < |e.nodes| && n != p && Willing(e.nodes[n], e.rounds[r], false)
    requires !Gt(e.nodes[p].entry.stamp, e.rounds[r].next)
    ensures Leads(e, steps, d) && Truthful(steps) && |d.nodes| == |e.nodes| && |d.rounds| == |e.rounds|
    ensures d.rounds[r] == e.rounds[r].(promisedBy := ns, acceptedBy := ns, acceptSent := true, committed := true)
    ensures forall n :: n == p || n in ns ==>
              n < |d.nodes| && d.nodes[n].entry.value == e.rounds[r].value && d.nodes[n].entry.stamp == e.rounds[r].next
  {
    var prepares, f := Ask(e, r, ns, false);
    assert f.rounds[r].promisedBy == ns;
    OneMore(e, prepares, f, SendAccept(p, ns));
    var g := Next(f, SendAccept(p, ns));
    var accepts, a := Ask(g, r, ns, true);
    assert a.rounds[r].acceptedBy == ns;
    LeadsOn(e, prepares + [SendAccept(p, ns)], g, accepts, a);
    steps := prepares + [SendAccept(p, ns)] + accepts;
    OneMore(e, steps, a, Finish(p, ns, true));
    steps, d := steps + [Finish(p, ns, true)], Next(a, Finish(p, ns, true));
  }

  /** Other nodes that store nothing above what `p` stores. */
  predicate Current(c: Cluster, p: nat, ns: set<nat>)
    requires p < |c.nodes|
  {
    forall n :: n in ns ==> n < |c.nodes| && n != p && !Gt(c.nodes[n].entry.stamp, c.nodes[p].entry.stamp)
  }

  lemma HighIsWilling(c: Cluster, p: nat, ns: set<nat>, h: nat, k: Round)
    requires p < |c.nodes| && Current(c, p, ns) && k.prev == c.nodes[p].entry.stamp && k.next.counter > h
    requires forall n :: 0 <= n < |c.nodes| ==>
               c.nodes[n].entry.stamp.counter < h && (c.nodes[n].promised.Some? ==> c.nodes[n].promised.value.counter < h)
    ensures forall n :: n in ns ==> Willing(c.nodes[n], k, false)
    ensures !Gt(c.nodes[p].entry.stamp, k.next)
  {}

  /** A stamp above all promises and stored stamps can be reached by trying often enough. */
  lemma TriesEnough(c: Cluster, p: nat, value: string, ns: set<nat>) returns (steps: seq<Step>, e: Cluster)
    requires p < |c.nodes| && p < |c.proposals| && c.proposals[p].None? && Current(c, p, ns)
    ensures Leads(c, steps, e) && Truthful(steps) && e.nodes == c.nodes && |e.rounds| > |c.rounds|
    ensures var r := |e.rounds| - 1; var k := e.rounds[r];
            && InRound(e, p, r) && Fresh(k) && k.proposer == p && k.prev == c.nodes[p].entry.stamp && k.value == value
            && (forall n :: n in ns ==> Willing(e.nodes[n], k, false)) && !Gt(e.nodes[p].entry.stamp, k.next)
  {
    var h := HighEnough(c.nodes);
    steps, e := Retries(c, p, value, h + 1);
    HighIsWilling(c, p, ns, h, e.rounds[|e.rounds| - 1]);
  }

  /** A request of a node that is up to date with a quorum of others succeeds, if they all answer and nobody else
      interferes, after as many tries as its clock needs to pass their promises. All of them then hold the new value. */
  lemma CanSucceed(c: Cluster, p: nat, value: string, ns: set<nat>) returns (steps: seq<Step>, d: Cluster)
    requires p < |c.nodes| && p < |c.proposals| && c.proposals[p].None? && Current(c, p, ns) && |ns| >= Quorum(|c.nodes|)
    ensures Leads(c, steps, d) && Truthful(steps) && |d.nodes| == |c.nodes| && |d.rounds| > |c.rounds|
    ensures var k := d.rounds[|d.rounds| - 1];
            && k.committed && k.proposer == p && k.prev == c.nodes[p].entry.stamp && k.value == value
            && forall n :: n == p || n in ns ==>
                 n < |d.nodes| && d.nodes[n].entry.value == value && d.nodes[n].entry.stamp == k.next
  {
    var tries, e := TriesEnough(c, p, value, ns);
    var passes;
    passes, d := Pass(e, p, |e.rounds| - 1, ns);
    LeadsOn(c, tries, e, passes, d);
    steps := tries + passes;
  }

  /** Since `c`, stored stamps have only risen, and new rounds from stamp `s` were promised by up-to-date nodes only. */
  predicate Backed(c: Cluster, d: Cluster, s: Stamp) {
    && |d.nodes| == |c.nodes| && |c.rounds| <= |d.rounds|
    && (forall n :: 0 <= n < |c.nodes| ==> !Gt(c.nodes[n].entry.stamp, d.nodes[n].entry.stamp))
    && (forall r :: |c.rounds| <= r < |d.rounds| && d.rounds[r].prev == s ==>
          forall n :: n in d.rounds[r].promisedBy ==> n < |c.nodes| && !Gt(c.nodes[n].entry.stamp, s))
  }

  lemma BackedOn(c: Cluster, d: Cluster, s: Stamp, step: Step)
    requires Inv(d) && Backed(c, d, s) && Enabled(d, step)
    ensures Backed(c, Next(d, step), s)
  {
    forall n | 0 <= n < |c.nodes| ensures |Next(d, step).nodes| == |d.nodes| && Rises(d.nodes[n], Next(d, step).nodes[n]) {
      StepRises(d, step, n);
    }
  }

  lemma {:induction false} BackedAlong(c: Cluster, d: Cluster, steps: seq<Step>, e: Cluster, s: Stamp)
    requires Inv(d) && Backed(c, d, s) && Leads(d, steps, e)
    ensures Backed(c, e, s) && Inv(e)
    decreases |steps|
  {
    if steps == [] {
    } else {
      BackedOn(c, d, s, steps[0]);
      NextKeepsInv(d, steps[0]);
      BackedAlong(c, Next(d, steps[0]), steps[1..], e, s);
    }
  }

  /** Some continuation has `p` commit a new round that starts from what `p` stores now. */
  ghost predicate MayCommit(c: Cluster, p: nat)
    requires p < |c.nodes|
  {
    exists steps, d, r: nat :: Leads(c, steps, d) && CommitsFrom(c, d, p, r)
  }

  predicate CommitsFrom(c: Cluster, d: Cluster, p: nat, r: nat)
    requires p < |c.nodes|
  {
    |c.rounds| <= r < |d.rounds| && d.rounds[r].proposer == p && d.rounds[r].committed &&
    d.rounds[r].prev == c.nodes[p].entry.stamp
  }

  lemma CommitNeedsQuorum(c: Cluster, p: nat, steps: seq<Step>, d: Cluster, r: nat)
    requires Inv(c) && p < |c.nodes| && Leads(c, steps, d) && CommitsFrom(c, d, p, r)
    ensures |UpToDate(c, p)| >= Quorum(|c.nodes|)
  {
    BackedAlong(c, c, steps, d, c.nodes[p].entry.stamp);
    var k := d.rounds[r];
    assert AnswersHold(d.nodes, k);
    SubsetSize(k.promisedBy, UpToDate(c, p));
  }

  /** In every state of every run an idle node can still replace the value it stores if and only if a quorum of other
      nodes store nothing newer. */
  lemma MayCommitExactly(states: seq<Cluster>, steps: seq<Step>, i: nat, p: nat)
    requires IsRun(states, steps) && i < |states| && p < |states[i].nodes| && p < |states[i].proposals|
    requires states[i].proposals[p].None?
    ensures MayCommit(states[i], p) <==> |UpToDate(states[i], p)| >= Quorum(|states[i].nodes|)
  {
    RunKeepsInv(states, steps, i);
    var c := states[i];
    if MayCommit(c, p) {
      var more, d, r: nat :| Leads(c, more, d) && CommitsFrom(c, d, p, r);
      CommitNeedsQuorum(c, p, more, d, r);
    }
    if |UpToDate(c, p)| >= Quorum(|c.nodes|) {
      var more, d := CanSucceed(c, p, "", UpToDate(c, p));
      assert CommitsFrom(c, d, p, |d.rounds| - 1);
    }
  }
}
