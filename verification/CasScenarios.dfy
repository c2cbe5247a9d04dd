/** Runs of compare-and-set built step by step, for clusters of any size. */
module CasScenarios {
  import opened Lamport
  import opened PutRule
  import opened CasAcceptor
  import opened CasRuns
  import opened CasQuorums

  /** Taking `steps` in turn leads from `c` to `d`. */
  predicate Leads(c: Cluster, steps: seq<Step>, d: Cluster)
    decreases |steps|
  {
    if steps == [] then c == d
    else Enabled(c, steps[0]) && Leads(Next(c, steps[0]), steps[1..], d)
  }

  lemma {:induction false} LeadsOn(c: Cluster, steps: seq<Step>, d: Cluster, more: seq<Step>, e: Cluster)
    requires Leads(c, steps, d) && Leads(d, more, e)
    ensures Leads(c, steps + more, e)
    decreases |steps|
  {
    if steps == [] {
      assert steps + more == more;
    } else {
      LeadsOn(Next(c, steps[0]), steps[1..], d, more, e);
      FirstThenRest(c, steps[0], steps[1..] + more, e);
      Regrouped(steps, more);
    }
  }

  lemma Regrouped(steps: seq<Step>, more: seq<Step>)
    requires steps != []
    ensures steps + more == [steps[0]] + (steps[1..] + more)
  {}

  lemma FirstThenRest(c: Cluster, s: Step, rest: seq<Step>, e: Cluster)
    requires Enabled(c, s) && Leads(Next(c, s), rest, e)
    ensures Leads(c, [s] + rest, e)
  {
    var all := [s] + rest;
    assert all[0] == s && all[1..] == rest;
  }

  lemma OneMore(c: Cluster, steps: seq<Step>, d: Cluster, s: Step)
    requires Leads(c, steps, d) && Enabled(d, s)
    ensures Leads(c, steps + [s], Next(d, s))
  {
    assert [s][1..] == [] && Leads(Next(d, s), [], Next(d, s));
    LeadsOn(c, steps, d, [s], Next(d, s));
  }

  lemma {:induction false} Unfold(c: Cluster, steps: seq<Step>, d: Cluster) returns (states: seq<Cluster>)
    requires Leads(c, steps, d)
    ensures |states| == |steps| + 1 && states[0] == c && states[|steps|] == d
    ensures forall i {:trigger steps[i]} :: 0 <= i < |steps| ==>
              Enabled(states[i], steps[i]) && states[i + 1] == Next(states[i], steps[i])
    decreases |steps|
  {
    if steps == [] {
      states := [c];
    } else {
      var tail := Unfold(Next(c, steps[0]), steps[1..], d);
      states := [c] + tail;
      forall i | 0 <= i < |steps|
        ensures Enabled(states[i], steps[i]) && states[i + 1] == Next(states[i], steps[i])
      {
        if i > 0 {
          assert steps[i] == steps[1..][i - 1];
        }
      }
    }
  }

  /** Every store result a proposer relies on is reported truthfully. */
  predicate Truthful(steps: seq<Step>) {
    forall i :: 0 <= i < |steps| && steps[i].Finish? ==> steps[i].atRoot
  }

  const FIRST: Stamp := Stamp(0, 0)

  /** What a node holds of the key at first, after promising a round, and after accepting it. */
  function Untouched(): Acceptor {
    Acceptor(DataEntry("k", "x", FIRST), None, 0)
  }

  function Holding(k: Round, accepted: bool): Acceptor {
    if accepted then Acceptor(DataEntry("k", k.value, k.next), Some(k.next), k.next.counter)
    else Untouched().(promised := Some(k.next))
  }

  function Answered(k: Round, accepted: bool, who: set<nat>): Round {
    if accepted then k.(acceptedBy := k.acceptedBy + who) else k.(promisedBy := k.promisedBy + who)
  }

  predicate FromFirst(k: Round) {
    k.prev == FIRST && k.next.counter > 0
  }

  function Delivery(n: nat, r: nat, accept: bool): Step {
    if accept then HandleAccept(n, r, true) else HandlePrepare(n, r)
  }

  /** The cluster after the nodes from `lo` up to `hi` answered round `r`. */
  ghost predicate SweptTo(c: Cluster, d: Cluster, r: nat, lo: nat, hi: nat, accept: bool)
    requires r < |c.rounds| && lo <= hi
  {
    && |d.nodes| == |c.nodes| && d.proposals == c.proposals
    && d.rounds == c.rounds[r := Answered(c.rounds[r], accept, Ids(lo, hi))]
    && forall n :: 0 <= n < |c.nodes| ==> d.nodes[n] == if lo <= n < hi then Holding(c.rounds[r], accept) else c.nodes[n]
  }

  predicate Ready(a: Acceptor, k: Round, accept: bool) {
    a == Holding(k, false) || (!accept && a == Untouched())
  }

  lemma Delivered(c: Cluster, r: nat, n: nat, accept: bool)
    requires r < |c.rounds| && n < |c.nodes| && FromFirst(c.rounds[r]) && n != c.rounds[r].proposer
    requires accept ==> c.rounds[r].acceptSent
    requires Ready(c.nodes[n], c.rounds[r], accept)
    ensures Enabled(c, Delivery(n, r, accept))
    ensures Next(c, Delivery(n, r, accept)) == AfterDelivery(c, r, n, accept)
  {}

  function AfterDelivery(c: Cluster, r: nat, n: nat, accept: bool): Cluster
    requires r < |c.rounds| && n < |c.nodes|
  {
    Cluster(c.nodes[n := Holding(c.rounds[r], accept)], c.proposals, c.rounds[r := Answered(c.rounds[r], accept, {n})])
  }

  lemma DeliveredNext(c: Cluster, before: seq<Step>, e: Cluster, r: nat, n: nat, accept: bool)
    requires Leads(c, before, e) && Truthful(before)
    requires r < |e.rounds| && n < |e.nodes| && FromFirst(e.rounds[r]) && n != e.rounds[r].proposer
    requires accept ==> e.rounds[r].acceptSent
    requires Ready(e.nodes[n], e.rounds[r], accept)
    ensures var steps := before + [Delivery(n, r, accept)];
            Leads(c, steps, AfterDelivery(e, r, n, accept)) && Truthful(steps)
  {
    Delivered(e, r, n, accept);
    OneMore(c, before, e, Delivery(n, r, accept));
  }

  lemma SweptOnce(c: Cluster, e: Cluster, r: nat, lo: nat, hi: nat, accept: bool)
    requires r < |c.rounds| && lo < hi <= |c.nodes| && SweptTo(c, e, r, lo, hi - 1, accept)
    ensures SweptTo(c, AfterDelivery(e, r, hi - 1, accept), r, lo, hi, accept)
  {
    AnsweredTwice(c.rounds[r], accept, Ids(lo, hi - 1), {hi - 1});
  }

  lemma SweptNone(c: Cluster, r: nat, lo: nat, accept: bool)
    requires r < |c.rounds|
    ensures SweptTo(c, c, r, lo, lo, accept)
  {
    var k := c.rounds[r];
    assert k.acceptedBy + {} == k.acceptedBy && k.promisedBy + {} == k.promisedBy;
    assert c.rounds[r := k] == c.rounds;
  }

  lemma SweptReady(c: Cluster, e: Cluster, r: nat, lo: nat, hi: nat, accept: bool)
    requires r < |c.rounds| && lo < hi <= |c.nodes| && SweptTo(c, e, r, lo, hi - 1, accept)
    requires Ready(c.nodes[hi - 1], c.rounds[r], accept)
    ensures r < |e.rounds| && hi <= |e.nodes| && Ready(e.nodes[hi - 1], e.rounds[r], accept)
    ensures e.rounds[r].proposer == c.rounds[r].proposer && e.rounds[r].acceptSent == c.rounds[r].acceptSent
    ensures e.rounds[r].prev == c.rounds[r].prev && e.rounds[r].next == c.rounds[r].next
  {}

  lemma AnsweredTwice(k: Round, accept: bool, first: set<nat>, then': set<nat>)
    ensures Answered(Answered(k, accept, first), accept, then') == Answered(k, accept, first + then')
  {
    assert k.acceptedBy + first + then' == k.acceptedBy + (first + then');
    assert k.promisedBy + first + then' == k.promisedBy + (first + then');
  }

  /** The request of one round reaches the nodes from `lo` up to `hi`, and all answer success. */
  lemma {:induction false} Sweep(c: Cluster, r: nat, lo: nat, hi: nat, accept: bool)
      returns (steps: seq<Step>, d: Cluster)
    requires r < |c.rounds| && lo <= hi <= |c.nodes| && FromFirst(c.rounds[r])
    requires c.rounds[r].proposer < lo || hi <= c.rounds[r].proposer
    requires accept ==> c.rounds[r].acceptSent
    requires forall n :: lo <= n < hi ==> Ready(c.nodes[n], c.rounds[r], accept)
    ensures Leads(c, steps, d) && Truthful(steps) && SweptTo(c, d, r, lo, hi, accept)
    decreases hi
  {
    if lo == hi {
      SweptNone(c, r, lo, accept);
      steps, d := [], c;
    } else {
      var before, e := Sweep(c, r, lo, hi - 1, accept);
      assert Ready(c.nodes[hi - 1], c.rounds[r], accept);
      steps, d := SweepOne(c, r, lo, hi, accept, before, e);
    }
  }

  lemma SweepOne(c: Cluster, r: nat, lo: nat, hi: nat, accept: bool, before: seq<Step>, e: Cluster)
      returns (steps: seq<Step>, d: Cluster)
    requires r < |c.rounds| && lo < hi <= |c.nodes| && FromFirst(c.rounds[r]) && c.rounds[r].proposer != hi - 1
    requires (accept ==> c.rounds[r].acceptSent) && Ready(c.nodes[hi - 1], c.rounds[r], accept)
    requires Leads(c, before, e) && Truthful(before) && SweptTo(c, e, r, lo, hi - 1, accept)
    ensures Leads(c, steps, d) && Truthful(steps) && SweptTo(c, d, r, lo, hi, accept)
  {
    SweptReady(c, e, r, lo, hi, accept);
    DeliveredNext(c, before, e, r, hi - 1, accept);
    SweptOnce(c, e, r, lo, hi, accept);
    steps, d := before + [Delivery(hi - 1, r, accept)], AfterDelivery(e, r, hi - 1, accept);
  }

  predicate Fresh(k: Round) {
    k.promisedBy == {} && k.acceptedBy == {} && !k.acceptSent && !k.committed
  }

  /** A round that nodes `lo` up to `hi` promise and accept. */
  lemma Passes(c: Cluster, p: nat, r: nat, lo: nat, hi: nat) returns (steps: seq<Step>, d: Cluster)
    requires InRound(c, p, r) && FromFirst(c.rounds[r]) && Fresh(c.rounds[r]) && c.rounds[r].proposer == p
    requires lo <= hi <= |c.nodes| && hi - lo >= Quorum(|c.nodes|) && (p < lo || hi <= p)
    requires forall n :: lo <= n < hi ==> Ready(c.nodes[n], c.rounds[r], false)
    ensures Leads(c, steps, d) && Truthful(steps)
    ensures |d.nodes| == |c.nodes| && d.proposals == c.proposals
    ensures d.rounds == c.rounds[r := c.rounds[r].(promisedBy := Ids(lo, hi), acceptedBy := Ids(lo, hi), acceptSent := true)]
    ensures forall n :: 0 <= n < |c.nodes| ==> d.nodes[n] == if lo <= n < hi then Holding(c.rounds[r], true) else c.nodes[n]
  {
    var prepares, e := Sweep(c, r, lo, hi, false);
    var s := SendAccept(p, Ids(lo, hi));
    OneMore(c, prepares, e, s);
    var f := Next(e, s);
    var accepts;
    accepts, d := Sweep(f, r, lo, hi, true);
    LeadsOn(c, prepares + [s], f, accepts, d);
    steps := prepares + [s] + accepts;
  }

  /** `n` nodes that hold "x". */
  function Start(n: nat): Cluster {
    Cluster(seq(n, i => Untouched()), seq(n, i => None), [])
  }

  function FirstRound(p: nat, value: string): Round {
    Round(p, FIRST, Stamp(1, p), value, {}, {}, false, false)
  }

  /** An idle node with nothing but "x" begins a request and sends its first PREPARE. */
  lemma Begins(c: Cluster, p: nat, value: string) returns (steps: seq<Step>, d: Cluster)
    requires p < |c.nodes| && p < |c.proposals| && c.proposals[p].None? && c.nodes[p] == Untouched()
    ensures Leads(c, steps, d) && Truthful(steps)
    ensures d == Cluster(c.nodes, c.proposals[p := Some(Proposal(1, "x", value, Some(|c.rounds|)))],
                         c.rounds + [FirstRound(p, value)])
  {
    var begin, send := BeginCas(p, "x", value), SendPrepare(p);
    OneMore(c, [], c, begin);
    var e := Next(c, begin);
    OneMore(c, [] + [begin], e, send);
    steps, d := [] + [begin] + [send], Next(e, send);
  }

  // ---------------------------------------------------------------- two winners

  /** Where the two halves of the answers part: half the nodes, rounded up, lie below it. */
  function Middle(n: nat): nat {
    (n + 1) / 2
  }

  /** Both requests have reached their quorums: nodes `n % 2` up to the middle answered the node in the middle, and
      those from the middle on answered node 0. */
  ghost predicate BothAccepted(d: Cluster, n: nat)
    requires n >= 2
  {
    var m := Middle(n);
    var low, high := Ids(n % 2, m), Ids(m, n);
    && |d.nodes| == |d.proposals| == n
    && d.rounds == [FirstRound(m, "b").(promisedBy := low, acceptedBy := low, acceptSent := true),
                    FirstRound(0, "a").(promisedBy := high, acceptedBy := high, acceptSent := true)]
    && d.proposals[m] == Some(Proposal(1, "x", "b", Some(0))) && d.proposals[0] == Some(Proposal(1, "x", "a", Some(1)))
    && d.nodes[m] == Holding(FirstRound(0, "a"), true)
    && d.nodes[0] == if n % 2 == 0 then Holding(FirstRound(m, "b"), true) else Untouched()
  }

  lemma BothPropose(n: nat) returns (steps: seq<Step>, d: Cluster)
    requires n >= 2
    ensures Leads(Start(n), steps, d) && Truthful(steps)
    ensures d.nodes == Start(n).nodes && |d.proposals| == n
    ensures d.rounds == [FirstRound(Middle(n), "b"), FirstRound(0, "a")]
    ensures d.proposals[Middle(n)] == Some(Proposal(1, "x", "b", Some(0)))
    ensures d.proposals[0] == Some(Proposal(1, "x", "a", Some(1)))
  {
    var first, e := Begins(Start(n), Middle(n), "b");
    var second, f := Begins(e, 0, "a");
    LeadsOn(Start(n), first, e, second, f);
    steps, d := first + second, f;
  }

  lemma BothReachQuorums(n: nat) returns (steps: seq<Step>, d: Cluster)
    requires n >= 2
    ensures Leads(Start(n), steps, d) && Truthful(steps) && BothAccepted(d, n)
  {
    var m := Middle(n);
    var propose, e := BothPropose(n);
    var low, f := Passes(e, m, 0, n % 2, m);
    var high, g := Passes(f, 0, 1, m, n);
    LeadsOn(Start(n), propose, e, low, f);
    LeadsOn(Start(n), propose + low, f, high, g);
    steps, d := propose + low + high, g;
  }

  /** Two committed rounds from one stamp; the higher skips the lower's write. */
  predicate TwoFromOne(rounds: seq<Round>) {
    |rounds| == 2 && rounds[0].committed && rounds[1].committed && rounds[0].prev == rounds[1].prev &&
    Gt(rounds[0].next, rounds[1].next) && Gt(rounds[1].next, rounds[0].prev)
  }

  lemma BothFinish(d: Cluster, n: nat) returns (steps: seq<Step>, e: Cluster)
    requires n >= 2 && BothAccepted(d, n)
    ensures Leads(d, steps, e) && (n % 2 == 1 ==> Truthful(steps)) && TwoFromOne(e.rounds)
  {
    var m := Middle(n);
    var s, t := Finish(m, Ids(n % 2, m), true), Finish(0, Ids(m, n), n % 2 == 1);
    OneMore(d, [], d, s);
    var f := Next(d, s);
    assert f.rounds[1] == d.rounds[1] && f.proposals[0] == d.proposals[0] && f.nodes[0] == d.nodes[0];
    OneMore(d, [] + [s], f, t);
    steps, e := [] + [s] + [t], Next(f, t);
  }

  /** In every cluster of two or more nodes there is a run in which two rounds from one stamp both commit; when the
      number of nodes is odd, one in which every store result is reported truthfully. */
  lemma TwoWinners(n: nat) returns (states: seq<Cluster>, steps: seq<Step>)
    requires n >= 2
    ensures IsRun(states, steps) && |states[0].nodes| == n && TwoFromOne(states[|steps|].rounds)
    ensures n % 2 == 1 ==> Truthful(steps)
  {
    var most, d := BothReachQuorums(n);
    var last, e := BothFinish(d, n);
    LeadsOn(Start(n), most, d, last, e);
    steps := most + last;
    states := Unfold(Start(n), steps, e);
  }

  // ---------------------------------------------------------------- two values under one stamp

  /** A first round of node 0 that a quorum promises, and that is given up after node 1 alone accepted it. */
  lemma GivenUp(n: nat) returns (steps: seq<Step>, d: Cluster)
    requires n >= 3
    ensures Leads(Start(n), steps, d) && Truthful(steps)
    ensures |d.nodes| == |d.proposals| == n && d.proposals[0].None?
    ensures d.nodes[0] == Untouched() && d.nodes[1] == Holding(FirstRound(0, "a"), true)
    ensures forall i :: 2 <= i < n ==> Ready(d.nodes[i], FirstRound(0, "b"), false)
    ensures |d.rounds| == 1 && d.rounds[0].value == "a" && d.rounds[0].next == Stamp(1, 0)
  {
    var start := Start(n);
    var most, f := AcceptIsSent(n);
    var accept, g := Sweep(f, 0, 1, 2, true);
    LeadsOn(start, most, f, accept, g);
    OneMore(start, most + accept, g, GiveUp(0));
    steps, d := most + accept + [GiveUp(0)], Next(g, GiveUp(0));
  }

  lemma AcceptIsSent(n: nat) returns (steps: seq<Step>, d: Cluster)
    requires n >= 3
    ensures Leads(Start(n), steps, d) && Truthful(steps)
    ensures |d.nodes| == |d.proposals| == n && d.proposals[0].Some?
    ensures d.nodes[0] == Untouched() && forall i :: 1 <= i <= n / 2 ==> d.nodes[i] == Holding(FirstRound(0, "a"), false)
    ensures forall i :: n / 2 < i < n ==> d.nodes[i] == Untouched()
    ensures |d.rounds| == 1 && d.rounds[0].acceptSent
    ensures d.rounds[0] == FirstRound(0, "a").(promisedBy := d.rounds[0].promisedBy, acceptSent := true)
  {
    var start, answering := Start(n), Ids(1, n / 2 + 1);
    var begin, c := Begins(start, 0, "a");
    var prepares, e := Sweep(c, 0, 1, n / 2 + 1, false);
    LeadsOn(start, begin, c, prepares, e);
    OneMore(start, begin + prepares, e, SendAccept(0, answering));
    steps, d := begin + prepares + [SendAccept(0, answering)], Next(e, SendAccept(0, answering));
  }

  /** A second one under the same stamp, answered by the last half of the nodes. */
  lemma TwoRoundsAccepted(n: nat) returns (steps: seq<Step>, d: Cluster)
    requires n >= 3
    ensures Leads(Start(n), steps, d) && Truthful(steps)
    ensures |d.nodes| == |d.proposals| == n && d.proposals[0] == Some(Proposal(1, "x", "b", Some(1)))
    ensures d.nodes[0] == Untouched()
    ensures d.nodes[1] == Holding(FirstRound(0, "a"), true) && d.nodes[n - 1] == Holding(FirstRound(0, "b"), true)
    ensures |d.rounds| == 2 && d.rounds[0].value == "a" && d.rounds[0].next == Stamp(1, 0)
    ensures var half := Ids(n - n / 2, n);
            d.rounds[1] == FirstRound(0, "b").(promisedBy := half, acceptedBy := half, acceptSent := true)
  {
    var start := Start(n);
    var first, c := GivenUp(n);
    var second, e := Begins(c, 0, "b");
    LeadsOn(start, first, c, second, e);
    var high;
    high, d := Passes(e, 0, 1, n - n / 2, n);
    steps := first + second + high;
    LeadsOn(start, first + second, e, high, d);
  }

  /** A stamp does not determine a value: two rounds of one proposer carry the same stamp and different values, the
      second commits, and nodes are left with either value under that stamp. */
  lemma OneStampTwoValues(n: nat) returns (states: seq<Cluster>, steps: seq<Step>)
    requires n >= 3
    ensures IsRun(states, steps) && |states[0].nodes| == n && Truthful(steps)
    ensures var c := states[|steps|];
            && |c.rounds| == 2 && |c.nodes| == n && c.rounds[0].next == c.rounds[1].next && c.rounds[1].committed
            && c.nodes[1].entry.stamp == c.nodes[n - 1].entry.stamp == c.rounds[1].next
            && c.nodes[1].entry.value == c.rounds[0].value != c.rounds[1].value == c.nodes[n - 1].entry.value
  {
    var most, d := TwoRoundsAccepted(n);
    var s := Finish(0, Ids(n - n / 2, n), true);
    OneMore(Start(n), most, d, s);
    steps := most + [s];
    states := Unfold(Start(n), steps, Next(d, s));
  }

  // ---------------------------------------------------------------- which stamps are still to come

  /** Some continuation has `p` propose a new round under the stamp `s`. */
  ghost predicate MayStamp(c: Cluster, p: nat, s: Stamp) {
    exists steps, d, r :: Leads(c, steps, d) && Stamped(c, d, p, s, r)
  }

  predicate Stamped(c: Cluster, d: Cluster, p: nat, s: Stamp, r: nat) {
    |c.rounds| <= r < |d.rounds| && d.rounds[r].proposer == p && d.rounds[r].next == s
  }

  /** Since there were `from` rounds, `p` has counted from `base` upwards. */
  predicate CountsFrom(c: Cluster, p: nat, base: nat, from: nat) {
    && p < |c.nodes| && p < |c.proposals| && c.nodes[p].clock >= base && from <= |c.rounds|
    && (c.proposals[p].Some? ==> c.proposals[p].value.counter >= base)
    && forall r :: from <= r < |c.rounds| && c.rounds[r].proposer == p ==>
         c.rounds[r].next.node == p && c.rounds[r].next.counter > base
  }

  lemma CountsOn(c: Cluster, s: Step, p: nat, base: nat, from: nat)
    requires Inv(c) && CountsFrom(c, p, base, from) && Enabled(c, s)
    ensures CountsFrom(Next(c, s), p, base, from)
  {
    StepRises(c, s, p);
  }

  lemma {:induction false} CountsAlong(c: Cluster, steps: seq<Step>, d: Cluster, p: nat, base: nat, from: nat)
    requires Inv(c) && CountsFrom(c, p, base, from) && Leads(c, steps, d)
    ensures CountsFrom(d, p, base, from)
    decreases |steps|
  {
    if steps == [] {
    } else {
      CountsOn(c, steps[0], p, base, from);
      NextKeepsInv(c, steps[0]);
      CountsAlong(Next(c, steps[0]), steps[1..], d, p, base, from);
    }
  }

  /** A request that fails to find a quorum `tries` times in a row. */
  lemma {:induction false} Retries(c: Cluster, p: nat, value: string, tries: nat) returns (steps: seq<Step>, d: Cluster)
    requires p < |c.nodes| && p < |c.proposals| && c.proposals[p].None? && tries > 0
    ensures Leads(c, steps, d) && Truthful(steps) && d.nodes == c.nodes
    ensures |d.proposals| == |c.proposals| && |d.rounds| == |c.rounds| + tries
    ensures var r := |d.rounds| - 1; var counter := c.nodes[p].clock + tries;
            d.proposals[p] == Some(Proposal(counter, c.nodes[p].entry.value, value, Some(r))) &&
            d.rounds[r] == Round(p, c.nodes[p].entry.stamp, Stamp(counter, p), value, {}, {}, false, false)
    decreases tries
  {
    var e;
    if tries == 1 {
      var begin := BeginCas(p, c.nodes[p].entry.value, value);
      OneMore(c, [], c, begin);
      steps, e := [] + [begin], Next(c, begin);
    } else {
      steps, e := Retries(c, p, value, tries - 1);
    }
    OneMore(c, steps, e, SendPrepare(p));
    steps, d := steps + [SendPrepare(p)], Next(e, SendPrepare(p));
  }

  /** An idle node can still propose under a stamp, again or for the first time, exactly when the stamp names it and
      lies above its clock. A request that fails leaves the clock where it was. */
  lemma StampsAhead(c: Cluster, p: nat, s: Stamp)
    requires Inv(c) && p < |c.nodes| && c.proposals[p].None?
    ensures MayStamp(c, p, s) <==> s.node == p && s.counter > c.nodes[p].clock
  {
    var base := c.nodes[p].clock;
    if MayStamp(c, p, s) {
      var steps, d, r :| Leads(c, steps, d) && Stamped(c, d, p, s, r);
      CountsAlong(c, steps, d, p, base, |c.rounds|);
    }
    if s.node == p && s.counter > base {
      var steps, d := Retries(c, p, "", s.counter - base);
      assert Stamped(c, d, p, s, |d.rounds| - 1);
    }
  }
}
