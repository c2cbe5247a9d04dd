/** The counters of a cluster can always be brought to agree: from every state the nodes can tell each other all they
    have counted. */
module CounterAgreement {
  import opened PutRule
  import opened CounterModel
  import opened CounterNode
  import opened CounterProtocol

  /** Taking `steps` in turn leads from `c` to `d`. */
  ghost predicate Leads(c: Cluster, steps: seq<Step>, d: Cluster)
    decreases |steps|
  {
    if steps == [] then c == d
    else Enabled(c, steps[0]) && Leads(Next(c, steps[0]), steps[1..], d)
  }

  lemma {:induction false} LeadsOn(c: Cluster, steps: seq<Step>, d: Cluster, more: seq<Step>, e: Cluster)
    requires Leads(c, steps, d) && Leads(d, more, e)
    ensures Leads(c, steps + more, e)
    decreases |steps|
  {
    if steps == [] {
      assert steps + more == more;
    } else {
      LeadsOn(Next(c, steps[0]), steps[1..], d, more, e);
      FirstThenRest(c, steps[0], steps[1..] + more, e);
      Regrouped(steps, more);
    }
  }

  lemma Regrouped(steps: seq<Step>, more: seq<Step>)
    requires steps != []
    ensures steps + more == [steps[0]] + (steps[1..] + more)
  {}

  lemma FirstThenRest(c: Cluster, s: Step, rest: seq<Step>, e: Cluster)
    requires Enabled(c, s) && Leads(Next(c, s), rest, e)
    ensures Leads(c, [s] + rest, e)
  {
    var all := [s] + rest;
    assert all[0] == s && all[1..] == rest;
  }

  lemma OneMore(c: Cluster, steps: seq<Step>, d: Cluster, s: Step)
    requires Leads(c, steps, d) && Enabled(d, s)
    ensures Leads(c, steps + [s], Next(d, s))
  {
    assert [s][1..] == [] && Leads(Next(d, s), [], Next(d, s));
    LeadsOn(c, steps, d, [s], Next(d, s));
  }

  // ---------------------------------------------------------------- room for everybody

  /** All arrays have a slot for every node, as those of a counter made for the whole cluster do. */
  predicate Wide(c: Cluster) {
    forall i, g :: 0 <= i < |c.nodes| && 0 <= g < |c.nodes[i].arrays| ==> |c.nodes[i].arrays[g]| >= |c.nodes|
  }

  function Members(order: seq<nat>): (s: set<nat>)
    ensures forall x :: x in s <==> x in order
  {
    set x | x in order
  }

  lemma {:induction false} MembersCount(order: seq<nat>)
    requires forall s, t :: 0 <= s < t < |order| ==> order[s] != order[t]
    ensures |Members(order)| == |order|
  {
    if order == [] {
    } else {
      var n := |order| - 1;
      MembersCount(order[..n]);
      assert Members(order) == Members(order[..n]) + {order[n]};
    }
  }

  lemma {:induction false} SmallMembers(s: set<nat>, n: nat)
    requires forall x :: x in s ==> x < n
    ensures |s| <= n
    decreases n
  {
    if n == 0 {
      assert s == {};
    } else {
      SmallMembers(s - {n - 1}, n - 1);
      assert |s| <= |s - {n - 1}| + 1;
    }
  }

  /** Slots never run out. */
  lemma SlotsSuffice(nd: Node, own: seq<PN>, j: nat)
    requires Valid(nd) && Bounded(nd, own) && j < |own|
    ensures Slot(nd.order, j) < |own|
  {
    var all := Members(nd.order);
    MembersCount(nd.order);
    if j in nd.order {
      SmallMembers(all, |own|);
    } else {
      SmallMembers(all + {j}, |own|);
      assert |all + {j}| == |all| + 1;
    }
  }

  predicate WideNode(nd: Node, n: nat) {
    forall g :: 0 <= g < |nd.arrays| ==> |nd.arrays[g]| >= n
  }

  lemma WriteWide(nd: Node, g: nat, j: nat, value: PN, throughStored: bool, n: nat)
    requires g < |nd.arrays| && WideNode(nd, n)
    ensures WideNode(AfterWrite(nd, g, j, value, throughStored), n)
  {}

  lemma OneNodeWide(c: Cluster, i: nat, nd: Node)
    requires Wide(c) && i < |c.nodes| && WideNode(nd, |c.nodes|)
    ensures Wide(c.(nodes := c.nodes[i := nd]))
  {}

  lemma NodeOfWide(c: Cluster, i: nat)
    requires Wide(c) && i < |c.nodes|
    ensures WideNode(c.nodes[i], |c.nodes|)
  {}

  lemma SameWide(c: Cluster, d: Cluster)
    requires Wide(c) && d.nodes == c.nodes
    ensures Wide(d)
  {}

  lemma WideStays(c: Cluster, s: Step)
    requires Enabled(c, s) && Wide(c)
    ensures Wide(Next(c, s))
  {
    match s {
      case Update(i, isIncrement) =>
        var nd := c.nodes[i];
        NodeOfWide(c, i);
        WriteWide(nd, nd.stored, i, Bump(Known(c, i, i), isIncrement), true, |c.nodes|);
        OneNodeWide(c, i, Next(c, s).nodes[i]);
        SameWide(c.(nodes := c.nodes[i := Next(c, s).nodes[i]]), Next(c, s));
      case Capture(_, _, _) => SameWide(c, Next(c, s));
      case Replicate(u, j) => SendWide(c, u, j);
      case HandleRequest(m) => MergeWide(c, m);
      case HandleAnswer(a) => AnswerWide(c, a);
    }
  }

  lemma SendWide(c: Cluster, u: nat, j: nat)
    requires Enabled(c, Replicate(u, j)) && Wide(c)
    ensures Wide(Next(c, Replicate(u, j)))
  {
    var i := c.updates[u].node;
    NodeOfWide(c, i);
    OneNodeWide(c, i, Touch(c.nodes[i], j));
    SameWide(if j < |c.nodes[i].arrays[c.updates[u].captured]| then c.(nodes := c.nodes[i := Touch(c.nodes[i], j)]) else c,
             Next(c, Replicate(u, j)));
  }

  lemma MergeWide(c: Cluster, m: Sent)
    requires Enabled(c, HandleRequest(m)) && Wide(c)
    ensures Wide(Next(c, HandleRequest(m)))
  {
    var nd, r := c.nodes[m.to], m.request;
    NodeOfWide(c, m.to);
    var value := Merge(View(nd, nd.stored, r.otherNodeId), r.isIncrement, r.newValue);
    WriteWide(nd, nd.stored, r.otherNodeId, value, true, |c.nodes|);
    var nd' := Touch(Merging(nd, r), m.to);
    OneNodeWide(c, m.to, nd');
    SameWide(c.(nodes := c.nodes[m.to := nd']), Next(c, HandleRequest(m)));
  }

  lemma AnswerWide(c: Cluster, a: Answered)
    requires Enabled(c, HandleAnswer(a)) && Wide(c)
    ensures Wide(Next(c, HandleAnswer(a)))
  {
    var k := c.updates[a.u];
    var nd := c.nodes[k.node];
    var value := Synced(View(nd, k.answered, a.from), a.response);
    NodeOfWide(c, k.node);
    WriteWide(nd, k.answered, a.from, value, false, |c.nodes|);
    OneNodeWide(c, k.node, AfterWrite(nd, k.answered, a.from, value, false));
    SameWide(if Tells(a.response) then c.(nodes := c.nodes[k.node := AfterWrite(nd, k.answered, a.from, value, false)]) else c,
             Next(c, HandleAnswer(a)));
  }

  // ---------------------------------------------------------------- telling

  /** Nothing was counted in between, and nobody knows less. */
  ghost predicate OnlyTold(c: Cluster, d: Cluster) {
    Inv(d) && Wide(d) && Grows(c, d) && d.incs == c.incs && d.decs == c.decs
  }

  predicate Quiet(steps: seq<Step>) {
    forall i :: 0 <= i < |steps| ==> !steps[i].Update?
  }

  lemma QuietTells(c: Cluster, steps: seq<Step>, d: Cluster)
    requires Inv(c) && Wide(c) && Leads(c, steps, d) && Quiet(steps)
    ensures OnlyTold(c, d)
  {
    LeadsKeeps(c, steps, d);
    LeadsGrows(c, steps, d);
    QuietCounts(c, steps, d);
  }

  lemma {:induction false} LeadsGrows(c: Cluster, steps: seq<Step>, d: Cluster)
    requires Inv(c) && Leads(c, steps, d)
    ensures Grows(c, d)
    decreases |steps|
  {
    if steps == [] {
      SameNodes(c, c);
    } else {
      assert Inv(Next(c, steps[0])) by { NextKeepsInv(c, steps[0]); }
      LeadsGrows(Next(c, steps[0]), steps[1..], d);
      GrowsFirst(c, steps[0], d);
    }
  }

  lemma GrowsFirst(c: Cluster, s: Step, d: Cluster)
    requires Inv(c) && Enabled(c, s) && Grows(Next(c, s), d)
    ensures Grows(c, d)
  {
    NextKeepsInv(c, s);
    GrowsOn(c, Next(c, s), d);
  }

  lemma {:induction false} QuietCounts(c: Cluster, steps: seq<Step>, d: Cluster)
    requires Leads(c, steps, d) && Quiet(steps)
    ensures d.incs == c.incs && d.decs == c.decs
    decreases |steps|
  {
    if steps == [] {
    } else {
      assert !steps[0].Update?;
      NothingCounted(c, steps[0]);
      QuietCounts(Next(c, steps[0]), steps[1..], d);
    }
  }

  lemma NothingCounted(c: Cluster, s: Step)
    requires Enabled(c, s) && !s.Update?
    ensures Next(c, s).incs == c.incs && Next(c, s).decs == c.decs
  {}

  /** A state that some run reaches, of counters made for the whole cluster. */
  ghost predicate Reachable(c: Cluster) {
    exists start, path :: Starts(start) && Leads(start, path, c)
  }

  predicate Starts(c: Cluster) {
    Init(c) && Wide(c)
  }

  lemma ReachableOn(c: Cluster, steps: seq<Step>, d: Cluster)
    requires Reachable(c) && Leads(c, steps, d)
    ensures Reachable(d)
  {
    var start, path :| Starts(start) && Leads(start, path, c);
    LeadsOn(start, path, c, steps, d);
  }

  lemma {:induction false} LeadsKeeps(c: Cluster, steps: seq<Step>, d: Cluster)
    requires Inv(c) && Wide(c) && Leads(c, steps, d)
    ensures Inv(d) && Wide(d)
    decreases |steps|
  {
    if steps == [] {
    } else {
      NextKeepsInv(c, steps[0]);
      WideStays(c, steps[0]);
      LeadsKeeps(Next(c, steps[0]), steps[1..], d);
    }
  }

  lemma ReachableHolds(c: Cluster)
    requires Reachable(c)
    ensures Inv(c) && Wide(c)
  {
    var start, path :| Starts(start) && Leads(start, path, c);
    InitInv(start);
    LeadsKeeps(start, path, c);
  }

  lemma {:induction false} SizeStays(c: Cluster, steps: seq<Step>, d: Cluster)
    requires Leads(c, steps, d)
    ensures |d.nodes| == |c.nodes|
    decreases |steps|
  {
    if steps == [] {
    } else {
      SizeStays(Next(c, steps[0]), steps[1..], d);
    }
  }

  /** Without counting, every node's own count stays. */
  lemma SameOwn(c: Cluster, d: Cluster)
    requires NothingLost(c) && NothingLost(d) && Grows(c, d) && d.incs == c.incs && d.decs == c.decs
    ensures Column(d) == Column(c)
  {
    forall i | 0 <= i < |c.nodes| ensures Leq(Column(c)[i], Column(d)[i]) {
      assert NodeGrows(c.nodes[i], d.nodes[i]);
    }
    RowBelow(Column(c), Column(d));
  }

  lemma OwnStays(c: Cluster, steps: seq<Step>, d: Cluster, b: nat)
    requires Inv(c) && Wide(c) && Leads(c, steps, d) && Quiet(steps) && b < |c.nodes|
    ensures Inv(d) && Wide(d) && |d.nodes| == |c.nodes| && Known(d, b, b) == Known(c, b, b)
  {
    QuietTells(c, steps, d);
    SameOwn(c, d);
    assert Column(c)[b] == Column(d)[b];
  }

  /** Two stretches of telling, one after the other. */
  lemma Then(c: Cluster, steps: seq<Step>, d: Cluster, more: seq<Step>, e: Cluster)
    requires Leads(c, steps, d) && Leads(d, more, e) && Quiet(steps) && Quiet(more)
    ensures Leads(c, steps + more, e) && Quiet(steps + more)
  {
    LeadsOn(c, steps, d, more, e);
  }

  /** Node `b` sends out what it has counted. */
  lemma Captured(c: Cluster, b: nat, isIncrement: bool) returns (s: Step, d: Cluster)
    requires Inv(c) && Wide(c) && b < |c.nodes| && CountOf(Known(c, b, b), isIncrement) > 0
    ensures !s.Update? && Enabled(c, s) && d == Next(c, s) && Inv(d) && Wide(d) && d.nodes == c.nodes
    ensures |d.updates| == |c.updates| + 1
    ensures var k := d.updates[|c.updates|];
            k.node == b && k.isIncrement == isIncrement && k.value == CountOf(Known(c, b, b), isIncrement)
  {
    s := Capture(b, isIncrement, CountOf(Known(c, b, b), isIncrement));
    d := Next(c, s);
    NextKeepsInv(c, s);
    WideStays(c, s);
  }

  /** A request to `a` is built. */
  lemma Built(c: Cluster, u: nat, a: nat) returns (d: Cluster, m: Sent)
    requires Inv(c) && Wide(c) && u < |c.updates| && a < |c.nodes| && a != c.updates[u].node
    ensures Enabled(c, Replicate(u, a)) && d == Next(c, Replicate(u, a)) && m in d.requests && m.to == a
    ensures m.request.otherNodeId == c.updates[u].node && m.request.isIncrement == c.updates[u].isIncrement
    ensures m.request.newValue == c.updates[u].value
  {
    var k := c.updates[u];
    assert UpdateHolds(c, k) && Valid(c.nodes[k.node]) && Bounded(c.nodes[k.node], Column(c));
    SlotsSuffice(c.nodes[k.node], Column(c), a);
    d := Next(c, Replicate(u, a));
    m := Sent(u, a, RequestOf(d.updates[u]));
  }

  lemma Sends(c: Cluster, b: nat, a: nat, isIncrement: bool) returns (steps: seq<Step>, d: Cluster, m: Sent)
    requires Inv(c) && Wide(c) && a < |c.nodes| && b < |c.nodes| && a != b && CountOf(Known(c, b, b), isIncrement) > 0
    ensures Leads(c, steps, d) && Quiet(steps) && m in d.requests && m.to == a
    ensures m.request.otherNodeId == b && m.request.isIncrement == isIncrement
    ensures m.request.newValue == CountOf(Known(c, b, b), isIncrement)
  {
    var s, e := Captured(c, b, isIncrement);
    d, m := Built(e, |c.updates|, a);
    TwoSteps(c, s, e, Replicate(|c.updates|, a), d);
    steps := [s] + [Replicate(|c.updates|, a)];
  }

  lemma TwoSteps(c: Cluster, s: Step, d: Cluster, t: Step, e: Cluster)
    requires Enabled(c, s) && d == Next(c, s) && Enabled(d, t) && e == Next(d, t)
    requires !s.Update? && !t.Update?
    ensures Leads(c, [s] + [t], e) && Quiet([s] + [t])
  {
    assert [t][1..] == [] && Leads(d, [t], e);
    FirstThenRest(c, s, [t], e);
  }

  /** A request can be handled: there is room for the receiver's own slot. */
  lemma CanHandle(c: Cluster, m: Sent)
    requires Inv(c) && Wide(c) && m in c.requests
    ensures Enabled(c, HandleRequest(m))
  {
    assert RequestHolds(c, m) && UpdateHolds(c, c.updates[m.u]);
    var nd, r := c.nodes[m.to], m.request;
    assert Valid(nd) && Bounded(nd, Column(c));
    NodeOfWide(c, m.to);
    RoomToMerge(nd, r, m.to, Column(c));
  }

  lemma RoomToMerge(nd: Node, r: Request, i: nat, own: seq<PN>)
    requires Valid(nd) && Bounded(nd, own) && i < |own| && r.otherNodeId < |own| && i != r.otherNodeId && WideNode(nd, |own|)
    requires 0 < r.newValue <= if r.isIncrement then own[r.otherNodeId].inc else own[r.otherNodeId].dec
    ensures StoredFits(Merging(nd, r), i)
  {
    var value := Merge(View(nd, nd.stored, r.otherNodeId), r.isIncrement, r.newValue);
    assert Leq(PN(0, 0), View(nd, nd.stored, r.otherNodeId)) && Leq(View(nd, nd.stored, r.otherNodeId), own[r.otherNodeId]);
    WriteBounded(nd, nd.stored, r.otherNodeId, value, true, own);
    WriteValid(nd, nd.stored, r.otherNodeId, value);
    WriteWide(nd, nd.stored, r.otherNodeId, value, true, |own|);
    SlotsSuffice(Merging(nd, r), own, i);
  }

  /** Node `b` tells node `a` what it has counted of one kind. */
  lemma Tell(c: Cluster, b: nat, a: nat, isIncrement: bool) returns (steps: seq<Step>, d: Cluster)
    requires Inv(c) && Wide(c) && a < |c.nodes| && b < |c.nodes| && a != b
    ensures Leads(c, steps, d) && Quiet(steps) && Shaped(d) && a < |d.nodes|
    ensures CountOf(Known(d, a, b), isIncrement) >= CountOf(Known(c, b, b), isIncrement)
  {
    if CountOf(Known(c, b, b), isIncrement) <= 0 {
      assert Bounded(c.nodes[a], Column(c));
      steps, d := [], c;
    } else {
      var before, e, m := Sends(c, b, a, isIncrement);
      assert Inv(e) && Wide(e) by { QuietTells(c, before, e); }
      CanHandle(e, m);
      OneMore(c, before, e, HandleRequest(m));
      Teaches(e, m);
      steps, d := before + [HandleRequest(m)], Next(e, HandleRequest(m));
    }
  }

  /** Node `a` knows of node `b` what `b` has counted. */
  ghost predicate KnowsAll(c: Cluster, a: nat, b: nat) {
    Shaped(c) && a < |c.nodes| && b < |c.nodes| && Leq(Known(c, b, b), Known(c, a, b))
  }

  /** What is known stays known. */
  lemma StillKnown(c: Cluster, steps: seq<Step>, d: Cluster, a: nat, b: nat)
    requires Reachable(c) && Leads(c, steps, d) && Quiet(steps) && KnowsAll(c, a, b)
    ensures KnowsAll(d, a, b)
  {
    ReachableHolds(c);
    OwnStays(c, steps, d, b);
    assert NodeGrows(c.nodes[a], d.nodes[a]) by { QuietTells(c, steps, d); }
  }

  lemma TellBoth(c: Cluster, b: nat, a: nat) returns (steps: seq<Step>, d: Cluster)
    requires Reachable(c) && a < |c.nodes| && b < |c.nodes|
    ensures Leads(c, steps, d) && Quiet(steps) && KnowsAll(d, a, b)
  {
    ReachableHolds(c);
    if a == b {
      steps, d := [], c;
    } else {
      var incs, e := Tell(c, b, a, true);
      OwnStays(c, incs, e, b);
      var decs, f := Tell(e, b, a, false);
      OwnStays(e, decs, f, b);
      assert NodeGrows(e.nodes[a], f.nodes[a]) by { QuietTells(e, decs, f); }
      Then(c, incs, e, decs, f);
      steps, d := incs + decs, f;
    }
  }

  /** States of a cluster of `n` nodes, and telling that leads from one to another. */
  ghost predicate ReachableOf(c: Cluster, n: nat) {
    Reachable(c) && |c.nodes| == n
  }

  ghost predicate TellsTo(c: Cluster, d: Cluster) {
    exists steps :: Leads(c, steps, d) && Quiet(steps)
  }

  lemma TellsToSame(c: Cluster)
    ensures TellsTo(c, c)
  {
    assert Leads(c, [], c) && Quiet([]);
  }

  lemma TellsToOn(c: Cluster, d: Cluster, e: Cluster)
    requires TellsTo(c, d) && TellsTo(d, e)
    ensures TellsTo(c, e)
  {
    var steps :| Leads(c, steps, d) && Quiet(steps);
    var more :| Leads(d, more, e) && Quiet(more);
    Then(c, steps, d, more, e);
  }

  lemma TellsToReachable(c: Cluster, d: Cluster, n: nat)
    requires ReachableOf(c, n) && TellsTo(c, d)
    ensures ReachableOf(d, n)
  {
    var steps :| Leads(c, steps, d) && Quiet(steps);
    ReachableOn(c, steps, d);
    SizeStays(c, steps, d);
  }

  ghost predicate Knows(c: Cluster, pair: (nat, nat)) {
    KnowsAll(c, pair.0, pair.1)
  }

  lemma CanTell(c: Cluster, n: nat, pair: (nat, nat))
    requires ReachableOf(c, n) && pair.0 < n && pair.1 < n
    ensures exists d :: TellsTo(c, d) && Knows(d, pair)
  {
    var steps, d := TellBoth(c, pair.1, pair.0);
    assert TellsTo(c, d) && Knows(d, pair);
  }

  /** A state in which one node has told another. */
  ghost function Telling(c: Cluster, n: nat, pair: (nat, nat)): (d: Cluster)
    ensures ReachableOf(c, n) && pair.0 < n && pair.1 < n ==> TellsTo(c, d) && Knows(d, pair)
  {
    if ReachableOf(c, n) && pair.0 < n && pair.1 < n then
      CanTell(c, n, pair);
      var d :| TellsTo(c, d) && Knows(d, pair);
      d
    else c
  }

  lemma KnowsStill(c: Cluster, d: Cluster, n: nat, pair: (nat, nat))
    requires ReachableOf(c, n) && TellsTo(c, d) && Knows(c, pair)
    ensures Knows(d, pair)
  {
    var steps :| Leads(c, steps, d) && Quiet(steps);
    StillKnown(c, steps, d, pair.0, pair.1);
  }

  /** All pairs of numbers below `n`, the first below `k`. */
  function Pairs(n: nat, k: nat): (s: set<(nat, nat)>)
    ensures forall a: nat, b: nat :: (a, b) in s <==> a < k && b < n
  {
    set a: nat, b: nat | a < k && b < n :: (a, b)
  }

  lemma TellEach(c: Cluster, n: nat) returns (d: Cluster)
    requires ReachableOf(c, n)
    ensures TellsTo(c, d) && forall a: nat, b: nat :: a < n && b < n ==> Knows(d, (a, b))
  {
    var reach := (d: Cluster) => TellsTo(c, d) && ReachableOf(d, n);
    var knows := (d: Cluster, p: (nat, nat)) => Knows(d, p);
    var next := (d: Cluster, p: (nat, nat)) => Telling(d, n, p);
    TellsToSame(c);
    forall d, p | reach(d) && p in Pairs(n, n) ensures reach(next(d, p)) && knows(next(d, p), p) {
      TellsToOn(c, d, next(d, p));
      TellsToReachable(d, next(d, p), n);
    }
    forall d, p, q | reach(d) && p in Pairs(n, n) && knows(d, q) ensures knows(next(d, p), q) {
      KnowsStill(d, next(d, p), n, q);
    }
    d := DoAll(reach, knows, next, Pairs(n, n), c);
    forall a: nat, b: nat | a < n && b < n ensures Knows(d, (a, b)) {
      assert knows(d, (a, b));
    }
  }

  /** Tasks that can each be done from everywhere, and stay done, can all be done. */
  lemma {:induction false} DoAll<S(!new), T(!new)>(reach: S -> bool, done: (S, T) -> bool, next: (S, T) -> S,
                                                   tasks: set<T>, c: S) returns (d: S)
    requires reach(c)
    requires forall e, t :: reach(e) && t in tasks ==> reach(next(e, t)) && done(next(e, t), t)
    requires forall e, t, u :: reach(e) && t in tasks && done(e, u) ==> done(next(e, t), u)
    ensures reach(d) && forall t :: t in tasks ==> done(d, t)
    decreases tasks
  {
    if tasks == {} {
      d := c;
    } else {
      var t :| t in tasks;
      var e := DoAll(reach, done, next, tasks - {t}, c);
      d := next(e, t);
    }
  }

  lemma {:induction false} RunReaches(states: seq<Cluster>, steps: seq<Step>, i: nat)
    requires IsRun(states, steps) && i < |states|
    ensures Leads(states[0], steps[..i], states[i])
  {
    if i == 0 {
    } else {
      RunReaches(states, steps, i - 1);
      assert Enabled(states[i - 1], steps[i - 1]) && states[i] == Next(states[i - 1], steps[i - 1]);
      OneMore(states[0], steps[..i - 1], states[i - 1], steps[i - 1]);
      assert steps[..i] == steps[..i - 1] + [steps[i - 1]];
    }
  }

  /** From every state of every run of counters made for the whole cluster there is a way on, without counting, after
      which every node has caught up with every node and answers all increments less all decrements. */
  lemma AgreementReachable(states: seq<Cluster>, steps: seq<Step>, i: nat) returns (more: seq<Step>, d: Cluster)
    requires IsRun(states, steps) && i < |states| && Wide(states[0])
    ensures Leads(states[i], more, d) && Quiet(more) && d.incs == states[i].incs && d.decs == states[i].decs
    ensures Shaped(d) && |d.nodes| == |states[i].nodes|
    ensures forall n :: 0 <= n < |d.nodes| ==> CaughtUp(d, n) && CountAt(d, n) == d.incs - d.decs
  {
    RunReaches(states, steps, i);
    assert Starts(states[0]) && Reachable(states[i]);
    var size := |states[i].nodes|;
    d := TellEach(states[i], size);
    more :| Leads(states[i], more, d) && Quiet(more);
    ReachableHolds(states[i]);
    QuietTells(states[i], more, d);
    forall n | 0 <= n < |d.nodes| ensures CaughtUp(d, n) && CountAt(d, n) == d.incs - d.decs {
      forall b | 0 <= b < |d.nodes| ensures KnowsAll(d, n, b) {
        assert Knows(d, (n, b));
      }
      AllKnown(d, n);
    }
  }

  lemma AllKnown(d: Cluster, n: nat)
    requires Inv(d) && n < |d.nodes| && forall b :: 0 <= b < |d.nodes| ==> KnowsAll(d, n, b)
    ensures CaughtUp(d, n) && CountAt(d, n) == d.incs - d.decs
  {
    forall j | 0 <= j < |d.nodes| ensures Known(d, n, j) == Known(d, j, j) {
      assert KnowsAll(d, n, j) && Bounded(d.nodes[n], Column(d));
    }
    CaughtUpCounts(d, n);
  }

  lemma CaughtUpCounts(c: Cluster, n: nat)
    requires Inv(c) && n < |c.nodes| && CaughtUp(c, n)
    ensures CountAt(c, n) == c.incs - c.decs
  {
    CountsByNode(c, n);
    assert Row(c, n) == Column(c);
  }
}
