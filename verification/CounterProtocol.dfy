/** The replicated counter: any number of nodes count locally, send what they counted and what they have seen of the
    receiver, and answer with what the sender has missed. Messages may be lost, repeated and reordered. An update takes
    a copy of the counter along: its requests are built from the copy, and the answers are applied to it. */
module CounterProtocol {
  import opened Arithmetic
  import opened PutRule
  import opened CounterModel
  import opened CounterNode

  /** What the requests of an update report as seen, and of which node it was read. They all share one list of
      arguments, whose first entries are those of the request built first. */
  datatype Report = Report(of: nat, seen: PN)

  /** An update that is being sent out. Its requests are built from arrays `captured`; the copy its answers are applied
      to starts out with the same arrays and holds `answered` now. */
  datatype Sending = Sending(node: nat, isIncrement: bool, value: int, captured: nat, answered: nat,
                             report: Option<Report>)

  /** A replicate request of update `u` on its way to node `to`. */
  datatype Sent = Sent(u: nat, to: nat, request: Request)

  /** An answer to update `u` on its way back; `at` is the answering node's own count at that moment. */
  datatype Answered = Answered(u: nat, from: nat, response: Response, at: PN)

  /** `incs` and `decs` count all client updates so far. */
  datatype Cluster = Cluster(nodes: seq<Node>, updates: seq<Sending>, requests: set<Sent>, answers: set<Answered>,
                             incs: nat, decs: nat)

  datatype Step =
    | Update(i: nat, isIncrement: bool)
    | Capture(i: nat, isIncrement: bool, value: int)
    | Replicate(u: nat, j: nat)
    | HandleRequest(m: Sent)
    | HandleAnswer(a: Answered)

  /** All indices lie where they should. */
  predicate Shaped(c: Cluster) {
    && (forall i :: 0 <= i < |c.nodes| ==> c.nodes[i].stored < |c.nodes[i].arrays|)
    && (forall u :: 0 <= u < |c.updates| ==> ShapedUpdate(c, c.updates[u]))
  }

  predicate ShapedUpdate(c: Cluster, k: Sending) {
    k.node < |c.nodes| && k.captured < |c.nodes[k.node].arrays| && k.answered < |c.nodes[k.node].arrays|
  }

  /** What node `i`'s stored counter knows of node `j`. */
  function Known(c: Cluster, i: nat, j: nat): PN
    requires Shaped(c) && i < |c.nodes|
  {
    View(c.nodes[i], c.nodes[i].stored, j)
  }

  function CountOf(s: PN, isIncrement: bool): int {
    if isIncrement then s.inc else s.dec
  }

  /** What a request to `j` would report: what the captured arrays hold of it, or nothing for a large node id. */
  function LastSeen(nd: Node, captured: nat, j: nat): PN
    requires captured < |nd.arrays|
  {
    if j >= |nd.arrays[captured]| then PN(0, 0) else View(nd, captured, j)
  }

  function RequestOf(k: Sending): Request
    requires k.report.Some?
  {
    var seen := Received(k.report.value.seen);
    Request(k.node, k.isIncrement, k.value, seen.inc, seen.dec)
  }

  /** The update once a request to `j` is built. */
  function Reporting(k: Sending, nd: Node, j: nat): Sending
    requires k.captured < |nd.arrays|
  {
    if k.report.Some? then k else k.(report := Some(Report(j, LastSeen(nd, k.captured, j))))
  }

  /** The node after merging a request, before it looks for its own slot. */
  function Merging(nd: Node, r: Request): Node
    requires nd.stored < |nd.arrays|
  {
    AfterWrite(nd, nd.stored, r.otherNodeId, Merge(View(nd, nd.stored, r.otherNodeId), r.isIncrement, r.newValue), true)
  }

  predicate StoredFits(nd: Node, j: nat) {
    nd.stored < |nd.arrays| && Fits(nd, nd.stored, j)
  }

  /** An update is sent out with a count its node has reached. Counting and answering need the node's own slot within
      the stored arrays, and building a request the receiver's within the captured ones, unless its id is large: past
      them the code leaves its memory. */
  predicate Enabled(c: Cluster, s: Step) {
    Shaped(c) &&
    match s
    case Update(i, _) => i < |c.nodes| && StoredFits(c.nodes[i], i)
    case Capture(i, isIncrement, value) =>
      i < |c.nodes| && 0 < value <= if isIncrement then Known(c, i, i).inc else Known(c, i, i).dec
    case Replicate(u, j) =>
      u < |c.updates| && j < |c.nodes| && j != c.updates[u].node &&
      var nd := c.nodes[c.updates[u].node];
      (j < |nd.arrays[c.updates[u].captured]| ==> Fits(nd, c.updates[u].captured, j))
    case HandleRequest(m) => m in c.requests && m.to < |c.nodes| && StoredFits(Merging(c.nodes[m.to], m.request), m.to)
    case HandleAnswer(a) => a in c.answers && a.u < |c.updates|
  }

  function Next(c: Cluster, s: Step): Cluster
    requires Enabled(c, s)
  {
    match s
    case Update(i, isIncrement) =>
      var nd := c.nodes[i];
      c.(nodes := c.nodes[i := AfterWrite(nd, nd.stored, i, Bump(Known(c, i, i), isIncrement), true)],
         incs := if isIncrement then c.incs + 1 else c.incs, decs := if isIncrement then c.decs else c.decs + 1)
    case Capture(i, isIncrement, value) =>
      c.(updates := c.updates + [Sending(i, isIncrement, value, c.nodes[i].stored, c.nodes[i].stored, None)])
    case Replicate(u, j) =>
      var k := c.updates[u];
      var nd := c.nodes[k.node];
      var k' := Reporting(k, nd, j);
      c.(nodes := if j < |nd.arrays[k.captured]| then c.nodes[k.node := Touch(nd, j)] else c.nodes,
         updates := c.updates[u := k'], requests := c.requests + {Sent(u, j, RequestOf(k'))})
    case HandleRequest(m) =>
      var nd := Touch(Merging(c.nodes[m.to], m.request), m.to);
      var own := View(nd, nd.stored, m.to);
      c.(nodes := c.nodes[m.to := nd], answers := c.answers + {Answered(m.u, m.to, Answer(own, m.request), own)})
    case HandleAnswer(a) =>
      var k := c.updates[a.u];
      var nd := c.nodes[k.node];
      if !Tells(a.response) then c
      else
        c.(nodes := c.nodes[k.node :=
             AfterWrite(nd, k.answered, a.from, Synced(View(nd, k.answered, a.from), a.response), false)],
           updates := c.updates[a.u := k.(answered := Target(nd, k.answered, a.from))])
  }

  /** Counters start with arrays of any size, all zero, and no slots given out. */
  predicate Init(c: Cluster) {
    && c.updates == [] && c.requests == {} && c.answers == {} && c.incs == 0 && c.decs == 0
    && forall i :: 0 <= i < |c.nodes| ==> Fresh(c.nodes[i])
  }

  predicate Fresh(nd: Node) {
    nd.order == [] && |nd.arrays| == 1 && nd.stored == 0 &&
    forall s :: 0 <= s < |nd.arrays[0]| ==> nd.arrays[0][s] == PN(0, 0)
  }

  predicate IsRun(states: seq<Cluster>, steps: seq<Step>) {
    |states| == |steps| + 1 && Init(states[0]) &&
    forall i {:trigger steps[i]} :: 0 <= i < |steps| ==>
      Enabled(states[i], steps[i]) && states[i + 1] == Next(states[i], steps[i])
  }

  // ---------------------------------------------------------------- invariant

  /** The nodes' own counts. */
  function Column(c: Cluster): seq<PN>
    requires Shaped(c)
  {
    seq(|c.nodes|, i requires 0 <= i < |c.nodes| => Known(c, i, i))
  }

  function SumInc(row: seq<PN>): int {
    if row == [] then 0 else SumInc(row[..|row| - 1]) + row[|row| - 1].inc
  }

  function SumDec(row: seq<PN>): int {
    if row == [] then 0 else SumDec(row[..|row| - 1]) + row[|row| - 1].dec
  }

  /** Nobody's arrays, current or outdated, hold more of a node than the node itself has counted. */
  ghost predicate NoOvercount(c: Cluster) {
    Shaped(c) && forall i :: 0 <= i < |c.nodes| ==> Valid(c.nodes[i]) && Bounded(c.nodes[i], Column(c))
  }

  /** The nodes' own counts add up to all client updates. */
  predicate NothingLost(c: Cluster) {
    Shaped(c) && SumInc(Column(c)) == c.incs && SumDec(Column(c)) == c.decs
  }

  /** Arrays that took the place of the captured ones, in the stored counter or the copy, are larger. */
  predicate OnlyLarger(nd: Node, k: Sending)
    requires nd.stored < |nd.arrays| && k.captured < |nd.arrays| && k.answered < |nd.arrays|
  {
    var size := |nd.arrays[k.captured]|;
    (nd.stored == k.captured || |nd.arrays[nd.stored]| > size) &&
    (k.answered == k.captured || |nd.arrays[k.answered]| > size)
  }

  /** A copy whose arrays were replaced never holds the stored ones, and what an update reports its arrays still hold. */
  ghost predicate UpdateHolds(c: Cluster, k: Sending) {
    Shaped(c) && ShapedUpdate(c, k) &&
    (k.answered == c.nodes[k.node].stored ==> k.answered == k.captured) && OnlyLarger(c.nodes[k.node], k) &&
    0 < k.value <= (if k.isIncrement then Known(c, k.node, k.node).inc else Known(c, k.node, k.node).dec) &&
    (k.report.Some? ==>
       k.report.value.of < |c.nodes| && k.report.value.of != k.node && Leq(PN(0, 0), k.report.value.seen) &&
       Leq(k.report.value.seen, View(c.nodes[k.node], k.captured, k.report.value.of)))
  }

  predicate RequestHolds(c: Cluster, m: Sent) {
    Shaped(c) && m.u < |c.updates| && m.to < |c.nodes| && m.to != c.updates[m.u].node &&
    c.updates[m.u].report.Some? && m.request == RequestOf(c.updates[m.u])
  }

  /** An answer carries the answering node's counts, or zero where the request reported as much. */
  predicate AnswerHolds(c: Cluster, a: Answered) {
    Shaped(c) && a.u < |c.updates| && a.from < |c.nodes| && a.from != c.updates[a.u].node &&
    c.updates[a.u].report.Some? && Leq(PN(0, 0), a.at) && Leq(a.at, Known(c, a.from, a.from)) &&
    a.response == Answer(a.at, RequestOf(c.updates[a.u]))
  }

  ghost predicate UpdatesHold(c: Cluster) {
    forall u :: 0 <= u < |c.updates| ==> UpdateHolds(c, c.updates[u])
  }

  predicate MessagesHold(c: Cluster) {
    (forall m :: m in c.requests ==> RequestHolds(c, m)) && (forall a :: a in c.answers ==> AnswerHolds(c, a))
  }

  ghost predicate Inv(c: Cluster) {
    NoOvercount(c) && NothingLost(c) && UpdatesHold(c) && MessagesHold(c)
  }

  /** Everything every node knows, in its stored counter and in all arrays, is at least what it was. */
  ghost predicate Grows(c: Cluster, c': Cluster) {
    |c.nodes| == |c'.nodes| && forall i :: 0 <= i < |c.nodes| ==> NodeGrows(c.nodes[i], c'.nodes[i])
  }

  /** An update that goes on: it keeps what it has sent, and its copy keeps its arrays or takes new ones. */
  predicate GoesOn(c: Cluster, k: Sending, k': Sending) {
    k'.node == k.node && k'.isIncrement == k.isIncrement && k'.value == k.value && k'.captured == k.captured &&
    (k.report.Some? ==> k'.report == k.report)
  }

  predicate UpdatesGoOn(c: Cluster, c': Cluster) {
    |c.updates| <= |c'.updates| && forall u :: 0 <= u < |c.updates| ==> GoesOn(c, c.updates[u], c'.updates[u])
  }

  lemma MessagesSurvive(c: Cluster, c': Cluster)
    requires Shaped(c') && Grows(c, c') && UpdatesGoOn(c, c') && MessagesHold(c)
    ensures forall m :: m in c.requests ==> RequestHolds(c', m)
    ensures forall a :: a in c.answers ==> AnswerHolds(c', a)
  {
    forall m | m in c.requests ensures RequestHolds(c', m) {
      assert RequestHolds(c, m) && GoesOn(c, c.updates[m.u], c'.updates[m.u]);
    }
    forall a | a in c.answers ensures AnswerHolds(c', a) {
      assert AnswerHolds(c, a) && GoesOn(c, c.updates[a.u], c'.updates[a.u]);
      assert NodeGrows(c.nodes[a.from], c'.nodes[a.from]);
    }
  }

  lemma UpdateSurvives(c: Cluster, c': Cluster, k: Sending)
    requires Shaped(c') && Grows(c, c') && UpdateHolds(c, k)
    ensures UpdateHolds(c', k)
  {
    assert NodeGrows(c.nodes[k.node], c'.nodes[k.node]);
  }

  lemma {:induction false} SumsUpdate(row: seq<PN>, k: nat, s: PN)
    requires k < |row|
    ensures SumInc(row[k := s]) == SumInc(row) - row[k].inc + s.inc
    ensures SumDec(row[k := s]) == SumDec(row) - row[k].dec + s.dec
  {
    var last := |row| - 1;
    assert row[k := s][..last] == if k < last then row[..last][k := s] else row[..last];
    if k == last {
    } else {
      SumsUpdate(row[..last], k, s);
    }
  }

  /** One node changes; what it counted itself stays. */
  lemma OneNodeGrows(c: Cluster, i: nat, nd: Node)
    requires NoOvercount(c) && i < |c.nodes| && NodeGrows(c.nodes[i], nd) && Bounded(nd, Column(c))
    requires View(nd, nd.stored, i) == Known(c, i, i)
    ensures var c' := c.(nodes := c.nodes[i := nd]);
            Grows(c, c') && NoOvercount(c') && Column(c') == Column(c)
  {
    var c' := c.(nodes := c.nodes[i := nd]);
    assert forall u :: 0 <= u < |c'.updates| ==> ShapedUpdate(c, c.updates[u]);
    assert Column(c') == Column(c);
    forall j | 0 <= j < |c.nodes| && j != i ensures NodeGrows(c.nodes[j], c'.nodes[j]) {
      assert Valid(c.nodes[j]);
    }
  }

  lemma SameNodes(c: Cluster, c': Cluster)
    requires NoOvercount(c) && c'.nodes == c.nodes && Shaped(c')
    ensures Grows(c, c') && NoOvercount(c') && Column(c') == Column(c)
  {
    assert Column(c') == Column(c);
    forall j | 0 <= j < |c.nodes| ensures NodeGrows(c.nodes[j], c'.nodes[j]) {
      assert Valid(c.nodes[j]);
    }
  }

  lemma UpdateKeepsInv(c: Cluster, s: Step)
    requires Inv(c) && Enabled(c, s) && s.Update?
    ensures Inv(Next(c, s)) && Grows(c, Next(c, s))
  {
    var c', i := Next(c, s), s.i;
    var own := Bump(Known(c, i, i), s.isIncrement);
    var column := Column(c)[i := own];
    BumpStep(c, i, own);
    assert Shaped(c') by {
      assert forall u :: 0 <= u < |c'.updates| ==> ShapedUpdate(c, c.updates[u]);
    }
    assert Column(c') == column;
    SumsUpdate(Column(c), i, own);
    AllHigher(c, c', i, column);
    AllSurvive(c, c');
  }

  lemma BumpStep(c: Cluster, i: nat, own: PN)
    requires NoOvercount(c) && i < |c.nodes| && Leq(Known(c, i, i), own)
    ensures var nd := c.nodes[i]; var nd' := AfterWrite(nd, nd.stored, i, own, true);
            NodeGrows(nd, nd') && Bounded(nd', Column(c)[i := own]) && View(nd', nd'.stored, i) == own
  {
    var nd, column := c.nodes[i], Column(c);
    assert Valid(nd) && Bounded(nd, column);
    HigherBound(nd, column, i, own);
    WriteStep(nd, nd.stored, i, own, true, column[i := own]);
    AfterWriteKnows(nd, nd.stored, i, own, true, i);
  }

  /** The other nodes stay as they are, under a higher bound. */
  lemma AllHigher(c: Cluster, c': Cluster, i: nat, column: seq<PN>)
    requires NoOvercount(c) && i < |c.nodes| == |c'.nodes| == |column| && Shaped(c')
    requires c'.nodes == c.nodes[i := c'.nodes[i]]
    requires column == Column(c)[i := column[i]] && Leq(Column(c)[i], column[i]) && column == Column(c')
    requires NodeGrows(c.nodes[i], c'.nodes[i]) && Bounded(c'.nodes[i], column)
    ensures NoOvercount(c') && Grows(c, c')
  {
    forall j | 0 <= j < |c.nodes| ensures NodeGrows(c.nodes[j], c'.nodes[j]) && Bounded(c'.nodes[j], column) {
      if j != i {
        assert Valid(c.nodes[j]);
        HigherBound(c.nodes[j], Column(c), i, column[i]);
      }
    }
  }

  lemma HigherBound(nd: Node, own: seq<PN>, i: nat, more: PN)
    requires Bounded(nd, own) && i < |own| && Leq(own[i], more)
    ensures Bounded(nd, own[i := more])
  {}

  /** Nothing but the nodes changed. */
  lemma AllSurvive(c: Cluster, c': Cluster)
    requires Inv(c) && Shaped(c') && Grows(c, c')
    requires c'.updates == c.updates && c'.requests == c.requests && c'.answers == c.answers
    ensures UpdatesHold(c') && MessagesHold(c')
  {
    forall u | 0 <= u < |c'.updates| ensures UpdateHolds(c', c'.updates[u]) {
      UpdateSurvives(c, c', c.updates[u]);
    }
    MessagesSurvive(c, c');
  }

  /** Only updates and messages changed, and the new ones hold. */
  lemma OnlyMessagesDiffer(c: Cluster, c': Cluster)
    requires Inv(c) && c'.nodes == c.nodes && c'.incs == c.incs && c'.decs == c.decs && UpdatesGoOn(c, c')
    requires forall u :: 0 <= u < |c'.updates| ==> UpdateHolds(c, c'.updates[u])
    requires forall m :: m in c'.requests && m !in c.requests ==> RequestHolds(c', m)
    requires forall a :: a in c'.answers && a !in c.answers ==> AnswerHolds(c', a)
    ensures Inv(c') && Grows(c, c')
  {
    assert Shaped(c') by {
      assert forall u :: 0 <= u < |c'.updates| ==> UpdateHolds(c, c'.updates[u]);
      StillShaped(c, c');
    }
    SameNodes(c, c');
    forall u | 0 <= u < |c'.updates| ensures UpdateHolds(c', c'.updates[u]) {
      UpdateSurvives(c, c', c'.updates[u]);
    }
    MessagesSurvive(c, c');
  }

  lemma CaptureKeepsInv(c: Cluster, s: Step)
    requires Inv(c) && Enabled(c, s) && s.Capture?
    ensures Inv(Next(c, s)) && Grows(c, Next(c, s))
  {
    var k := Sending(s.i, s.isIncrement, s.value, c.nodes[s.i].stored, c.nodes[s.i].stored, None);
    assert UpdateHolds(c, k);
    OnlyMessagesDiffer(c, Next(c, s));
  }

  lemma ReplicateKeepsInv(c: Cluster, s: Step)
    requires Inv(c) && Enabled(c, s) && s.Replicate?
    ensures Inv(Next(c, s)) && Grows(c, Next(c, s))
  {
    var c', k := Next(c, s), c.updates[s.u];
    var nd := c.nodes[k.node];
    assert UpdateHolds(c, k) && Valid(nd) && Bounded(nd, Column(c));
    TouchStep(nd, s.j, Column(c));
    var c1 := c.(nodes := c'.nodes);
    if c1.nodes == c.nodes {
      SameNodes(c, c1);
    } else {
      OneNodeGrows(c, k.node, Touch(nd, s.j));
    }
    AllSurvive(c, c1);
    ReportingHolds(c, s.u, s.j);
    UpdateSurvives(c, c1, c'.updates[s.u]);
    ReportKeepsInv(c1, s.u, c'.updates[s.u], s.j);
  }

  /** The first request reports what the captured arrays hold. */
  lemma ReportingHolds(c: Cluster, u: nat, j: nat)
    requires Inv(c) && u < |c.updates| && j < |c.nodes| && j != c.updates[u].node
    ensures var k := c.updates[u];
            ShapedUpdate(c, k) && UpdateHolds(c, Reporting(k, c.nodes[k.node], j))
  {
    var k := c.updates[u];
    assert UpdateHolds(c, k) && Valid(c.nodes[k.node]) && Bounded(c.nodes[k.node], Column(c));
  }

  /** An update reports what its arrays hold, once, and another request is on its way. */
  lemma ReportKeepsInv(c: Cluster, u: nat, k: Sending, j: nat)
    requires Inv(c) && u < |c.updates| && GoesOn(c, c.updates[u], k)
    requires UpdateHolds(c, k) && k.report.Some? && j < |c.nodes| && j != k.node
    ensures Inv(c.(updates := c.updates[u := k], requests := c.requests + {Sent(u, j, RequestOf(k))}))
  {
    var c' := c.(updates := c.updates[u := k], requests := c.requests + {Sent(u, j, RequestOf(k))});
    assert forall v :: 0 <= v < |c.updates| ==> UpdateHolds(c, c.updates[v]);
    StillShaped(c, c');
    OnlyMessagesDiffer(c, c');
  }

  lemma RequestKeepsInv(c: Cluster, s: Step)
    requires Inv(c) && Enabled(c, s) && s.HandleRequest?
    ensures Inv(Next(c, s)) && Grows(c, Next(c, s))
  {
    var c', m := Next(c, s), s.m;
    var i, from, nd := m.to, c.updates[m.u].node, c.nodes[m.to];
    assert RequestHolds(c, m) && UpdateHolds(c, c.updates[m.u]) && Valid(nd) && Bounded(nd, Column(c));
    MergeStep(nd, m.request, i, Column(c));
    var c1 := c.(nodes := c'.nodes);
    OneNodeGrows(c, i, c'.nodes[i]);
    AllSurvive(c, c1);
    var nd' := c'.nodes[i];
    AnswerKeepsHolding(c1, Answered(m.u, i, Answer(View(nd', nd'.stored, i), m.request), View(nd', nd'.stored, i)));
  }

  lemma StillShaped(c: Cluster, c': Cluster)
    requires Shaped(c) && c'.nodes == c.nodes
    requires forall u :: 0 <= u < |c'.updates| ==> ShapedUpdate(c, c'.updates[u])
    ensures Shaped(c')
  {
    forall u | 0 <= u < |c'.updates| ensures ShapedUpdate(c', c'.updates[u]) {
      assert ShapedUpdate(c, c'.updates[u]);
    }
  }

  lemma AnswerStillHolds(c: Cluster, c': Cluster, a: Answered)
    requires AnswerHolds(c, a) && c'.nodes == c.nodes && c'.updates == c.updates
    ensures AnswerHolds(c', a)
  {
    StillShaped(c, c');
  }

  lemma AnswerKeepsHolding(c: Cluster, a: Answered)
    requires Inv(c) && AnswerHolds(c, a)
    ensures Inv(c.(answers := c.answers + {a}))
  {
    var c' := c.(answers := c.answers + {a});
    AnswerStillHolds(c, c', a);
    assert UpdatesGoOn(c, c');
    assert forall u :: 0 <= u < |c'.updates| ==> UpdateHolds(c, c'.updates[u]);
    OnlyMessagesDiffer(c, c');
  }

  /** The node merges a request of another node, which leaves its own count alone, and finds its own slot. */
  lemma MergeStep(nd: Node, r: Request, i: nat, own: seq<PN>)
    requires Valid(nd) && Bounded(nd, own) && i < |own| && r.otherNodeId < |own| && i != r.otherNodeId
    requires 0 < r.newValue <= if r.isIncrement then own[r.otherNodeId].inc else own[r.otherNodeId].dec
    ensures var nd' := Touch(Merging(nd, r), i);
            NodeGrows(nd, nd') && Bounded(nd', own) && View(nd', nd'.stored, i) == View(nd, nd.stored, i)
  {
    var j := r.otherNodeId;
    var value := Merge(View(nd, nd.stored, j), r.isIncrement, r.newValue);
    var nd1 := Merging(nd, r);
    assert Leq(PN(0, 0), View(nd, nd.stored, j)) && Leq(View(nd, nd.stored, j), own[j]);
    WriteStep(nd, nd.stored, j, value, true, own);
    AfterWriteKnows(nd, nd.stored, j, value, true, i);
    TouchStep(nd1, i, own);
  }

  lemma AnswerKeepsInv(c: Cluster, s: Step)
    requires Inv(c) && Enabled(c, s) && s.HandleAnswer?
    ensures Inv(Next(c, s)) && Grows(c, Next(c, s))
  {
    var c', a := Next(c, s), s.a;
    var k := c.updates[a.u];
    var i, nd := k.node, c.nodes[k.node];
    assert AnswerHolds(c, a) && UpdateHolds(c, k) && Valid(nd) && Bounded(nd, Column(c));
    if !Tells(a.response) {
      SameNodes(c, c');
    } else {
      CopyWritten(c, a);
      var c1 := c.(nodes := c'.nodes);
      OneNodeGrows(c, i, c'.nodes[i]);
      AllSurvive(c, c1);
      CopyMoves(c1, a.u, nd, a.from);
      CopyKeepsInv(c1, a.u, c'.updates[a.u]);
    }
  }

  /** A copy that needs room moves to new arrays, larger than the ones it had. */
  lemma CopyMoves(c: Cluster, u: nat, was: Node, j: nat)
    requires Inv(c) && u < |c.updates| && ShapedUpdate(c, c.updates[u])
    requires var k := c.updates[u]; var nd := c.nodes[k.node];
             k.answered < |was.arrays| && was.stored == nd.stored < |was.arrays| &&
             (!Fits(was, k.answered, j) ==>
                |nd.arrays| == |was.arrays| + 1 && |nd.arrays[|was.arrays|]| > |nd.arrays[k.answered]|)
    ensures UpdateHolds(c, c.updates[u].(answered := Target(was, c.updates[u].answered, j)))
  {
    assert UpdateHolds(c, c.updates[u]);
  }

  lemma CopyWritten(c: Cluster, a: Answered)
    requires Inv(c) && Enabled(c, HandleAnswer(a)) && Tells(a.response)
    ensures var k := c.updates[a.u]; var nd := c.nodes[k.node];
            var nd' := AfterWrite(nd, k.answered, a.from, Synced(View(nd, k.answered, a.from), a.response), false);
            NodeGrows(nd, nd') && Bounded(nd', Column(c)) && View(nd', nd'.stored, k.node) == Known(c, k.node, k.node)
  {
    var k := c.updates[a.u];
    var nd := c.nodes[k.node];
    assert AnswerHolds(c, a) && UpdateHolds(c, k) && Valid(nd) && Bounded(nd, Column(c));
    var value := Synced(View(nd, k.answered, a.from), a.response);
    SyncedBetween(View(nd, k.answered, a.from), a.response, a.at, Known(c, a.from, a.from));
    WriteStep(nd, k.answered, a.from, value, false, Column(c));
    AfterWriteKnows(nd, k.answered, a.from, value, false, k.node);
  }

  /** What an answer makes of a view lies between the view and the answering node's count. */
  lemma SyncedBetween(was: PN, r: Response, at: PN, own: PN)
    requires Leq(PN(0, 0), was) && Leq(was, own) && Leq(at, own)
    requires (r.incToSync == 0 || r.incToSync == at.inc) && (r.decToSync == 0 || r.decToSync == at.dec)
    ensures Leq(was, Synced(was, r)) && Leq(Synced(was, r), own)
  {}

  /** The copy of an update keeps its arrays or moves to new ones, which are not the stored ones. */
  lemma CopyKeepsInv(c: Cluster, u: nat, k: Sending)
    requires Inv(c) && u < |c.updates| && k == c.updates[u].(answered := k.answered) && UpdateHolds(c, k)
    ensures Inv(c.(updates := c.updates[u := k]))
  {
    var c' := c.(updates := c.updates[u := k]);
    assert forall v :: 0 <= v < |c.updates| ==> UpdateHolds(c, c.updates[v]);
    OnlyMessagesDiffer(c, c');
  }

  lemma NextKeepsInv(c: Cluster, s: Step)
    requires Inv(c) && Enabled(c, s)
    ensures Inv(Next(c, s)) && Grows(c, Next(c, s))
  {
    match s {
      case Update(_, _) => UpdateKeepsInv(c, s);
      case Capture(_, _, _) => CaptureKeepsInv(c, s);
      case Replicate(_, _) => ReplicateKeepsInv(c, s);
      case HandleRequest(_) => RequestKeepsInv(c, s);
      case HandleAnswer(_) => AnswerKeepsInv(c, s);
    }
  }

  lemma {:induction false} SumsOfZeros(row: seq<PN>)
    requires forall j :: 0 <= j < |row| ==> row[j] == PN(0, 0)
    ensures SumInc(row) == 0 && SumDec(row) == 0
  {
    if row == [] {
    } else {
      SumsOfZeros(row[..|row| - 1]);
    }
  }

  lemma InitInv(c: Cluster)
    requires Init(c)
    ensures Inv(c)
  {
    assert Shaped(c);
    forall i | 0 <= i < |c.nodes| ensures Valid(c.nodes[i]) && Known(c, i, i) == PN(0, 0) {
      assert Fresh(c.nodes[i]);
    }
    SumsOfZeros(Column(c));
    forall i | 0 <= i < |c.nodes| ensures Bounded(c.nodes[i], Column(c)) {
      assert Fresh(c.nodes[i]);
    }
  }

  lemma {:induction false} RunKeepsInv(states: seq<Cluster>, steps: seq<Step>, i: nat)
    requires IsRun(states, steps) && i < |states|
    ensures Inv(states[i])
  {
    if i == 0 {
      InitInv(states[0]);
    } else {
      RunKeepsInv(states, steps, i - 1);
      assert states[i] == Next(states[i - 1], steps[i - 1]);
      NextKeepsInv(states[i - 1], steps[i - 1]);
    }
  }

  // ---------------------------------------------------------------- results

  lemma GrowsOn(c: Cluster, d: Cluster, e: Cluster)
    requires Grows(c, d) && Grows(d, e)
    ensures Grows(c, e)
  {
    forall i | 0 <= i < |c.nodes| ensures NodeGrows(c.nodes[i], e.nodes[i]) {
      assert NodeGrows(c.nodes[i], d.nodes[i]) && NodeGrows(d.nodes[i], e.nodes[i]);
    }
  }

  lemma StepGrows(states: seq<Cluster>, steps: seq<Step>, i: nat)
    requires IsRun(states, steps) && i < |steps|
    ensures Grows(states[i], states[i + 1])
  {
    RunKeepsInv(states, steps, i);
    assert states[i + 1] == Next(states[i], steps[i]);
    NextKeepsInv(states[i], steps[i]);
  }

  lemma {:induction false} GrowsAlong(states: seq<Cluster>, steps: seq<Step>, i: nat, j: nat)
    requires IsRun(states, steps) && i <= j < |states|
    ensures Grows(states[i], states[j])
    decreases j
  {
    if i == j {
      RunKeepsInv(states, steps, i);
      SameNodes(states[i], states[j]);
    } else {
      GrowsAlong(states, steps, i, j - 1);
      StepGrows(states, steps, j - 1);
      GrowsOn(states[i], states[j - 1], states[j]);
    }
  }

  /** No arrays ever hold more of a node than the node's own count, and what they and the stored counter hold only
      grows. */
  lemma ViewsGrow(states: seq<Cluster>, steps: seq<Step>, i: nat, j: nat)
    requires IsRun(states, steps) && i <= j < |states|
    ensures Grows(states[i], states[j]) && NoOvercount(states[j])
  {
    GrowsAlong(states, steps, i, j);
    RunKeepsInv(states, steps, j);
  }

  /** The copy an answer is applied to still holds the stored arrays, and the answering node's slot lies within. */
  predicate Reaches(c: Cluster, a: Answered)
    requires Shaped(c) && a.u < |c.updates|
  {
    var k := c.updates[a.u];
    k.answered == c.nodes[k.node].stored && Fits(c.nodes[k.node], k.answered, a.from)
  }

  /** What a delivered answer, however late, does to the requester's stored counter: it brings the increments up to the
      answering node's at the time of the answer exactly when it reaches the counter and the request reported fewer, or
      they were known before; and the decrements likewise, by what the receiver took for the reported decrements. */
  lemma AnswerCatchesUp(states: seq<Cluster>, steps: seq<Step>, i: nat)
    requires IsRun(states, steps) && i < |steps| && steps[i].HandleAnswer?
    ensures var c, c', a := states[i], states[i + 1], steps[i].a;
            Shaped(c) && Shaped(c') && a.u < |c.updates| && c.updates[a.u].report.Some? &&
            c.updates[a.u].node < |c'.nodes| &&
            var was := Known(c, c.updates[a.u].node, a.from); var now := Known(c', c.updates[a.u].node, a.from);
            var told := Received(c.updates[a.u].report.value.seen);
            (now.inc >= a.at.inc <==> was.inc >= a.at.inc || (Reaches(c, a) && told.inc < a.at.inc)) &&
            (now.dec >= a.at.dec <==> was.dec >= a.at.dec || (Reaches(c, a) && told.dec < a.at.dec))
  {
    RunKeepsInv(states, steps, i);
    var c, a := states[i], steps[i].a;
    assert Enabled(c, steps[i]) && AnswerHolds(c, a) && states[i + 1] == Next(c, steps[i]);
    KnownAfterAnswer(c, a, a.from);
  }

  lemma ShapedAfterAnswer(c: Cluster, a: Answered)
    requires Enabled(c, HandleAnswer(a))
    ensures Shaped(Next(c, HandleAnswer(a)))
  {
    var c', k := Next(c, HandleAnswer(a)), c.updates[a.u];
    assert |c.nodes[k.node].arrays| <= |c'.nodes[k.node].arrays|;
    forall u | 0 <= u < |c'.updates| ensures ShapedUpdate(c', c'.updates[u]) {
      assert ShapedUpdate(c, c.updates[u]);
    }
  }

  lemma KnownAfterAnswer(c: Cluster, a: Answered, n: nat)
    requires Inv(c) && Enabled(c, HandleAnswer(a))
    ensures var c' := Next(c, HandleAnswer(a)); var i := c.updates[a.u].node; var was := Known(c, i, n);
            Shaped(c') && i < |c'.nodes| &&
            Known(c', i, n) == if n == a.from && Reaches(c, a) then Synced(was, a.response) else was
  {
    var k := c.updates[a.u];
    var nd := c.nodes[k.node];
    assert UpdateHolds(c, k) && Valid(nd);
    ShapedAfterAnswer(c, a);
    AfterWriteKnows(nd, k.answered, a.from, Synced(View(nd, k.answered, a.from), a.response), false, n);
  }

  /** An answer changes nothing else: of other nodes the requester's stored counter knows what it knew, and so does every
      other node; of the answering node it never comes to know more than the greater of what it knew and what it was told. */
  lemma AnswerOnlyTells(states: seq<Cluster>, steps: seq<Step>, i: nat)
    requires IsRun(states, steps) && i < |steps| && steps[i].HandleAnswer?
    ensures var c, c', a := states[i], states[i + 1], steps[i].a;
            Shaped(c) && Shaped(c') && a.u < |c.updates| && |c'.nodes| == |c.nodes| && c.updates[a.u].node < |c.nodes| &&
            var p := c.updates[a.u].node;
            && (forall n: nat :: n != a.from ==> Known(c', p, n) == Known(c, p, n))
            && (forall x :: 0 <= x < |c.nodes| && x != p ==> c'.nodes[x] == c.nodes[x])
            && var was, now := Known(c, p, a.from), Known(c', p, a.from);
               (now.inc == was.inc || now.inc == a.at.inc) && (now.dec == was.dec || now.dec == a.at.dec)
  {
    RunKeepsInv(states, steps, i);
    var c, a := states[i], steps[i].a;
    assert Enabled(c, steps[i]) && AnswerHolds(c, a) && states[i + 1] == Next(c, steps[i]);
    KnownAfterAnswer(c, a, a.from);
    forall n: nat | n != a.from ensures Known(states[i + 1], c.updates[a.u].node, n) == Known(c, c.updates[a.u].node, n) {
      KnownAfterAnswer(c, a, n);
    }
  }

  /** What a copy knows of a node. */
  function CopyKnows(c: Cluster, u: nat, n: nat): PN
    requires Shaped(c) && u < |c.updates|
  {
    assert ShapedUpdate(c, c.updates[u]);
    View(c.nodes[c.updates[u].node], c.updates[u].answered, n)
  }

  lemma CopyAfterAnswer(c: Cluster, a: Answered, n: nat)
    requires Inv(c) && Enabled(c, HandleAnswer(a))
    ensures var c' := Next(c, HandleAnswer(a)); var was := CopyKnows(c, a.u, n);
            Shaped(c') && |c'.updates| == |c.updates| &&
            CopyKnows(c', a.u, n) == if n == a.from && Tells(a.response) then Synced(was, a.response) else was
  {
    var k := c.updates[a.u];
    var nd := c.nodes[k.node];
    assert UpdateHolds(c, k) && Valid(nd);
    ShapedAfterAnswer(c, a);
    WriteViews(nd, k.answered, a.from, Synced(View(nd, k.answered, a.from), a.response), Target(nd, k.answered, a.from), n);
  }

  /** The copy an answer is applied to always learns it, at every point of every run, resized or not: of the answering
      node it knows the greater of what it knew and what it is told, and of others what it knew. */
  lemma CopyIsTold(states: seq<Cluster>, steps: seq<Step>, i: nat)
    requires IsRun(states, steps) && i < |steps| && steps[i].HandleAnswer?
    ensures var c, c', a := states[i], states[i + 1], steps[i].a;
            Shaped(c) && Shaped(c') && a.u < |c.updates| == |c'.updates| &&
            c'.requests == c.requests && c'.answers == c.answers && c'.incs == c.incs && c'.decs == c.decs &&
            var was, now, told := CopyKnows(c, a.u, a.from), CopyKnows(c', a.u, a.from), a.response;
            && was.inc <= now.inc && told.incToSync <= now.inc && (now.inc == was.inc || now.inc == told.incToSync)
            && was.dec <= now.dec && told.decToSync <= now.dec && (now.dec == was.dec || now.dec == told.decToSync)
            && forall n: nat :: n != a.from ==> CopyKnows(c', a.u, n) == CopyKnows(c, a.u, n)
  {
    RunKeepsInv(states, steps, i);
    var c, a := states[i], steps[i].a;
    assert Enabled(c, steps[i]) && states[i + 1] == Next(c, steps[i]);
    CopyAfterAnswer(c, a, a.from);
    forall n: nat | n != a.from ensures CopyKnows(states[i + 1], a.u, n) == CopyKnows(c, a.u, n) {
      CopyAfterAnswer(c, a, n);
    }
  }

  /** An answer that reaches the counter, to a request that reported what was seen of the answering node itself, always
      brings the increments up to date, and the decrements too unless the reported increments hide them. */
  lemma FirstAskedCatchesUp(states: seq<Cluster>, steps: seq<Step>, i: nat)
    requires IsRun(states, steps) && i < |steps| && steps[i].HandleAnswer?
    requires var c, a := states[i], steps[i].a;
             Shaped(c) && a.u < |c.updates| && Reaches(c, a) &&
             c.updates[a.u].report.Some? && c.updates[a.u].report.value.of == a.from
    ensures var c, c', a := states[i], states[i + 1], steps[i].a;
            Shaped(c') && c.updates[a.u].node < |c'.nodes| &&
            var now := Known(c', c.updates[a.u].node, a.from);
            now.inc >= a.at.inc && (Unhidden(c.updates[a.u].report.value.seen) ==> now.dec >= a.at.dec)
  {
    AnswerCatchesUp(states, steps, i);
    RunKeepsInv(states, steps, i);
    var c, a := states[i], steps[i].a;
    assert UpdateHolds(c, c.updates[a.u]);
    if Unhidden(c.updates[a.u].report.value.seen) {
      UnhiddenReceived(c.updates[a.u].report.value.seen);
    }
  }

  /** An update keeps what it was sent out with: the arrays the stored counter held when it took its copy. */
  lemma {:induction false} CapturedStays(states: seq<Cluster>, steps: seq<Step>, i: nat, j: nat)
    requires IsRun(states, steps) && i < j < |states| && steps[i].Capture?
    ensures var u, s := |states[i].updates|, steps[i];
            u < |states[j].updates| && s.i < |states[i].nodes| &&
            var k := states[j].updates[u];
            k.node == s.i && k.isIncrement == s.isIncrement && k.value == s.value &&
            k.captured == states[i].nodes[s.i].stored
  {
    if j == i + 1 {
      JustCaptured(states, steps, i);
    } else {
      CapturedStays(states, steps, i, j - 1);
      UpdateStays(states, steps, j - 1, |states[i].updates|);
    }
  }

  lemma JustCaptured(states: seq<Cluster>, steps: seq<Step>, i: nat)
    requires IsRun(states, steps) && i < |steps| && steps[i].Capture?
    ensures var u, s := |states[i].updates|, steps[i];
            |states[i + 1].updates| == u + 1 && s.i < |states[i].nodes| &&
            var k := states[i + 1].updates[u];
            k.node == s.i && k.isIncrement == s.isIncrement && k.value == s.value &&
            k.captured == states[i].nodes[s.i].stored
  {
    assert Enabled(states[i], steps[i]) && states[i + 1] == Next(states[i], steps[i]);
  }

  lemma UpdateStays(states: seq<Cluster>, steps: seq<Step>, i: nat, u: nat)
    requires IsRun(states, steps) && i < |steps| && u < |states[i].updates|
    ensures u < |states[i + 1].updates| && GoesOn(states[i], states[i].updates[u], states[i + 1].updates[u])
  {
    assert Enabled(states[i], steps[i]) && states[i + 1] == Next(states[i], steps[i]);
  }

  /** The copy an update took along at step `i` still holds the stored arrays, later, exactly when neither the stored
      counter nor the copy has been resized since. */
  lemma HoldsStoredExactly(states: seq<Cluster>, steps: seq<Step>, i: nat, j: nat)
    requires IsRun(states, steps) && i < j < |states| && steps[i].Capture?
    ensures var c, u := states[j], |states[i].updates|;
            Shaped(states[i]) && Shaped(c) && u < |c.updates| && c.updates[u].node == steps[i].i < |states[i].nodes| &&
            var k, nd, then' := c.updates[u], c.nodes[steps[i].i], states[i].nodes[steps[i].i];
            var size := |then'.arrays[then'.stored]|;
            k.answered == nd.stored <==> |nd.arrays[nd.stored]| == size && |nd.arrays[k.answered]| == size
  {
    RunKeepsInv(states, steps, i);
    RunKeepsInv(states, steps, j);
    CapturedStays(states, steps, i, j);
    GrowsAlong(states, steps, i, j);
    assert Enabled(states[i], steps[i]);
    assert UpdateHolds(states[j], states[j].updates[|states[i].updates|]);
    assert NodeGrows(states[i].nodes[steps[i].i], states[j].nodes[steps[i].i]);
  }

  // ---- what a request teaches ----

  lemma KnownAfterRequest(c: Cluster, m: Sent, n: nat)
    requires Inv(c) && Enabled(c, HandleRequest(m))
    ensures var c' := Next(c, HandleRequest(m)); var r := m.request; var was := Known(c, m.to, n);
            Shaped(c') && m.to < |c'.nodes| && r.otherNodeId < |c.nodes| && r.otherNodeId != m.to &&
            Known(c', m.to, n) == if n == r.otherNodeId then Merge(was, r.isIncrement, r.newValue) else was
  {
    assert RequestHolds(c, m) && UpdateHolds(c, c.updates[m.u]);
    assert Shaped(Next(c, HandleRequest(m))) by { NextKeepsInv(c, HandleRequest(m)); }
    var nd, r := c.nodes[m.to], m.request;
    assert Valid(nd);
    var value := Merge(View(nd, nd.stored, r.otherNodeId), r.isIncrement, r.newValue);
    AfterWriteKnows(nd, nd.stored, r.otherNodeId, value, true, n);
    assert Valid(Merging(nd, r)) by { WriteValid(nd, nd.stored, r.otherNodeId, value); }
    TouchKeeps(Merging(nd, r), m.to);
  }

  /** Of the sender of a request the receiver then knows the greater of the count it carries and what it knew, of the
      other kind what it knew, and of every other node what it knew. */
  ghost predicate Taught(c: Cluster, c': Cluster, m: Sent) {
    Shaped(c) && Shaped(c') && m.to < |c.nodes| == |c'.nodes| &&
    var r, was, now := m.request, Known(c, m.to, m.request.otherNodeId), Known(c', m.to, m.request.otherNodeId);
    && (r.isIncrement ==> now.dec == was.dec && now.inc == if was.inc < r.newValue then r.newValue else was.inc)
    && (!r.isIncrement ==> now.inc == was.inc && now.dec == if was.dec < r.newValue then r.newValue else was.dec)
    && (forall n: nat :: n != r.otherNodeId ==> Known(c', m.to, n) == Known(c, m.to, n))
    && (forall x :: 0 <= x < |c.nodes| && x != m.to ==> c'.nodes[x] == c.nodes[x])
  }

  lemma Teaches(c: Cluster, m: Sent)
    requires Inv(c) && Enabled(c, HandleRequest(m))
    ensures Taught(c, Next(c, HandleRequest(m)), m)
  {
    KnownAfterRequest(c, m, m.request.otherNodeId);
    forall n: nat | n != m.request.otherNodeId ensures Known(Next(c, HandleRequest(m)), m.to, n) == Known(c, m.to, n) {
      KnownAfterRequest(c, m, n);
    }
  }

  /** A delivered request teaches the receiver the count it carries, at every point of every run, and is answered with
      the receiver's own counts where it reported fewer. */
  lemma RequestTeaches(states: seq<Cluster>, steps: seq<Step>, i: nat)
    requires IsRun(states, steps) && i < |steps| && steps[i].HandleRequest?
    ensures Taught(states[i], states[i + 1], steps[i].m)
    ensures var c, c', m := states[i], states[i + 1], steps[i].m;
            c'.updates == c.updates && c'.requests == c.requests &&
            m.u < |c.updates| && m.request.otherNodeId == c.updates[m.u].node &&
            var r, own := m.request, Known(c, m.to, m.to);
            c'.answers == c.answers + {Answered(m.u, m.to, Response(if r.lastSeenInc < own.inc then own.inc else 0,
                                                                    if r.lastSeenDec < own.dec then own.dec else 0), own)}
  {
    RunKeepsInv(states, steps, i);
    var c, m := states[i], steps[i].m;
    assert Enabled(c, steps[i]) && states[i + 1] == Next(c, steps[i]) && RequestHolds(c, m);
    Teaches(c, m);
    KnownAfterRequest(c, m, m.to);
  }

  // ---- counting ----

  /** What node i answers when asked for the counter: the sums of its arrays. */
  function CountAt(c: Cluster, i: nat): int
    requires Shaped(c) && i < |c.nodes|
  {
    SumInc(Stored(c, i)) - SumDec(Stored(c, i))
  }

  function Stored(c: Cluster, i: nat): seq<PN>
    requires Shaped(c) && i < |c.nodes|
  {
    c.nodes[i].arrays[c.nodes[i].stored]
  }

  /** Node n knows of every node as much as that node itself. */
  predicate CaughtUp(c: Cluster, n: nat)
    requires Shaped(c) && n < |c.nodes|
  {
    forall j :: 0 <= j < |c.nodes| ==> Known(c, n, j) == Known(c, j, j)
  }

  /** What the first `k` slots of arrays say of each of `n` nodes. */
  function RowUpTo(order: seq<nat>, rows: seq<PN>, n: nat, k: nat): seq<PN> {
    seq(n, j requires 0 <= j < n => if Slot(order, j) < k then At(rows, Slot(order, j)) else PN(0, 0))
  }

  predicate Dense(order: seq<nat>, rows: seq<PN>, n: nat) {
    (forall s, t :: 0 <= s < t < |order| ==> order[s] != order[t]) &&
    (forall s :: 0 <= s < |order| ==> order[s] < n) &&
    forall s :: |order| <= s < |rows| ==> rows[s] == PN(0, 0)
  }

  /** One more slot adds what it holds to its node. */
  lemma RowStep(order: seq<nat>, rows: seq<PN>, n: nat, k: nat)
    requires Dense(order, rows, n)
    ensures var before, row := RowUpTo(order, rows, n, k), RowUpTo(order, rows, n, k + 1);
            if k < |order| then before[order[k]] == PN(0, 0) && row == before[order[k] := At(rows, k)] else row == before
  {
    var before, row := RowUpTo(order, rows, n, k), RowUpTo(order, rows, n, k + 1);
    if k < |order| {
      assert Slot(order, order[k]) == k;
      forall j | 0 <= j < n ensures row[j] == before[order[k] := At(rows, k)][j] {
        assert Slot(order, j) == k ==> order[k] == j;
      }
    } else {
      forall j | 0 <= j < n ensures row[j] == before[j] {
        assert Slot(order, j) == k ==> At(rows, k) == PN(0, 0);
      }
    }
  }

  lemma SlotStep(rows: seq<PN>, k: nat)
    ensures SumInc(rows[..Min(k + 1, |rows|)]) == SumInc(rows[..Min(k, |rows|)]) + At(rows, k).inc
    ensures SumDec(rows[..Min(k + 1, |rows|)]) == SumDec(rows[..Min(k, |rows|)]) + At(rows, k).dec
  {
    if k < |rows| {
      assert rows[..k + 1][..k] == rows[..k];
    }
  }

  /** Slot by slot or node by node, the sums are the same. */
  lemma {:induction false} SlotsAddUp(order: seq<nat>, rows: seq<PN>, n: nat, k: nat)
    requires Dense(order, rows, n)
    ensures SumInc(rows[..Min(k, |rows|)]) == SumInc(RowUpTo(order, rows, n, k))
    ensures SumDec(rows[..Min(k, |rows|)]) == SumDec(RowUpTo(order, rows, n, k))
  {
    if k == 0 {
      SumsOfZeros(RowUpTo(order, rows, n, 0));
    } else {
      SlotsAddUp(order, rows, n, k - 1);
      SlotStep(rows, k - 1);
      NodeStep(order, rows, n, k - 1);
    }
  }

  lemma NodeStep(order: seq<nat>, rows: seq<PN>, n: nat, k: nat)
    requires Dense(order, rows, n)
    ensures SumInc(RowUpTo(order, rows, n, k + 1)) == SumInc(RowUpTo(order, rows, n, k)) + At(rows, k).inc
    ensures SumDec(RowUpTo(order, rows, n, k + 1)) == SumDec(RowUpTo(order, rows, n, k)) + At(rows, k).dec
  {
    RowStep(order, rows, n, k);
    if k < |order| {
      SumsUpdate(RowUpTo(order, rows, n, k), order[k], At(rows, k));
    }
  }

  /** What a node's stored counter knows of each node. */
  function Row(c: Cluster, n: nat): seq<PN>
    requires Shaped(c) && n < |c.nodes|
  {
    seq(|c.nodes|, j requires 0 <= j < |c.nodes| => Known(c, n, j))
  }

  lemma CountsByNode(c: Cluster, n: nat)
    requires NoOvercount(c) && n < |c.nodes|
    ensures SumInc(Stored(c, n)) == SumInc(Row(c, n)) && SumDec(Stored(c, n)) == SumDec(Row(c, n))
  {
    var nd, rows := c.nodes[n], Stored(c, n);
    assert Valid(nd) && Bounded(nd, Column(c));
    forall s | |nd.order| <= s < |rows| ensures rows[s] == PN(0, 0) {
      assert At(nd.arrays[nd.stored], s) == PN(0, 0);
    }
    var k := |rows| + |nd.order| + 1;
    SlotsAddUp(nd.order, rows, |c.nodes|, k);
    assert rows[..|rows|] == rows;
    assert RowUpTo(nd.order, rows, |c.nodes|, k) == Row(c, n);
  }

  lemma {:induction false} RowBelow(row: seq<PN>, top: seq<PN>)
    requires |row| == |top| && forall j :: 0 <= j < |row| ==> Leq(row[j], top[j])
    ensures SumInc(row) <= SumInc(top) && SumDec(row) <= SumDec(top)
    ensures SumInc(row) == SumInc(top) && SumDec(row) == SumDec(top) ==> row == top
  {
    if row == [] {
    } else {
      var n := |row| - 1;
      RowBelow(row[..n], top[..n]);
      assert Leq(row[n], top[n]);
      assert row == row[..n] + [row[n]] && top == top[..n] + [top[n]];
    }
  }

  /** At every point of every run a node counts no update that did not happen, and it counts them all exactly when it
      has caught up with every node; then it answers total increments less total decrements. */
  lemma CountIsExactWhenCaughtUp(states: seq<Cluster>, steps: seq<Step>, i: nat, n: nat)
    requires IsRun(states, steps) && i < |states| && n < |states[i].nodes|
    ensures Inv(states[i])
    ensures SumInc(Stored(states[i], n)) <= states[i].incs && SumDec(Stored(states[i], n)) <= states[i].decs
    ensures CaughtUp(states[i], n) <==>
              SumInc(Stored(states[i], n)) == states[i].incs && SumDec(Stored(states[i], n)) == states[i].decs
    ensures CaughtUp(states[i], n) ==> CountAt(states[i], n) == states[i].incs - states[i].decs
  {
    RunKeepsInv(states, steps, i);
    var c := states[i];
    var own, row := Column(c), Row(c, n);
    CountsByNode(c, n);
    assert Bounded(c.nodes[n], own);
    RowBelow(row, own);
    if CaughtUp(c, n) {
      assert row == own;
    }
    if row == own {
      forall j | 0 <= j < |c.nodes| ensures Known(c, n, j) == Known(c, j, j) {
        assert row[j] == own[j];
      }
    }
  }

  // ---- room for the own slot ----

  /** All arrays have two slots or more, and the node's own slot, once any is given out, is one of the first two. */
  predicate Roomy(nd: Node, i: nat) {
    (forall g :: 0 <= g < |nd.arrays| ==> |nd.arrays[g]| >= 2) && (nd.order == [] || Settled(nd, i))
  }

  predicate Settled(nd: Node, i: nat) {
    i in nd.order && Slot(nd.order, i) <= 1
  }

  predicate AllRoomy(c: Cluster) {
    forall i :: 0 <= i < |c.nodes| ==> Roomy(c.nodes[i], i)
  }

  lemma WriteRoomy(nd: Node, g: nat, j: nat, value: PN, throughStored: bool, i: nat)
    requires Valid(nd) && g < |nd.arrays| && Roomy(nd, i)
    ensures var nd' := AfterWrite(nd, g, j, value, throughStored);
            nd'.order != [] && (forall h :: 0 <= h < |nd'.arrays| ==> |nd'.arrays[h]| >= 2) &&
            (Settled(nd, i) || i == j ==> Settled(nd', i)) && Slot(nd'.order, i) <= 1
  {
    GivenSlots(nd, j, i);
  }

  lemma TouchRoomy(nd: Node, j: nat, i: nat)
    requires Valid(nd) && (forall g :: 0 <= g < |nd.arrays| ==> |nd.arrays[g]| >= 2)
    requires Settled(nd, i) || (i == j && Slot(nd.order, i) <= 1)
    ensures Roomy(Touch(nd, j), i)
  {
    GivenSlots(nd, j, i);
  }

  /** A node that sends out an update has counted, so it has its slot. */
  lemma SenderSettled(c: Cluster, u: nat)
    requires Inv(c) && AllRoomy(c) && u < |c.updates|
    ensures c.updates[u].node < |c.nodes| && Settled(c.nodes[c.updates[u].node], c.updates[u].node)
  {
    var k := c.updates[u];
    assert UpdateHolds(c, k) && Valid(c.nodes[k.node]) && Roomy(c.nodes[k.node], k.node);
  }

  lemma NextRoomy(c: Cluster, s: Step)
    requires Inv(c) && Enabled(c, s) && AllRoomy(c)
    ensures AllRoomy(Next(c, s))
  {
    match s {
      case Update(i, isIncrement) =>
        WriteRoomy(c.nodes[i], c.nodes[i].stored, i, Bump(Known(c, i, i), isIncrement), true, i);
      case Capture(_, _, _) =>
      case Replicate(u, j) => ReplicateRoomy(c, u, j);
      case HandleRequest(m) => MergeRoomy(c, m);
      case HandleAnswer(a) => AnswerRoomy(c, a);
    }
  }

  lemma ReplicateRoomy(c: Cluster, u: nat, j: nat)
    requires Inv(c) && Enabled(c, Replicate(u, j)) && AllRoomy(c)
    ensures AllRoomy(Next(c, Replicate(u, j)))
  {
    SenderSettled(c, u);
    TouchRoomy(c.nodes[c.updates[u].node], j, c.updates[u].node);
  }

  lemma AnswerRoomy(c: Cluster, a: Answered)
    requires Inv(c) && Enabled(c, HandleAnswer(a)) && AllRoomy(c)
    ensures AllRoomy(Next(c, HandleAnswer(a)))
  {
    SenderSettled(c, a.u);
    var k := c.updates[a.u];
    var nd := c.nodes[k.node];
    WriteRoomy(nd, k.answered, a.from, Synced(View(nd, k.answered, a.from), a.response), false, k.node);
  }

  lemma MergeRoomy(c: Cluster, m: Sent)
    requires Inv(c) && m in c.requests && AllRoomy(c)
    ensures m.to < |c.nodes| && StoredFits(Merging(c.nodes[m.to], m.request), m.to)
    ensures Roomy(Touch(Merging(c.nodes[m.to], m.request), m.to), m.to)
  {
    assert RequestHolds(c, m);
    var nd, r := c.nodes[m.to], m.request;
    assert Valid(nd) && Roomy(nd, m.to);
    var value := Merge(View(nd, nd.stored, r.otherNodeId), r.isIncrement, r.newValue);
    WriteRoomy(nd, nd.stored, r.otherNodeId, value, true, m.to);
    assert Valid(Merging(nd, r)) by { WriteValid(nd, nd.stored, r.otherNodeId, value); }
    GivenSlots(nd, r.otherNodeId, m.to);
    TouchRoomy(Merging(nd, r), m.to, m.to);
  }

  lemma {:induction false} RunRoomy(states: seq<Cluster>, steps: seq<Step>, i: nat)
    requires IsRun(states, steps) && i < |states| && AllRoomy(states[0])
    ensures AllRoomy(states[i])
  {
    if i == 0 {
    } else {
      RunRoomy(states, steps, i - 1);
      RunKeepsInv(states, steps, i - 1);
      assert states[i] == Next(states[i - 1], steps[i - 1]);
      NextRoomy(states[i - 1], steps[i - 1]);
    }
  }

  /** Counters made with two slots or more never count or answer past their arrays: in every state every node can count
      and send out what it has counted, and every request and answer can be handled. */
  lemma OwnSlotAlwaysFits(states: seq<Cluster>, steps: seq<Step>, i: nat)
    requires IsRun(states, steps) && i < |states|
    requires forall n :: 0 <= n < |states[0].nodes| ==> |states[0].nodes[n].arrays[0]| >= 2
    ensures forall n, isIncrement :: 0 <= n < |states[i].nodes| ==> Enabled(states[i], Update(n, isIncrement))
    ensures forall m :: m in states[i].requests ==> Enabled(states[i], HandleRequest(m))
    ensures forall a :: a in states[i].answers ==> Enabled(states[i], HandleAnswer(a))
    ensures Shaped(states[i])
    ensures forall n, isIncrement, value: int ::
              0 <= n < |states[i].nodes| && 0 < value <= CountOf(Known(states[i], n, n), isIncrement) ==>
              Enabled(states[i], Capture(n, isIncrement, value))
  {
    assert AllRoomy(states[0]) by {
      assert forall n :: 0 <= n < |states[0].nodes| ==> Fresh(states[0].nodes[n]);
    }
    RunRoomy(states, steps, i);
    RunKeepsInv(states, steps, i);
    var c := states[i];
    forall n, isIncrement | 0 <= n < |c.nodes| ensures Enabled(c, Update(n, isIncrement)) {
      assert Roomy(c.nodes[n], n);
    }
    forall m | m in c.requests ensures Enabled(c, HandleRequest(m)) {
      MergeRoomy(c, m);
    }
    forall a | a in c.answers ensures Enabled(c, HandleAnswer(a)) {
      assert AnswerHolds(c, a);
    }
  }
}
