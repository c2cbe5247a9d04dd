/** A run of three nodes in which an answer that reaches the stored counter leaves it behind. */
module CounterScenario {
  import opened PutRule
  import opened CounterModel
  import opened CounterNode
  import opened CounterProtocol

  const O: PN := PN(0, 0)
  const I: PN := PN(1, 0)

  /** A node with three slots. */
  function Holding(order: seq<nat>, a: PN, b: PN): Node {
    Node(order, [[a, b, O]], 0)
  }

  /** Node 1 counts, and node 0 learns of it. */
  const FIRST: Sending := Sending(1, true, 1, 0, 0, Some(Report(0, O)))

  /** Node 0 counts. Its requests report what it has seen of node 1, which is asked first. */
  const SECOND: Sending := Sending(0, true, 1, 0, 0, Some(Report(1, I)))

  function ToNode0(): Sent { Sent(0, 0, RequestOf(FIRST)) }

  function ToNode1(): Sent { Sent(1, 1, RequestOf(SECOND)) }

  function ToNode2(): Sent { Sent(1, 2, RequestOf(SECOND)) }

  function FromNode0(): Answered { Answered(0, 0, Response(0, 0), O) }

  function FromNode2(): Answered { Answered(1, 2, Response(0, 0), I) }

  function State(k: nat): Cluster {
    match k
    case 0 => Cluster([Holding([], O, O), Holding([], O, O), Holding([], O, O)],
                      [], {}, {}, 0, 0)
    case 1 => Cluster([Holding([], O, O), Holding([1], I, O), Holding([], O, O)],
                      [], {}, {}, 1, 0)
    case 2 => Cluster([Holding([], O, O), Holding([1], I, O), Holding([], O, O)],
                      [FIRST.(report := None)], {}, {}, 1, 0)
    case 3 => Cluster([Holding([], O, O), Holding([1, 0], I, O), Holding([], O, O)],
                      [FIRST], {ToNode0()}, {}, 1, 0)
    case 4 => Cluster([Holding([1, 0], I, O), Holding([1, 0], I, O), Holding([], O, O)],
                      [FIRST], {ToNode0()}, {FromNode0()}, 1, 0)
    case 5 => Cluster([Holding([1, 0], I, O), Holding([1, 0], I, O), Holding([2], I, O)],
                      [FIRST], {ToNode0()}, {FromNode0()}, 2, 0)
    case 6 => Cluster([Holding([1, 0], I, I), Holding([1, 0], I, O), Holding([2], I, O)],
                      [FIRST], {ToNode0()}, {FromNode0()}, 3, 0)
    case 7 => Cluster([Holding([1, 0], I, I), Holding([1, 0], I, O), Holding([2], I, O)],
                      [FIRST, SECOND.(report := None)], {ToNode0()}, {FromNode0()}, 3, 0)
    case 8 => Cluster([Holding([1, 0], I, I), Holding([1, 0], I, O), Holding([2], I, O)],
                      [FIRST, SECOND], {ToNode0(), ToNode1()}, {FromNode0()}, 3, 0)
    case 9 => Cluster([Holding([1, 0, 2], I, I), Holding([1, 0], I, O), Holding([2], I, O)],
                      [FIRST, SECOND], {ToNode0(), ToNode1(), ToNode2()}, {FromNode0()}, 3, 0)
    case _ => Cluster([Holding([1, 0, 2], I, I), Holding([1, 0], I, O), Holding([2, 0], I, I)],
                      [FIRST, SECOND], {ToNode0(), ToNode1(), ToNode2()}, {FromNode0(), FromNode2()}, 3, 0)
  }

  function StepAt(k: nat): Step {
    match k
    case 0 => Update(1, true)
    case 1 => Capture(1, true, 1)
    case 2 => Replicate(0, 0)
    case 3 => HandleRequest(ToNode0())
    case 4 => Update(2, true)
    case 5 => Update(0, true)
    case 6 => Capture(0, true, 1)
    case 7 => Replicate(1, 1)
    case 8 => Replicate(1, 2)
    case 9 => HandleRequest(ToNode2())
    case _ => HandleAnswer(FromNode2())
  }

  lemma Slots()
    ensures forall j :: Slot([], j) == 0
    ensures Slot([1], 1) == 0 && Slot([1], 0) == 1 && Slot([2], 2) == 0 && Slot([2], 0) == 1
    ensures Slot([1, 0], 0) == 1 && Slot([1, 0], 1) == 0 && Slot([1, 0], 2) == 2
    ensures Slot([1, 0, 2], 2) == 2 && Slot([2, 0], 2) == 0
  {}

  lemma Wrote(order: seq<nat>, j: nat, a: PN, b: PN, value: PN)
    requires Slot(order, j) <= 1
    ensures AfterWrite(Holding(order, a, b), 0, j, value, true) ==
            if Slot(order, j) == 0 then Holding(Given(order, j), value, b) else Holding(Given(order, j), a, value)
  {
    var rows := [a, b, O];
    assert rows[0 := value] == [value, b, O] && rows[1 := value] == [a, value, O];
    assert [rows][0 := [value, b, O]] == [[value, b, O]] && [rows][0 := [a, value, O]] == [[a, value, O]];
  }

  lemma Orders()
    ensures Given([], 1) == [1] && Given([], 2) == [2] && Given([1], 0) == [1, 0] && Given([2], 0) == [2, 0]
    ensures Given([1, 0], 0) == [1, 0] && Given([1, 0], 1) == [1, 0] && Given([1, 0], 2) == [1, 0, 2]
    ensures Given([2, 0], 2) == [2, 0]
  {}

  predicate Moves(c: Cluster, s: Step, c': Cluster) {
    Enabled(c, s) && Next(c, s) == c'
  }

  lemma Counting(c: Cluster, i: nat, nd: Node, c': Cluster)
    requires Shaped(c) && i < |c.nodes| && StoredFits(c.nodes[i], i)
    requires AfterWrite(c.nodes[i], c.nodes[i].stored, i, Bump(Known(c, i, i), true), true) == nd
    requires c' == c.(nodes := c.nodes[i := nd], incs := c.incs + 1)
    ensures Moves(c, Update(i, true), c')
  {}

  lemma Answering(c: Cluster, m: Sent, nd: Node, own: PN, c': Cluster)
    requires Shaped(c) && m in c.requests && m.to < |c.nodes| && StoredFits(Merging(c.nodes[m.to], m.request), m.to)
    requires nd == Touch(Merging(c.nodes[m.to], m.request), m.to) && own == View(nd, nd.stored, m.to)
    requires c' == c.(nodes := c.nodes[m.to := nd],
                      answers := c.answers + {Answered(m.u, m.to, Answer(own, m.request), own)})
    ensures Moves(c, HandleRequest(m), c')
  {}

  lemma NothingTold(c: Cluster, a: Answered)
    requires Shaped(c) && a in c.answers && a.u < |c.updates| && !Tells(a.response)
    ensures Moves(c, HandleAnswer(a), c)
  {}

  lemma Node1Counts()
    ensures Moves(State(0), StepAt(0), State(1))
  {
    Slots();
    Orders();
    Wrote([], 1, O, O, I);
    assert State(0).nodes[1 := Holding([1], I, O)] == State(1).nodes;
    Counting(State(0), 1, Holding([1], I, O), State(1));
  }

  lemma Node2Counts()
    ensures Moves(State(4), StepAt(4), State(5))
  {
    Slots();
    Orders();
    Wrote([], 2, O, O, I);
    assert State(4).nodes[2 := Holding([2], I, O)] == State(5).nodes;
    Counting(State(4), 2, Holding([2], I, O), State(5));
  }

  lemma Node0Counts()
    ensures Moves(State(5), StepAt(5), State(6))
  {
    Slots();
    Orders();
    Wrote([1, 0], 0, I, O, I);
    assert State(5).nodes[0 := Holding([1, 0], I, I)] == State(6).nodes;
    Counting(State(5), 0, Holding([1, 0], I, I), State(6));
  }

  lemma Captures(k: nat)
    requires k == 1 || k == 6
    ensures Moves(State(k), StepAt(k), State(k + 1))
  {
    Slots();
    assert Next(State(k), StepAt(k)).updates == State(k + 1).updates;
  }

  lemma Node1Asks()
    ensures Moves(State(2), StepAt(2), State(3))
  {
    Slots();
    Orders();
    assert Next(State(2), StepAt(2)).nodes == State(3).nodes && Next(State(2), StepAt(2)).updates == State(3).updates;
  }

  lemma Node0Asks(k: nat)
    requires k == 7 || k == 8
    ensures Moves(State(k), StepAt(k), State(k + 1))
  {
    Slots();
    Orders();
    var c, c' := Next(State(k), StepAt(k)), State(k + 1);
    assert c.updates == c'.updates && c.nodes == c'.nodes && c.requests == c'.requests;
  }

  lemma Node0Merges()
    ensures Moves(State(3), StepAt(3), State(4))
  {
    Slots();
    Orders();
    Wrote([], 1, O, O, I);
    assert State(3).nodes[0 := Holding([1, 0], I, O)] == State(4).nodes;
    Answering(State(3), ToNode0(), Holding([1, 0], I, O), O, State(4));
  }

  lemma Node2Takes()
    ensures var nd, q := Holding([2, 0], I, I), RequestOf(SECOND);
            && Merging(Holding([2], I, O), q) == nd && Touch(nd, 2) == nd && View(nd, 0, 2) == I
            && StoredFits(nd, 2) && Answer(I, q) == Response(0, 0)
  {
    Slots();
    Orders();
    Wrote([2], 0, I, O, I);
  }

  lemma Node2Merges()
    ensures Moves(State(9), StepAt(9), State(10))
  {
    Node2Takes();
    assert State(9).nodes[2 := Holding([2, 0], I, I)] == State(10).nodes;
    Answering(State(9), ToNode2(), Holding([2, 0], I, I), I, State(10));
  }

  lemma Node0Hears()
    ensures Moves(State(10), StepAt(10), State(11))
  {
    assert State(10) == State(11);
    NothingTold(State(10), FromNode2());
  }

  lemma Goes(k: nat)
    requires k <= 10
    ensures Moves(State(k), StepAt(k), State(k + 1))
  {
    if k == 0 { Node1Counts(); }
    else if k == 1 || k == 6 { Captures(k); }
    else if k == 2 { Node1Asks(); }
    else if k == 7 || k == 8 { Node0Asks(k); }
    else if k == 3 { Node0Merges(); }
    else if k == 4 { Node2Counts(); }
    else if k == 5 { Node0Counts(); }
    else if k == 9 { Node2Merges(); }
    else { Node0Hears(); }
  }

  function States(): (states: seq<Cluster>)
    ensures |states| == 12 && forall k :: 0 <= k < 12 ==> states[k] == State(k)
  {
    seq(12, k requires 0 <= k < 12 => State(k))
  }

  function Steps(): (steps: seq<Step>)
    ensures |steps| == 11 && forall k :: 0 <= k < 11 ==> steps[k] == StepAt(k)
  {
    seq(11, k requires 0 <= k < 11 => StepAt(k))
  }

  lemma IsTheRun(states: seq<Cluster>, steps: seq<Step>)
    requires |states| == |steps| + 1 && Init(states[0])
    requires forall k :: 0 <= k < |steps| ==> Moves(states[k], steps[k], states[k + 1])
    ensures IsRun(states, steps)
  {
    forall k | 0 <= k < |steps| ensures Enabled(states[k], steps[k]) && states[k + 1] == Next(states[k], steps[k]) {
      assert Moves(states[k], steps[k], states[k + 1]);
    }
  }

  /** At the end node 0 still knows nothing of node 2. */
  lemma Ending()
    ensures var c, c', a := State(10), State(11), FromNode2();
            && Shaped(c) && Shaped(c') && a.u < |c.updates| && Reaches(c, a) && c.updates[a.u].node == 0
            && a.from == 2 && a.at.inc == 1 && |c'.nodes| == 3 && Known(c', 0, 2).inc == 0
  {
    Slots();
  }

  /** All requests of an update report what was seen of the node asked first. Node 0, which knows one increment of node
      1, asks node 1 and then node 2: the answer of node 2, which has one increment too, reaches node 0 and tells it
      nothing. */
  lemma OtherReportHides() returns (states: seq<Cluster>, steps: seq<Step>)
    ensures IsRun(states, steps) && |steps| == 11 && steps[10].HandleAnswer?
    ensures var c, c', a := states[10], states[11], steps[10].a;
            && Shaped(c) && Shaped(c') && a.u < |c.updates| && Reaches(c, a) && c.updates[a.u].node == 0
            && a.from == 2 && a.at.inc == 1 && |c'.nodes| == 3 && Known(c', 0, 2).inc == 0
  {
    states, steps := States(), Steps();
    forall k | 0 <= k < |steps| ensures Moves(states[k], steps[k], states[k + 1]) {
      Goes(k);
    }
    IsTheRun(states, steps);
    Ending();
  }
}
