/** A node's replicated counter with the copies its updates have taken along. All share one table of slots; each holds
    on to arrays, which are the stored counter's until one of the two needs more room and moves to new ones. */
module CounterNode {
  import opened CounterModel

  /** `arrays` lists all arrays there ever were; `stored` says which of them the stored counter holds. */
  datatype Node = Node(order: seq<nat>, arrays: seq<seq<PN>>, stored: nat)

  /** What arrays say of a node. */
  function View(nd: Node, g: nat, nodeId: nat): PN
    requires g < |nd.arrays|
  {
    At(nd.arrays[g], Slot(nd.order, nodeId))
  }

  predicate Fits(nd: Node, g: nat, nodeId: nat)
    requires g < |nd.arrays|
  {
    Slot(nd.order, nodeId) < |nd.arrays[g]|
  }

  /** Slots are given out once each, and those not given out are zero in all arrays. */
  ghost predicate Valid(nd: Node) {
    && nd.stored < |nd.arrays|
    && (forall s, t :: 0 <= s < t < |nd.order| ==> nd.order[s] != nd.order[t])
    && forall g, s: nat :: 0 <= g < |nd.arrays| && |nd.order| <= s ==> At(nd.arrays[g], s) == PN(0, 0)
  }

  /** Asking for a node's slot gives it one. */
  function Touch(nd: Node, nodeId: nat): Node {
    nd.(order := Given(nd.order, nodeId))
  }

  /** The arrays a write to the slot of a node ends up in. */
  function Target(nd: Node, g: nat, nodeId: nat): nat
    requires g < |nd.arrays|
  {
    if Fits(nd, g, nodeId) then g else |nd.arrays|
  }

  function Write(nd: Node, g: nat, nodeId: nat, value: PN): Node
    requires g < |nd.arrays|
  {
    var rows := PutRow(nd.arrays[g], Slot(nd.order, nodeId), value);
    nd.(order := Given(nd.order, nodeId),
        arrays := if Fits(nd, g, nodeId) then nd.arrays[g := rows] else nd.arrays + [rows])
  }

  lemma GivenSlots(nd: Node, j: nat, k: nat)
    requires Valid(nd)
    ensures k == j || k in nd.order ==> Slot(Given(nd.order, j), k) == Slot(nd.order, k)
    ensures k != j && k !in nd.order ==> Slot(Given(nd.order, j), k) >= |nd.order|
  {
    var order, order' := nd.order, Given(nd.order, j);
    var s, s' := Slot(order, k), Slot(order', k);
    if k in order {
      assert order'[s] == k && order[s] == k;
      assert s' <= s;
    }
  }

  /** Giving out a slot changes no view. */
  lemma TouchKeeps(nd: Node, j: nat)
    requires Valid(nd)
    ensures Valid(Touch(nd, j))
    ensures forall g, k: nat :: 0 <= g < |nd.arrays| ==> View(Touch(nd, j), g, k) == View(nd, g, k)
  {
    forall g, k: nat | 0 <= g < |nd.arrays| ensures View(Touch(nd, j), g, k) == View(nd, g, k) {
      GivenSlots(nd, j, k);
    }
  }

  /** A write changes one node's view in the arrays it ends up in, and nothing in any others. */
  lemma WriteViews(nd: Node, g: nat, j: nat, value: PN, h: nat, k: nat)
    requires Valid(nd) && g < |nd.arrays|
    ensures var nd' := Write(nd, g, j, value); var t := Target(nd, g, j);
            t < |nd'.arrays| &&
            (h < |nd'.arrays| ==>
               View(nd', h, k) == if h == t && k == j then value else View(nd, if h == t then g else h, k))
  {
    var nd' := Write(nd, g, j, value);
    if h < |nd'.arrays| {
      GivenSlots(nd, j, k);
      GivenSlots(nd, j, j);
      PutAt(nd.arrays[g], Slot(nd.order, j), value, Slot(nd'.order, k));
      if k != j {
        OtherSlot(nd, j, k);
      }
    }
  }

  lemma OtherSlot(nd: Node, j: nat, k: nat)
    requires Valid(nd) && k != j
    ensures Slot(Given(nd.order, j), k) != Slot(nd.order, j)
  {
    GivenSlots(nd, j, k);
    GivenSlots(nd, j, j);
  }

  lemma WriteValid(nd: Node, g: nat, j: nat, value: PN)
    requires Valid(nd) && g < |nd.arrays|
    ensures Valid(Write(nd, g, j, value))
  {
    var nd' := Write(nd, g, j, value);
    forall h, s: nat | 0 <= h < |nd'.arrays| && |nd'.order| <= s ensures At(nd'.arrays[h], s) == PN(0, 0) {
      PutAt(nd.arrays[g], Slot(nd.order, j), value, s);
    }
  }

  /** Views only go up, in all arrays and from the stored counter to the stored counter. The stored counter moves to new
      and larger arrays only. */
  ghost predicate NodeGrows(nd: Node, nd': Node) {
    && Valid(nd) && Valid(nd') && |nd.arrays| <= |nd'.arrays|
    && (forall g, k: nat :: 0 <= g < |nd.arrays| ==> Leq(View(nd, g, k), View(nd', g, k)))
    && (forall k: nat :: Leq(View(nd, nd.stored, k), View(nd', nd'.stored, k)))
    && (forall g :: 0 <= g < |nd.arrays| ==> |nd'.arrays[g]| == |nd.arrays[g]|)
    && (nd'.stored == nd.stored ||
        (nd'.stored >= |nd.arrays| && |nd'.arrays[nd'.stored]| > |nd.arrays[nd.stored]|))
  }

  /** Arrays hold nothing of unknown nodes and nothing above the nodes' own counts. */
  ghost predicate Bounded(nd: Node, own: seq<PN>) {
    && (forall s :: 0 <= s < |nd.order| ==> nd.order[s] < |own|)
    && forall g, k :: 0 <= g < |nd.arrays| && 0 <= k < |own| ==>
         Leq(PN(0, 0), View(nd, g, k)) && Leq(View(nd, g, k), own[k])
  }

  lemma TouchStep(nd: Node, j: nat, own: seq<PN>)
    requires Valid(nd) && Bounded(nd, own) && j < |own|
    ensures NodeGrows(nd, Touch(nd, j)) && Bounded(Touch(nd, j), own)
    ensures forall g, k: nat :: 0 <= g < |nd.arrays| ==> View(Touch(nd, j), g, k) == View(nd, g, k)
  {
    TouchKeeps(nd, j);
  }

  /** A write through the stored counter, or through a copy that holds arrays `g`. */
  function AfterWrite(nd: Node, g: nat, nodeId: nat, value: PN, throughStored: bool): Node
    requires g < |nd.arrays|
  {
    var nd' := Write(nd, g, nodeId, value);
    if throughStored then nd'.(stored := Target(nd, g, nodeId)) else nd'
  }

  lemma WriteViewGrows(nd: Node, g: nat, j: nat, value: PN, h: nat, k: nat)
    requires Valid(nd) && g < |nd.arrays| && h < |nd.arrays| && Leq(View(nd, g, j), value)
    ensures var nd' := Write(nd, g, j, value); h < |nd'.arrays| && Leq(View(nd, h, k), View(nd', h, k))
  {
    WriteViews(nd, g, j, value, h, k);
  }

  lemma WriteGrows(nd: Node, g: nat, j: nat, value: PN, throughStored: bool)
    requires Valid(nd) && g < |nd.arrays| && (throughStored ==> g == nd.stored) && Leq(View(nd, g, j), value)
    ensures NodeGrows(nd, AfterWrite(nd, g, j, value, throughStored))
  {
    var nd' := AfterWrite(nd, g, j, value, throughStored);
    WriteValid(nd, g, j, value);
    forall h, k: nat | 0 <= h < |nd.arrays| ensures Leq(View(nd, h, k), View(nd', h, k)) {
      WriteViewGrows(nd, g, j, value, h, k);
    }
    forall k: nat ensures Leq(View(nd, nd.stored, k), View(nd', nd'.stored, k)) {
      AfterWriteKnows(nd, g, j, value, throughStored, k);
    }
  }

  lemma WriteViewBounded(nd: Node, g: nat, j: nat, value: PN, own: seq<PN>, h: nat, k: nat)
    requires Valid(nd) && g < |nd.arrays| && Bounded(nd, own) && k < |own|
    requires k == j ==> Leq(PN(0, 0), value) && Leq(value, own[j])
    ensures var nd' := Write(nd, g, j, value);
            h < |nd'.arrays| ==> Leq(PN(0, 0), View(nd', h, k)) && Leq(View(nd', h, k), own[k])
  {
    var nd', t := Write(nd, g, j, value), Target(nd, g, j);
    if h < |nd'.arrays| {
      WriteViews(nd, g, j, value, h, k);
      var was := if h == t then g else h;
      assert Leq(PN(0, 0), View(nd, was, k)) && Leq(View(nd, was, k), own[k]);
    }
  }

  lemma WriteStep(nd: Node, g: nat, j: nat, value: PN, throughStored: bool, own: seq<PN>)
    requires Valid(nd) && g < |nd.arrays| && Bounded(nd, own) && j < |own| && (throughStored ==> g == nd.stored)
    requires Leq(View(nd, g, j), value) && Leq(PN(0, 0), value) && Leq(value, own[j])
    ensures NodeGrows(nd, AfterWrite(nd, g, j, value, throughStored))
    ensures Bounded(AfterWrite(nd, g, j, value, throughStored), own)
  {
    WriteGrows(nd, g, j, value, throughStored);
    WriteBounded(nd, g, j, value, throughStored, own);
  }

  lemma WriteBounded(nd: Node, g: nat, j: nat, value: PN, throughStored: bool, own: seq<PN>)
    requires Valid(nd) && g < |nd.arrays| && Bounded(nd, own) && j < |own|
    requires Leq(PN(0, 0), value) && Leq(value, own[j])
    ensures Bounded(AfterWrite(nd, g, j, value, throughStored), own)
  {
    var nd' := AfterWrite(nd, g, j, value, throughStored);
    forall h, k | 0 <= h < |nd'.arrays| && 0 <= k < |own|
      ensures Leq(PN(0, 0), View(nd', h, k)) && Leq(View(nd', h, k), own[k])
    {
      WriteViewBounded(nd, g, j, value, own, h, k);
    }
  }

  /** What the stored counter knows after a write. */
  lemma AfterWriteKnows(nd: Node, g: nat, j: nat, value: PN, throughStored: bool, k: nat)
    requires Valid(nd) && g < |nd.arrays| && (throughStored ==> g == nd.stored)
    ensures var nd' := AfterWrite(nd, g, j, value, throughStored);
            nd'.stored < |nd'.arrays| &&
            View(nd', nd'.stored, k) ==
            if k == j && (throughStored || (g == nd.stored && Fits(nd, g, j))) then value else View(nd, nd.stored, k)
  {
    var nd' := AfterWrite(nd, g, j, value, throughStored);
    WriteViews(nd, g, j, value, nd'.stored, k);
  }
}
