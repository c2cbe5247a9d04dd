/** The ring as it is built: nodes linked both ways in a circle, and an index from node id to node. */
module Ring {
  import opened PutRule
  import opened Sorting
  import M = RingModel

  class RingEntryNode {
    const entry: M.RingEntry
    var next: RingEntryNode?
    var back: RingEntryNode?

    constructor (entry: M.RingEntry)
      ensures this.entry == entry && next == null && back == null
    {
      this.entry, next, back := entry, null, null;
    }
  }

  function Position(e: M.RingEntry): nat { e.ringPosition }

  /** The entries of a circle of nodes, from the head on. */
  function Entries(nodes: seq<RingEntryNode>): (r: M.Ring)
    ensures |r| == |nodes| && forall i :: 0 <= i < |nodes| ==> r[i] == nodes[i].entry
  {
    seq(|nodes|, i requires 0 <= i < |nodes| => nodes[i].entry)
  }

  predicate Distinct(nodes: seq<RingEntryNode>) {
    forall i, j :: 0 <= i < j < |nodes| ==> nodes[i] != nodes[j]
  }

  /** Every node's links lead to its neighbours. */
  ghost predicate Circle(nodes: seq<RingEntryNode>)
    reads nodes
  {
    forall i :: 0 <= i < |nodes| ==>
      nodes[i].next == nodes[M.Succ(i, |nodes|)] && nodes[i].back == nodes[M.Pred(i, |nodes|)]
  }

  /** The index leads from the id of each node, and of nothing else, to the node. */
  predicate Indexed(index: map<nat, RingEntryNode>, nodes: seq<RingEntryNode>) {
    (forall i :: 0 <= i < |nodes| ==> nodes[i].entry.nodeId in index && index[nodes[i].entry.nodeId] == nodes[i]) &&
    (forall id :: id in index ==> index[id] in nodes && index[id].entry.nodeId == id)
  }

  /** Every node but the last leads to the next, and back. */
  ghost predicate Chain(nodes: seq<RingEntryNode>)
    reads nodes
  {
    forall i :: 0 <= i < |nodes| - 1 ==> nodes[i].next == nodes[i + 1] && nodes[i + 1].back == nodes[i]
  }

  lemma IndexedMore(index: map<nat, RingEntryNode>, nodes: seq<RingEntryNode>, node: RingEntryNode)
    requires Indexed(index, nodes) && node.entry.nodeId !in index
    ensures Indexed(index[node.entry.nodeId := node], nodes + [node])
  {
    var index', nodes' := index[node.entry.nodeId := node], nodes + [node];
    forall id | id in index' ensures index'[id] in nodes' && index'[id].entry.nodeId == id {
      assert id == node.entry.nodeId || index[id] in nodes;
    }
  }

  lemma IdIsNew(index: map<nat, RingEntryNode>, nodes: seq<RingEntryNode>, sorted: M.Ring, i: nat)
    requires Indexed(index, nodes) && |nodes| == i < |sorted| && M.DistinctIds(sorted)
    requires Entries(nodes) == sorted[..i]
    ensures sorted[i].nodeId !in index
  {
    assert forall j :: 0 <= j < i ==> nodes[j].entry == sorted[..i][j] == sorted[j];
  }

  /** Appends a node to a chain. */
  method Extend(nodes: seq<RingEntryNode>, prev: RingEntryNode, entry: M.RingEntry) returns (node: RingEntryNode)
    requires nodes != [] && prev == nodes[|nodes| - 1] && Distinct(nodes) && Chain(nodes)
    modifies prev`next
    ensures fresh(node) && node.entry == entry && Chain(nodes + [node])
  {
    node := new RingEntryNode(entry);
    node.back := prev;
    prev.next := node;
  }

  /** Ties the ends of a chain together. */
  method Close(nodes: seq<RingEntryNode>, first: RingEntryNode, last: RingEntryNode)
    requires |nodes| >= 2 && Distinct(nodes) && Chain(nodes) && first == nodes[0] && last == nodes[|nodes| - 1]
    modifies first`back, last`next
    ensures Circle(nodes)
  {
    first.back := last;
    last.next := first;
    forall i | 0 <= i < |nodes| ensures nodes[i].back == nodes[M.Pred(i, |nodes|)] {
      assert i == 0 || nodes[i - 1 + 1].back == nodes[i - 1];
    }
  }

  /** Links entries in order, closing the circle at the last. */
  method LinkAll(sorted: M.Ring) returns (nodes: seq<RingEntryNode>, index: map<nat, RingEntryNode>)
    requires |sorted| >= 2 && M.DistinctIds(sorted)
    ensures fresh(nodes) && nodes != [] && Distinct(nodes) && Circle(nodes) && Indexed(index, nodes) && Entries(nodes) == sorted
  {
    var first := new RingEntryNode(sorted[0]);
    nodes, index := [first], map[first.entry.nodeId := first];
    for i := 1 to |sorted|
      invariant nodes != [] && nodes[0] == first && Distinct(nodes) && fresh(nodes) && Chain(nodes)
      invariant Entries(nodes) == sorted[..i] && Indexed(index, nodes)
    {
      var node;
      IdIsNew(index, nodes, sorted, i);
      node, index := LinkOne(nodes, nodes[i - 1], index, sorted[i]);
      nodes := nodes + [node];
      assert sorted[..i + 1] == sorted[..i] + [sorted[i]];
    }
    assert sorted[..|sorted|] == sorted;
    Close(nodes, first, nodes[|nodes| - 1]);
  }

  /** Appends a node to a chain and to the index. */
  method LinkOne(nodes: seq<RingEntryNode>, prev: RingEntryNode, index: map<nat, RingEntryNode>, entry: M.RingEntry)
    returns (node: RingEntryNode, index': map<nat, RingEntryNode>)
    requires nodes != [] && prev == nodes[|nodes| - 1] && Distinct(nodes) && Chain(nodes)
    requires Indexed(index, nodes) && entry.nodeId !in index
    modifies prev`next
    ensures fresh(node) && node !in nodes && Distinct(nodes + [node]) && Chain(nodes + [node])
    ensures Indexed(index', nodes + [node]) && Entries(nodes + [node]) == Entries(nodes) + [entry]
  {
    node := Extend(nodes, prev, entry);
    IndexedMore(index, nodes, node);
    index' := index[node.entry.nodeId := node];
  }

  /** A circle with a node put in. */
  function PutIn(nodes: seq<RingEntryNode>, node: RingEntryNode, at: nat): seq<RingEntryNode>
    requires at <= |nodes|
  {
    nodes[..at] + [node] + nodes[at..]
  }

  lemma PutInAt(nodes: seq<RingEntryNode>, node: RingEntryNode, at: nat, i: nat)
    requires at <= |nodes| && i <= |nodes|
    ensures PutIn(nodes, node, at)[i] == if i < at then nodes[i] else if i == at then node else nodes[i - 1]
  {}

  lemma NextPutIn(nodes: seq<RingEntryNode>, node: RingEntryNode, at: nat, i: nat)
    requires 0 < at <= |nodes| && i <= |nodes|
    requires node.next == nodes[if at == |nodes| then 0 else at]
    requires forall k :: 0 <= k < |nodes| ==> nodes[k].next == if k == at - 1 then node else nodes[M.Succ(k, |nodes|)]
    ensures PutIn(nodes, node, at)[i].next == PutIn(nodes, node, at)[M.Succ(i, |nodes| + 1)]
  {
    PutInAt(nodes, node, at, i);
    PutInAt(nodes, node, at, M.Succ(i, |nodes| + 1));
  }

  lemma BackPutIn(nodes: seq<RingEntryNode>, node: RingEntryNode, at: nat, i: nat)
    requires 0 < at <= |nodes| && i <= |nodes|
    requires node.back == nodes[at - 1]
    requires forall k :: 0 <= k < |nodes| ==>
               nodes[k].back == if k == (if at == |nodes| then 0 else at) then node else nodes[M.Pred(k, |nodes|)]
    ensures PutIn(nodes, node, at)[i].back == PutIn(nodes, node, at)[M.Pred(i, |nodes| + 1)]
  {
    PutInAt(nodes, node, at, i);
    PutInAt(nodes, node, at, M.Pred(i, |nodes| + 1));
  }

  lemma CirclePutIn(nodes: seq<RingEntryNode>, node: RingEntryNode, at: nat)
    requires 0 < at <= |nodes|
    requires node.back == nodes[at - 1] && node.next == nodes[if at == |nodes| then 0 else at]
    requires forall k :: 0 <= k < |nodes| ==> nodes[k].next == if k == at - 1 then node else nodes[M.Succ(k, |nodes|)]
    requires forall k :: 0 <= k < |nodes| ==>
               nodes[k].back == if k == (if at == |nodes| then 0 else at) then node else nodes[M.Pred(k, |nodes|)]
    ensures Circle(PutIn(nodes, node, at))
  {
    var all := PutIn(nodes, node, at);
    forall i | 0 <= i < |all| ensures all[i].next == all[M.Succ(i, |all|)] && all[i].back == all[M.Pred(i, |all|)] {
      NextPutIn(nodes, node, at, i);
      BackPutIn(nodes, node, at, i);
    }
  }

  lemma DistinctPutIn(nodes: seq<RingEntryNode>, node: RingEntryNode, at: nat)
    requires Distinct(nodes) && node !in nodes && at <= |nodes|
    ensures Distinct(PutIn(nodes, node, at))
  {
    var all := PutIn(nodes, node, at);
    forall i, j | 0 <= i < j < |all| ensures all[i] != all[j] {
      PutInAt(nodes, node, at, i);
      PutInAt(nodes, node, at, j);
    }
  }

  /** Puts a node between two neighbours. */
  method Splice(ghost nodes: seq<RingEntryNode>, node: RingEntryNode, ghost at: nat, before: RingEntryNode, after: RingEntryNode)
    requires Distinct(nodes) && Circle(nodes) && node !in nodes && 0 < at <= |nodes|
    requires before == nodes[at - 1] && after == nodes[if at == |nodes| then 0 else at]
    modifies before`next, after`back, node
    ensures Circle(PutIn(nodes, node, at)) && Distinct(PutIn(nodes, node, at))
  {
    before.next := node;
    node.back := before;
    after.back := node;
    node.next := after;
    CirclePutIn(nodes, node, at);
    DistinctPutIn(nodes, node, at);
  }

  function LeaveOut(nodes: seq<RingEntryNode>, at: nat): seq<RingEntryNode>
    requires at < |nodes|
  {
    nodes[..at] + nodes[at + 1..]
  }

  lemma LeaveOutAt(nodes: seq<RingEntryNode>, at: nat, i: nat)
    requires at < |nodes| && i < |nodes| - 1
    ensures LeaveOut(nodes, at)[i] == if i < at then nodes[i] else nodes[i + 1]
  {}

  lemma HeadLeftOut(nodes: seq<RingEntryNode>, at: nat)
    requires at < |nodes|
    ensures |LeaveOut(nodes, at)| == |nodes| - 1
    ensures |nodes| > 1 ==> LeaveOut(nodes, at)[0] == nodes[if at == 0 then 1 else 0]
  {}

  lemma EntriesLeaveOut(nodes: seq<RingEntryNode>, at: nat)
    requires at < |nodes|
    ensures Entries(LeaveOut(nodes, at)) == M.Without(Entries(nodes), at)
  {}

  lemma LinksLeftOut(nodes: seq<RingEntryNode>, at: nat, i: nat)
    requires at < |nodes| && i < |nodes| - 1
    requires forall k :: 0 <= k < |nodes| && k != at ==>
               nodes[k].next == nodes[if k == M.Pred(at, |nodes|) then M.Succ(at, |nodes|) else M.Succ(k, |nodes|)]
    requires forall k :: 0 <= k < |nodes| && k != at ==>
               nodes[k].back == nodes[if k == M.Succ(at, |nodes|) then M.Pred(at, |nodes|) else M.Pred(k, |nodes|)]
    ensures LeaveOut(nodes, at)[i].next == LeaveOut(nodes, at)[M.Succ(i, |nodes| - 1)]
    ensures LeaveOut(nodes, at)[i].back == LeaveOut(nodes, at)[M.Pred(i, |nodes| - 1)]
  {
    LeaveOutAt(nodes, at, i);
    LeaveOutAt(nodes, at, M.Succ(i, |nodes| - 1));
    LeaveOutAt(nodes, at, M.Pred(i, |nodes| - 1));
  }

  lemma CircleLeaveOut(nodes: seq<RingEntryNode>, at: nat)
    requires at < |nodes|
    requires forall k :: 0 <= k < |nodes| && k != at ==>
               nodes[k].next == nodes[if k == M.Pred(at, |nodes|) then M.Succ(at, |nodes|) else M.Succ(k, |nodes|)]
    requires forall k :: 0 <= k < |nodes| && k != at ==>
               nodes[k].back == nodes[if k == M.Succ(at, |nodes|) then M.Pred(at, |nodes|) else M.Pred(k, |nodes|)]
    ensures Circle(LeaveOut(nodes, at))
  {
    var rest := LeaveOut(nodes, at);
    forall i | 0 <= i < |rest| ensures rest[i].next == rest[M.Succ(i, |rest|)] && rest[i].back == rest[M.Pred(i, |rest|)] {
      LinksLeftOut(nodes, at, i);
    }
  }

  lemma DistinctLeaveOut(nodes: seq<RingEntryNode>, at: nat)
    requires Distinct(nodes) && at < |nodes|
    ensures Distinct(LeaveOut(nodes, at)) && nodes[at] !in LeaveOut(nodes, at)
  {}

  /** Takes a node out of a circle. Its own links stay as they are. */
  method Unlink(ghost nodes: seq<RingEntryNode>, node: RingEntryNode, ghost at: nat)
    requires Distinct(nodes) && Circle(nodes) && at < |nodes| && node == nodes[at]
    modifies nodes
    ensures Circle(LeaveOut(nodes, at)) && Distinct(LeaveOut(nodes, at))
    ensures node.next == old(node.next) && node !in LeaveOut(nodes, at)
  {
    var before, after := node.back, node.next;
    assert before == nodes[M.Pred(at, |nodes|)] && after == nodes[M.Succ(at, |nodes|)];
    before.next := after;
    after.back := before;
    CircleLeaveOut(nodes, at);
    DistinctLeaveOut(nodes, at);
  }

  lemma EntriesPutIn(nodes: seq<RingEntryNode>, node: RingEntryNode, at: nat)
    requires at <= |nodes|
    ensures Entries(PutIn(nodes, node, at)) == M.InsertAt(Entries(nodes), node.entry, at)
  {
    var all := PutIn(nodes, node, at);
    forall i | 0 <= i < |all| ensures Entries(all)[i] == M.InsertAt(Entries(nodes), node.entry, at)[i] {
      PutInAt(nodes, node, at, i);
    }
  }

  lemma IndexedPutIn(index: map<nat, RingEntryNode>, nodes: seq<RingEntryNode>, node: RingEntryNode, at: nat)
    requires Indexed(index, nodes) && node.entry.nodeId !in index && at <= |nodes|
    ensures Indexed(index[node.entry.nodeId := node], PutIn(nodes, node, at))
  {
    var index', all := index[node.entry.nodeId := node], PutIn(nodes, node, at);
    forall i | 0 <= i < |all| ensures all[i].entry.nodeId in index' && index'[all[i].entry.nodeId] == all[i] {
      PutInAt(nodes, node, at, i);
    }
    forall id | id in index' ensures index'[id] in all && index'[id].entry.nodeId == id {
      if id == node.entry.nodeId {
        PutInAt(nodes, node, at, at);
      } else {
        var j :| 0 <= j < |nodes| && nodes[j] == index[id];
        PutInAt(nodes, node, at, if j < at then j else j + 1);
      }
    }
  }

  /** Finds the neighbours a new position goes between, by a walk of one turn and a step. */
  method FindPlace(head: RingEntryNode, ghost nodes: seq<RingEntryNode>, position: nat, size: nat)
    returns (before: RingEntryNode, after: RingEntryNode, ghost at: nat)
    requires nodes != [] && head == nodes[0] && Circle(nodes) && size == |nodes|
    ensures at == M.PlaceFrom(Entries(nodes), position, 0) && 0 < at
    ensures before == nodes[at - 1] && after == nodes[if at == |nodes| then 0 else at]
  {
    var iterations := 0;
    ghost var ring := Entries(nodes);
    ghost var i: nat := 0;
    before, after, at := head, head.next, |nodes|;
    while size >= iterations
      invariant i < size && before == nodes[i] && after == nodes[M.Succ(i, size)]
      invariant i == if iterations < size then iterations else if iterations == size then 0 else M.Succ(0, size)
      invariant iterations <= size ==> M.PlaceFrom(ring, position, 0) == M.PlaceFrom(ring, position, iterations)
      invariant iterations > 0 ==> !M.Between(ring, position, 0)
      invariant iterations >= size ==> M.PlaceFrom(ring, position, 0) == size
      invariant iterations <= size + 1
    {
      if before.entry.ringPosition < position && after.entry.ringPosition > position {
        at := i + 1;
        return;
      }
      before, after, i := after, after.next, M.Succ(i, size);
      iterations := iterations + 1;
    }
    before, after := head.back, head;
  }

  /** Two nodes in a circle, whichever is named first. */
  method TiePair(first: RingEntryNode, node: RingEntryNode)
    requires first != node
    modifies first, node
    ensures Circle([first, node]) && Circle([node, first])
  {
    first.next, first.back, node.next, node.back := node, node, first, first;
  }

  lemma PairIndexed(index: map<nat, RingEntryNode>, first: RingEntryNode, node: RingEntryNode)
    requires Indexed(index, [first]) && node.entry.nodeId !in index
    ensures Indexed(index[node.entry.nodeId := node], [first, node]) && Indexed(index[node.entry.nodeId := node], [node, first])
  {
    IndexedPutIn(index, [first], node, 0);
    IndexedPutIn(index, [first], node, 1);
    assert PutIn([first], node, 0) == [node, first] && PutIn([first], node, 1) == [first, node];
  }

  lemma PairEntries(first: RingEntryNode, node: RingEntryNode)
    ensures M.Joined(Entries([first]), node.entry) ==
            if first.entry.ringPosition > node.entry.ringPosition then Entries([node, first]) else Entries([first, node])
  {}

  class RingEntries {
    var head: RingEntryNode
    var indexByNodeId: map<nat, RingEntryNode>
    ghost var nodes: seq<RingEntryNode>

    ghost predicate Valid()
      reads this, nodes
    {
      nodes != [] && head == nodes[0] && Distinct(nodes) && Circle(nodes) && Indexed(indexByNodeId, nodes)
    }

    /** The head was taken out: it still leads to the circle, which no longer leads to it. */
    ghost predicate HeadGone()
      reads this, nodes, head
    {
      nodes != [] && head !in nodes && head.next == nodes[0] &&
      Distinct(nodes) && Circle(nodes) && Indexed(indexByNodeId, nodes)
    }

    /** Links two or more entries in the order of their positions. */
    constructor FromEntries(entries: seq<M.RingEntry>)
      requires |entries| >= 2 && M.DistinctIds(entries) && M.DistinctPositions(entries)
      ensures Valid() && fresh(nodes) && multiset(Entries(nodes)) == multiset(entries) && M.Sorted(Entries(nodes))
    {
      var sorted := SortBy(entries, Position);
      SortedIsStrict(entries, sorted);
      var linked, index := LinkAll(sorted);
      head, indexByNodeId, nodes := linked[0], index, linked;
    }

    /** Links a second node to a lone one; the one with the smaller position is the head. */
    method AddSecond(node: RingEntryNode)
      requires Valid() && |nodes| == 1 && node !in nodes && node.entry.nodeId !in indexByNodeId
      modifies this, nodes, node
      ensures Valid() && Entries(nodes) == M.Joined(old(Entries(nodes)), node.entry)
      ensures forall n :: n in nodes ==> n == node || n in old(nodes)
    {
      var first := head;
      assert nodes == [first];
      PairIndexed(indexByNodeId, first, node);
      PairEntries(first, node);
      TiePair(first, node);
      indexByNodeId := indexByNodeId[node.entry.nodeId := node];
      if first.entry.ringPosition > node.entry.ringPosition {
        head := node;
        nodes := [node, first];
      } else {
        nodes := [first, node];
      }
    }

    /** Links a node into a circle of two or more. */
    method AddBetween(node: RingEntryNode, size: nat)
      requires Valid() && size == |nodes| >= 2 && node !in nodes && node.entry.nodeId !in indexByNodeId
      modifies this, nodes, node
      ensures Valid() && Entries(nodes) == M.Joined(old(Entries(nodes)), node.entry)
      ensures exists at :: 0 <= at <= |old(nodes)| && nodes == PutIn(old(nodes), node, at)
    {
      var before, after, at := FindPlace(head, nodes, node.entry.ringPosition, size);
      IndexedPutIn(indexByNodeId, nodes, node, at);
      EntriesPutIn(nodes, node, at);
      Splice(nodes, node, at, before, after);
      indexByNodeId := indexByNodeId[node.entry.nodeId := node];
      nodes := PutIn(nodes, node, at);
    }

    /** Adds a node, unless its id is known already. */
    method Add(entry: M.RingEntry)
      requires Valid()
      modifies this, nodes
      ensures Valid() && (forall n :: n in nodes && n !in old(nodes) ==> fresh(n))
      ensures Entries(nodes) ==
              if entry.nodeId in old(indexByNodeId) then old(Entries(nodes)) else M.Joined(old(Entries(nodes)), entry)
    {
      if entry.nodeId in indexByNodeId {
        return;
      }
      SizeIs(indexByNodeId, nodes);
      var size := |indexByNodeId|;
      var node := new RingEntryNode(entry);
      if size == 1 {
        AddSecond(node);
      } else {
        AddBetween(node, size);
      }
    }

    /** Takes a node out; an unknown id is an error. The head stays the head even when it is the one taken out. */
    method DeleteByNodeId(nodeId: nat) returns (ok: bool)
      requires Valid()
      modifies this, nodes
      ensures head == old(head) && (ok <==> nodeId in old(indexByNodeId))
      ensures !ok ==> Valid() && nodes == old(nodes)
      ensures ok ==> exists i :: 0 <= i < |old(nodes)| && old(nodes)[i].entry.nodeId == nodeId &&
                                 nodes == LeaveOut(old(nodes), i) && Entries(nodes) == M.Without(old(Entries(nodes)), i)
      ensures ok && nodeId != head.entry.nodeId ==> Valid()
      ensures nodeId == head.entry.nodeId && nodes != [] ==> HeadGone()
    {
      if nodeId !in indexByNodeId {
        return false;
      }
      var node := indexByNodeId[nodeId];
      ghost var at := IndexOf(nodeId);
      SameId(indexByNodeId, nodes, at, 0);
      HeadLeftOut(nodes, at);
      EntriesLeaveOut(nodes, at);
      TakeOut(node, at);
      return true;
    }

    method TakeOut(node: RingEntryNode, ghost at: nat)
      requires Valid() && at < |nodes| && node == nodes[at]
      modifies this, nodes
      ensures head == old(head) && nodes == LeaveOut(old(nodes), at) && node.next == old(node.next)
      ensures node !in nodes && Distinct(nodes) && Circle(nodes) && Indexed(indexByNodeId, nodes)
    {
      IndexedLeaveOut(indexByNodeId, nodes, at);
      Unlink(nodes, node, at);
      indexByNodeId := indexByNodeId - {node.entry.nodeId};
      nodes := LeaveOut(nodes, at);
    }

    /** Where in the circle the node with an id is. */
    ghost function IndexOf(nodeId: nat): (i: nat)
      requires Valid() && nodeId in indexByNodeId
      reads this, nodes
      ensures i < |nodes| && nodes[i] == indexByNodeId[nodeId] && Entries(nodes)[i].nodeId == nodeId
    {
      var i :| 0 <= i < |nodes| && nodes[i] == indexByNodeId[nodeId];
      i
    }

    /** The entry a position is taken to belong to. */
    method GetRingEntryBelongsToPosition(position: nat) returns (entry: M.RingEntry)
      requires Valid() || HeadGone()
      ensures Valid() ==> entry == Entries(nodes)[M.Owner(Entries(nodes), position)]
      ensures HeadGone() ==> entry == M.OwnerPastHead(head.entry, Entries(nodes), position)
    {
      ghost var ring := Entries(nodes);
      ghost var gone := head !in nodes;
      SizeIs(indexByNodeId, nodes);
      var size := |indexByNodeId|;
      var iterations := 0;
      var actual, nextToActual := head, head;
      entry := head.entry;
      while size >= iterations
        invariant size == |nodes| && iterations <= size + 1 && (!gone ==> iterations < size)
        invariant nextToActual == if !gone then nodes[iterations] else if iterations == 0 then head
                                  else nodes[if iterations == size + 1 then 0 else iterations - 1]
        invariant !gone ==> M.Owner(ring, position) == M.OwnerFrom(ring, position, iterations)
        invariant gone ==> M.OwnerPastHead(head.entry, ring, position) == M.PastHeadFrom(head.entry, ring, position, iterations)
      {
        actual := nextToActual;
        nextToActual := actual.next;
        if (actual.entry.ringPosition <= position && nextToActual.entry.ringPosition > position) || nextToActual == head {
          return actual.entry;
        }
        iterations := iterations + 1;
      }
    }

    /** The signed shortest distance between two nodes; unknown ids are errors. */
    method GetDistance(nodeA: nat, nodeB: nat) returns (distance: Option<int>)
      requires Valid()
      ensures distance.Some? <==> nodeA in indexByNodeId && nodeB in indexByNodeId
      ensures distance.Some? ==> distance.value == M.Distance(|nodes|, IndexOf(nodeA), IndexOf(nodeB))
    {
      if nodeA !in indexByNodeId || nodeB !in indexByNodeId {
        return None;
      }
      SizeIs(indexByNodeId, nodes);
      var apart := WalkApart(indexByNodeId[nodeA], indexByNodeId[nodeB], |indexByNodeId|, indexByNodeId, nodes,
                             IndexOf(nodeA), IndexOf(nodeB));
      return Some(apart);
    }

    /** At most so many nodes that follow a node; an unknown id is an error. */
    method GetNeighborsClockwise(nodeId: nat, numberNeighbors: nat) returns (neighbors: Option<M.Ring>)
      requires Valid()
      ensures neighbors.Some? <==> nodeId in indexByNodeId
      ensures neighbors.Some? ==> neighbors.value == M.NeighborsClockwise(Entries(nodes), IndexOf(nodeId), numberNeighbors)
    {
      if nodeId !in indexByNodeId {
        return None;
      }
      var list := Following(indexByNodeId[nodeId], numberNeighbors, nodes, IndexOf(nodeId));
      return Some(list);
    }

    /** At most so many nodes before a node; an unknown id is an error. */
    method GetNeighborsCounterClockwise(nodeId: nat, numberNeighbors: nat) returns (neighbors: Option<M.Ring>)
      requires Valid()
      ensures neighbors.Some? <==> nodeId in indexByNodeId
      ensures neighbors.Some? ==> neighbors.value == M.NeighborsCounterClockwise(Entries(nodes), IndexOf(nodeId), numberNeighbors)
    {
      if nodeId !in indexByNodeId {
        return None;
      }
      var list := Preceding(indexByNodeId[nodeId], numberNeighbors, nodes, IndexOf(nodeId));
      return Some(list);
    }

    method GetDistanceClockwise(nodeA: nat, nodeB: nat) returns (distance: Option<int>)
      requires Valid()
      ensures distance.Some? <==> nodeA in indexByNodeId && nodeB in indexByNodeId
      ensures distance.Some? ==> distance.value == M.Clockwise(|nodes|, IndexOf(nodeA), IndexOf(nodeB))
    {
      var d := GetDistance(nodeA, nodeB);
      if d.None? {
        return None;
      }
      SizeIs(indexByNodeId, nodes);
      return Some(if d.value < 0 then |indexByNodeId| - M.Abs(d.value) else d.value);
    }

    method GetDistanceCounterClockwise(nodeA: nat, nodeB: nat) returns (distance: Option<int>)
      requires Valid()
      ensures distance.Some? <==> nodeA in indexByNodeId && nodeB in indexByNodeId
      ensures distance.Some? ==> distance.value == M.Clockwise(|nodes|, IndexOf(nodeB), IndexOf(nodeA))
    {
      var d := GetDistance(nodeA, nodeB);
      if d.None? {
        return None;
      }
      SizeIs(indexByNodeId, nodes);
      return Some(if d.value > 0 then |indexByNodeId| - d.value else M.Abs(d.value));
    }

    /** Whether a node accepts the keys of a position. */
    method CanHoldKey(selfId: nat, position: nat, nodesPerPartition: nat) returns (holds: Option<bool>)
      requires Valid()
      ensures holds.Some? <==> selfId in indexByNodeId
      ensures holds.Some? ==> holds.value == M.CanHold(Entries(nodes), position, nodesPerPartition, IndexOf(selfId))
    {
      var owner := GetRingEntryBelongsToPosition(position);
      ghost var o := M.Owner(Entries(nodes), position);
      assert nodes[o].entry == owner;
      var d := GetDistance(selfId, owner.nodeId);
      if d.None? {
        return None;
      }
      SameId(indexByNodeId, nodes, o, IndexOf(owner.nodeId));
      return Some(M.Abs(d.value) < nodesPerPartition);
    }
  }

  lemma NextTurn(nodes: seq<RingEntryNode>, i: nat, steps: nat)
    requires Circle(nodes) && i < |nodes| && steps < |nodes|
    ensures nodes[M.Turn(i, steps, |nodes|)].next == nodes[M.Turn(i, steps + 1, |nodes|)]
    ensures nodes[M.TurnBack(i, steps, |nodes|)].back == nodes[M.TurnBack(i, steps + 1, |nodes|)]
  {
    M.OneOn(|nodes|, i, steps);
  }

  /** Walks on from two nodes at once until one meets the other's start. */
  method WalkApart(pointerA: RingEntryNode, pointerB: RingEntryNode, size: nat, ghost index: map<nat, RingEntryNode>,
                   ghost nodes: seq<RingEntryNode>, ghost i: nat, ghost j: nat) returns (distance: int)
    requires Distinct(nodes) && Circle(nodes) && Indexed(index, nodes) && size == |nodes|
    requires i < size && j < size && pointerA == nodes[i] && pointerB == nodes[j]
    ensures distance == M.Distance(size, i, j)
  {
    var iterations := 0;
    var actualA, actualB := pointerA, pointerB;
    distance := 0;
    while size >= iterations
      invariant iterations <= M.Abs(M.Distance(size, i, j))
      invariant actualA == nodes[M.Turn(i, iterations, size)] && actualB == nodes[M.Turn(j, iterations, size)]
    {
      M.Meeting(size, i, j, iterations);
      SameId(index, nodes, M.Turn(i, iterations, size), j);
      SameId(index, nodes, M.Turn(j, iterations, size), i);
      if actualA.entry.nodeId == pointerB.entry.nodeId {
        return iterations;
      }
      if actualB.entry.nodeId == pointerA.entry.nodeId {
        return -iterations;
      }
      NextTurn(nodes, i, iterations);
      NextTurn(nodes, j, iterations);
      actualA, actualB := actualA.next, actualB.next;
      iterations := iterations + 1;
    }
  }

  method Following(start: RingEntryNode, count: nat, ghost nodes: seq<RingEntryNode>, ghost i: nat) returns (list: M.Ring)
    requires Distinct(nodes) && Circle(nodes) && i < |nodes| && start == nodes[i]
    ensures list == M.NeighborsClockwise(Entries(nodes), i, count)
  {
    ghost var n := |nodes|;
    list := [];
    var actual := start;
    var taken := 0;
    while taken < count
      invariant taken <= M.Reach(n, count) && taken == |list| && taken <= n && actual == nodes[M.Turn(i, taken, n)]
      invariant forall x :: 0 <= x < taken ==> list[x] == nodes[M.Turn(i, x + 1, n)].entry
    {
      if taken > 0 && actual.next == start {
        break;
      }
      NextTurn(nodes, i, taken);
      actual := actual.next;
      list := list + [actual.entry];
      taken := taken + 1;
    }
  }

  method Preceding(start: RingEntryNode, count: nat, ghost nodes: seq<RingEntryNode>, ghost i: nat) returns (list: M.Ring)
    requires Distinct(nodes) && Circle(nodes) && i < |nodes| && start == nodes[i]
    ensures list == M.NeighborsCounterClockwise(Entries(nodes), i, count)
  {
    ghost var n := |nodes|;
    list := [];
    var actual := start;
    var taken := 0;
    while taken < count
      invariant taken <= M.Reach(n, count) && taken == |list| && taken <= n && actual == nodes[M.TurnBack(i, taken, n)]
      invariant forall x :: 0 <= x < taken ==> list[x] == nodes[M.TurnBack(i, x + 1, n)].entry
    {
      if taken > 0 && actual.back == start {
        break;
      }
      NextTurn(nodes, i, taken);
      actual := actual.back;
      list := list + [actual.entry];
      taken := taken + 1;
    }
  }

  lemma SameId(index: map<nat, RingEntryNode>, nodes: seq<RingEntryNode>, i: nat, j: nat)
    requires Indexed(index, nodes) && Distinct(nodes) && i < |nodes| && j < |nodes|
    ensures nodes[i].entry.nodeId == nodes[j].entry.nodeId <==> i == j
  {
    if nodes[i].entry.nodeId == nodes[j].entry.nodeId {
      assert nodes[i] == index[nodes[i].entry.nodeId] == nodes[j];
    }
  }

  lemma {:induction false} SizeIs(index: map<nat, RingEntryNode>, nodes: seq<RingEntryNode>)
    requires Indexed(index, nodes) && Distinct(nodes)
    ensures |index| == |nodes|
  {
    if nodes == [] {
      assert index.Keys == {};
    } else {
      var n := |nodes| - 1;
      var id := nodes[n].entry.nodeId;
      IndexedLeaveOut(index, nodes, n);
      assert LeaveOut(nodes, n) == nodes[..n];
      SizeIs(index - {id}, nodes[..n]);
      assert index.Keys == (index - {id}).Keys + {id};
    }
  }

  lemma IndexedLeaveOut(index: map<nat, RingEntryNode>, nodes: seq<RingEntryNode>, at: nat)
    requires Indexed(index, nodes) && Distinct(nodes) && at < |nodes|
    ensures Indexed(index - {nodes[at].entry.nodeId}, LeaveOut(nodes, at))
  {
    var rest, id := LeaveOut(nodes, at), nodes[at].entry.nodeId;
    forall i | 0 <= i < |rest|
      ensures rest[i].entry.nodeId != id && rest[i].entry.nodeId in index && index[rest[i].entry.nodeId] == rest[i]
    {
      LeaveOutAt(nodes, at, i);
    }
    forall x | x in index && x != id ensures index[x] in rest && index[x].entry.nodeId == x {
      var j :| 0 <= j < |nodes| && nodes[j] == index[x];
      assert j != at;
      LeaveOutAt(nodes, at, if j < at then j else j - 1);
    }
  }

  lemma SortedIsStrict(entries: seq<M.RingEntry>, sorted: seq<M.RingEntry>)
    requires M.DistinctIds(entries) && M.DistinctPositions(entries)
    requires SortedBy(sorted, Position) && multiset(sorted) == multiset(entries)
    ensures M.Sorted(sorted) && M.DistinctIds(sorted) && |sorted| == |entries|
  {
    assert |sorted| == |multiset(sorted)| == |entries|;
    EachOnce(entries);
    forall i, j | 0 <= i < j < |sorted|
      ensures sorted[i].ringPosition < sorted[j].ringPosition && sorted[i].nodeId != sorted[j].nodeId
    {
      TwoPlaces(sorted, i, j);
      assert sorted[i] in multiset(entries) && sorted[j] in multiset(entries);
      var a :| 0 <= a < |entries| && entries[a] == sorted[i];
      var b :| 0 <= b < |entries| && entries[b] == sorted[j];
      assert Position(sorted[i]) <= Position(sorted[j]);
    }
  }

  /** A list without repetitions holds nothing twice. */
  lemma {:induction false} EachOnce(s: seq<M.RingEntry>)
    requires M.DistinctIds(s)
    ensures forall x :: multiset(s)[x] <= 1
  {
    if s == [] {
    } else {
      var n := |s| - 1;
      EachOnce(s[..n]);
      assert s == s[..n] + [s[n]];
      assert s[n] !in s[..n];
    }
  }

  lemma TwoPlaces(s: seq<M.RingEntry>, i: nat, j: nat)
    requires i < j < |s|
    ensures s[i] == s[j] ==> multiset(s)[s[i]] >= 2
  {
    assert s == s[..j] + ([s[j]] + s[j + 1..]);
    assert s[i] in s[..j];
  }
}
