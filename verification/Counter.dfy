/** One distributed counter: for each node, how many increments and decrements of that node are known. */
module CounterModel {
  import opened Arithmetic

  datatype PN = PN(inc: int, dec: int)

  datatype Request = Request(otherNodeId: nat, isIncrement: bool, newValue: int, lastSeenInc: int, lastSeenDec: int)

  /** The values to catch up to; zero where the requester needs nothing. */
  datatype Response = Response(incToSync: int, decToSync: int)

  function MergeInc(s: PN, value: int): PN {
    s.(inc := Max(s.inc, value))
  }

  function MergeDec(s: PN, value: int): PN {
    s.(dec := Max(s.dec, value))
  }

  function Merge(s: PN, isIncrement: bool, value: int): PN {
    if isIncrement then MergeInc(s, value) else MergeDec(s, value)
  }

  /** A node answers with its own counts where the requester has seen less. */
  function Answer(own: PN, r: Request): Response {
    Response(if r.lastSeenInc < own.inc then own.inc else 0, if r.lastSeenDec < own.dec then own.dec else 0)
  }

  /** What the requester makes of an answer: it takes over each count that is not zero. */
  function Synced(s: PN, r: Response): PN {
    var t := if r.incToSync > 0 then MergeInc(s, r.incToSync) else s;
    if r.decToSync > 0 then MergeDec(t, r.decToSync) else t
  }

  function Bump(s: PN, isIncrement: bool): PN {
    if isIncrement then s.(inc := s.inc + 1) else s.(dec := s.dec + 1)
  }

  predicate Leq(s: PN, t: PN) {
    s.inc <= t.inc && s.dec <= t.dec
  }

  /** An answer that makes the requester write something. */
  predicate Tells(r: Response) {
    r.incToSync > 0 || r.decToSync > 0
  }

  const TWO_32 := 0x1_0000_0000

  /** Sixty-four bits taken for a signed number. */
  function Signed(x: nat): int {
    if x < 0x8000_0000_0000_0000 then x else x - 0x1_0000_0000_0000_0000
  }

  /** What the receiver of a request reads of the last seen counts, each sent in two halves: the increments, and for the
      decrements the low half of the increments with the high half of the decrements. */
  function Received(seen: PN): PN {
    PN(seen.inc, Signed((seen.inc % TWO_32) * TWO_32 + seen.dec / TWO_32 % TWO_32))
  }

  /** The seen increments do not get in the way of the decrements. */
  predicate Unhidden(seen: PN) {
    seen.inc % TWO_32 == 0 || seen.inc % TWO_32 >= 0x8000_0000
  }

  /** Otherwise nobody with at most 2^32 decrements answers with them. */
  lemma DecrementsHidden(seen: PN, own: PN, otherNodeId: nat, isIncrement: bool, value: int)
    requires !Unhidden(seen) && own.dec <= TWO_32
    ensures Answer(own, Request(otherNodeId, isIncrement, value, Received(seen).inc, Received(seen).dec)).decToSync == 0
  {}

  lemma UnhiddenReceived(seen: PN)
    requires Leq(PN(0, 0), seen) && Unhidden(seen)
    ensures Received(seen).dec <= seen.dec
  {}

  // ---- slots ----

  /** The slot of a node in the order in which slots were given out, or the next one. */
  function Slot(order: seq<nat>, nodeId: nat): (s: nat)
    ensures s <= |order| && (s < |order| ==> order[s] == nodeId) && (s == |order| <==> nodeId !in order)
    ensures forall t :: 0 <= t < s ==> order[t] != nodeId
  {
    if order == [] || order[0] == nodeId then 0 else 1 + Slot(order[1..], nodeId)
  }

  function Given(order: seq<nat>, nodeId: nat): seq<nat> {
    if nodeId in order then order else order + [nodeId]
  }

  function At(rows: seq<PN>, slot: nat): PN {
    if slot < |rows| then rows[slot] else PN(0, 0)
  }

  /** The arrays with room for a slot: the same, or new ones that end with it. */
  function Resized(rows: seq<PN>, slot: nat): (r: seq<PN>)
    ensures slot < |r| && forall s: nat :: At(r, s) == At(rows, s)
  {
    if slot < |rows| then rows else rows + seq(slot + 1 - |rows|, _ => PN(0, 0))
  }

  function PutRow(rows: seq<PN>, slot: nat, value: PN): seq<PN> {
    Resized(rows, slot)[slot := value]
  }

  lemma PutAt(rows: seq<PN>, slot: nat, value: PN, s: nat)
    ensures At(PutRow(rows, slot, value), s) == if s == slot then value else At(rows, s)
  {
    assert At(Resized(rows, slot), s) == At(rows, s);
  }

  function Zipped(incs: seq<int>, decs: seq<int>): seq<PN>
    requires |incs| == |decs|
  {
    seq(|incs|, i requires 0 <= i < |incs| => PN(incs[i], decs[i]))
  }

  function Sum(s: seq<int>): int {
    if s == [] then 0 else Sum(s[..|s| - 1]) + s[|s| - 1]
  }

  lemma SumStep(s: seq<int>, k: nat)
    requires 0 < k <= |s|
    ensures Sum(s[..k]) == Sum(s[..k - 1]) + s[k - 1]
  {
    assert s[..k][..k - 1] == s[..k - 1];
  }
}

/** The counter in memory: two arrays of slots, reached through a table that gives each node id the next free slot
    the first time it is asked for. */
module CounterArray {
  import opened Arithmetic
  import opened CounterModel

  class CounterArrayIndexMapper {
    var indexByNodeId: map<nat, nat>
    var lastIndexAssigned: int
    ghost var order: seq<nat>  // node ids by slot

    /** Slots are handed out densely and each to one node. */
    ghost predicate Valid()
      reads this
    {
      && lastIndexAssigned == |order| - 1
      && (forall i :: 0 <= i < |order| ==> order[i] in indexByNodeId && indexByNodeId[order[i]] == i)
      && (forall n :: n in indexByNodeId ==> indexByNodeId[n] < |order| && order[indexByNodeId[n]] == n)
    }

    constructor ()
      ensures Valid() && order == []
    {
      indexByNodeId, lastIndexAssigned, order := map[], -1, [];
    }

    ghost function IndexOf(nodeId: nat): nat
      reads this
    {
      if nodeId in indexByNodeId then indexByNodeId[nodeId] else |order|
    }

    /** The node has its slot: the one it had, or the next. */
    twostate predicate Gave(nodeId: nat)
      reads this
    {
      order == if nodeId in old(indexByNodeId) then old(order) else old(order) + [nodeId]
    }

    method GetIndex(nodeId: nat) returns (index: nat)
      requires Valid()
      modifies this
      ensures Valid() && nodeId in indexByNodeId && index == indexByNodeId[nodeId] == old(IndexOf(nodeId))
      ensures indexByNodeId == old(indexByNodeId)[nodeId := index]
      ensures Gave(nodeId)
    {
      if nodeId in indexByNodeId {
        index := indexByNodeId[nodeId];
      } else {
        lastIndexAssigned := lastIndexAssigned + 1;
        index := lastIndexAssigned;
        indexByNodeId := indexByNodeId[nodeId := index];
        order := order + [nodeId];
      }
    }
  }

  class Counter {
    const selfNodeId: nat
    const mapper: CounterArrayIndexMapper
    var nIncrements: array<int>
    var nDecrements: array<int>
    var nNodes: nat

    /** The arrays have the stated size and every slot not yet given out is zero. */
    ghost predicate Valid()
      reads this, mapper, nIncrements, nDecrements
    {
      && mapper.Valid()
      && nIncrements != nDecrements && nIncrements.Length == nNodes && nDecrements.Length == nNodes
      && (forall i :: 0 <= i < nNodes && |mapper.order| <= i ==> nIncrements[i] == 0 && nDecrements[i] == 0)
    }

    /** What is known of a node. */
    ghost function View(nodeId: nat): PN
      requires Valid()
      reads this, mapper, nIncrements, nDecrements
    {
      if nodeId in mapper.indexByNodeId then AtSlot(mapper.indexByNodeId[nodeId]) else PN(0, 0)
    }

    ghost function AtSlot(i: nat): PN
      requires nIncrements.Length == nDecrements.Length == nNodes
      reads this, nIncrements, nDecrements
    {
      if i < nNodes then PN(nIncrements[i], nDecrements[i]) else PN(0, 0)
    }

    /** The two arrays, slot by slot. */
    ghost function Rows(): (rows: seq<PN>)
      requires nIncrements.Length == nDecrements.Length == nNodes
      reads this, nIncrements, nDecrements
      ensures |rows| == nNodes && forall i: nat :: At(rows, i) == AtSlot(i)
    {
      Zipped(nIncrements[..], nDecrements[..])
    }

    lemma SlotIsIndex(nodeId: nat)
      requires Valid()
      ensures Slot(mapper.order, nodeId) == mapper.IndexOf(nodeId) && View(nodeId) == At(Rows(), Slot(mapper.order, nodeId))
    {
      var s := Slot(mapper.order, nodeId);
      if s < |mapper.order| {
        assert mapper.order[s] == nodeId;
      }
    }

    /** The slot a node has, or would be given, lies within the arrays. */
    ghost predicate Fits(nodeId: nat)
      reads this, mapper
    {
      mapper.IndexOf(nodeId) < nNodes
    }

    /** Everything but the two slots of `nodeId` is as it was. */
    twostate predicate OthersSame(nodeId: nat)
      requires old(Valid()) && Valid()
      reads this, mapper, nIncrements, nDecrements
    {
      forall n :: n != nodeId ==> View(n) == old(View(n))
    }

    constructor (selfNodeId: nat, nNodes: nat)
      ensures Valid() && fresh(mapper) && fresh(nIncrements) && fresh(nDecrements)
      ensures this.selfNodeId == selfNodeId && this.nNodes == nNodes && mapper.order == []
      ensures forall n :: View(n) == PN(0, 0)
    {
      this.selfNodeId, this.nNodes := selfNodeId, nNodes;
      mapper := new CounterArrayIndexMapper();
      nIncrements := new int[nNodes](_ => 0);
      nDecrements := new int[nNodes](_ => 0);
    }

    /** The node's own slot must lie within the arrays: this does not resize. */
    method Increment() returns (value: int)
      requires Valid() && Fits(selfNodeId)
      modifies mapper, nIncrements
      ensures Valid() && Fits(selfNodeId)
      ensures View(selfNodeId) == Bump(old(View(selfNodeId)), true) && value == View(selfNodeId).inc
      ensures OthersSame(selfNodeId) && mapper.Gave(selfNodeId)
    {
      var i := mapper.GetIndex(selfNodeId);
      nIncrements[i] := nIncrements[i] + 1;
      value := nIncrements[i];
    }

    method Decrement() returns (value: int)
      requires Valid() && Fits(selfNodeId)
      modifies mapper, nDecrements
      ensures Valid() && Fits(selfNodeId)
      ensures View(selfNodeId) == Bump(old(View(selfNodeId)), false) && value == View(selfNodeId).dec
      ensures OthersSame(selfNodeId) && mapper.Gave(selfNodeId)
    {
      var i := mapper.GetIndex(selfNodeId);
      nDecrements[i] := nDecrements[i] + 1;
      value := nDecrements[i];
    }

    /** Makes room for slot `index`; every value survives the move to the new arrays. */
    method MaybeResizeCounters(index: nat)
      requires Valid()
      modifies this`nIncrements, this`nDecrements, this`nNodes
      ensures Valid() && index < nNodes && old(nNodes) <= nNodes
      ensures forall i :: AtSlot(i) == old(AtSlot(i))
      ensures Kept(index, old(nNodes), old(nIncrements), old(nDecrements))
    {
      if index >= nNodes {
        var incs, decs := nIncrements, nDecrements;
        var n := nNodes;
        var newIncrements := new int[index + 1](i requires 0 <= i reads incs => if i < incs.Length then incs[i] else 0);
        var newDecrements := new int[index + 1](i requires 0 <= i reads decs => if i < decs.Length then decs[i] else 0);
        nNodes := index + 1;
        nIncrements := newIncrements;
        nDecrements := newDecrements;
      }
    }

    /** Within the arrays a slot is written where it is; beyond them, both arrays are replaced. */
    twostate predicate Kept(slot: nat, size: nat, incs: array<int>, decs: array<int>)
      reads this
    {
      if slot < size then nIncrements == incs && nDecrements == decs && nNodes == size
      else fresh(nIncrements) && fresh(nDecrements) && nNodes == slot + 1
    }

    /** Finds the slot of a node, giving it one and making room if need be. No value changes. */
    method SlotOf(nodeId: nat) returns (index: nat)
      requires Valid()
      modifies this, mapper
      ensures Valid() && index < nNodes && index < |mapper.order| && old(nNodes) <= nNodes
      ensures mapper.indexByNodeId == old(mapper.indexByNodeId)[nodeId := index]
      ensures index == old(mapper.IndexOf(nodeId)) && |mapper.order| <= |old(mapper.order)| + 1
      ensures mapper.Gave(nodeId)
      ensures forall n :: View(n) == old(View(n))
      ensures Kept(index, old(nNodes), old(nIncrements), old(nDecrements))
    {
      index := mapper.GetIndex(nodeId);
      assert nodeId in mapper.indexByNodeId;
      MaybeResizeCounters(index);
    }

    method SyncIncrement(valueToSync: int, otherNodeId: nat)
      requires Valid()
      modifies this, mapper, nIncrements
      ensures Valid() && old(nNodes) <= nNodes
      ensures View(otherNodeId) == MergeInc(old(View(otherNodeId)), valueToSync) && OthersSame(otherNodeId)
      ensures mapper.indexByNodeId == old(mapper.indexByNodeId)[otherNodeId := old(mapper.IndexOf(otherNodeId))]
      ensures mapper.Gave(otherNodeId)
      ensures Kept(old(mapper.IndexOf(otherNodeId)), old(nNodes), old(nIncrements), old(nDecrements))
      ensures old(mapper.IndexOf(otherNodeId)) >= old(nNodes) ==>
                old(nIncrements)[..] == old(nIncrements[..]) && old(nDecrements)[..] == old(nDecrements[..])
    {
      var index := SlotOf(otherNodeId);
      if valueToSync > nIncrements[index] {
        nIncrements[index] := valueToSync;
      }
    }

    method SyncDecrement(valueToSync: int, otherNodeId: nat)
      requires Valid()
      modifies this, mapper, nDecrements
      ensures Valid() && old(nNodes) <= nNodes
      ensures View(otherNodeId) == MergeDec(old(View(otherNodeId)), valueToSync) && OthersSame(otherNodeId)
      ensures mapper.indexByNodeId == old(mapper.indexByNodeId)[otherNodeId := old(mapper.IndexOf(otherNodeId))]
      ensures mapper.Gave(otherNodeId)
      ensures Kept(old(mapper.IndexOf(otherNodeId)), old(nNodes), old(nIncrements), old(nDecrements))
      ensures old(mapper.IndexOf(otherNodeId)) >= old(nNodes) ==>
                old(nIncrements)[..] == old(nIncrements[..]) && old(nDecrements)[..] == old(nDecrements[..])
    {
      var index := SlotOf(otherNodeId);
      if valueToSync > nDecrements[index] {
        nDecrements[index] := valueToSync;
      }
    }

    /** Room for the requester's slot and the node's own: at creation, two slots are enough. */
    ghost predicate RoomFor(otherNodeId: nat)
      reads this, mapper
    {
      if selfNodeId in mapper.indexByNodeId || otherNodeId == selfNodeId || otherNodeId in mapper.indexByNodeId
      then Fits(selfNodeId)
      else |mapper.order| + 1 < nNodes
    }

    /** A replicate request is merged into the requester's slot and answered from the node's own. */
    method OnReplicationCounter(request: Request) returns (response: Response)
      requires Valid() && RoomFor(request.otherNodeId)
      modifies this, mapper, nIncrements, nDecrements
      ensures Valid() && selfNodeId in mapper.indexByNodeId && Fits(selfNodeId)
      ensures View(request.otherNodeId) == Merge(old(View(request.otherNodeId)), request.isIncrement, request.newValue)
      ensures var was, now := old(View(request.otherNodeId)), View(request.otherNodeId);
              if request.isIncrement
              then now.dec == was.dec && now.inc == if was.inc < request.newValue then request.newValue else was.inc
              else now.inc == was.inc && now.dec == if was.dec < request.newValue then request.newValue else was.dec
      ensures OthersSame(request.otherNodeId)
      ensures response == Answer(View(selfNodeId), request)
      ensures var own := View(selfNodeId);
              response.incToSync == (if request.lastSeenInc < own.inc then own.inc else 0) &&
              response.decToSync == (if request.lastSeenDec < own.dec then own.dec else 0)
    {
      var index := SlotOf(request.otherNodeId);
      UpdateCounterFromReplication(request);
      response := AnswerFromSelf(request);
    }

    method UpdateCounterFromReplication(request: Request)
      requires Valid() && request.otherNodeId in mapper.indexByNodeId && Fits(request.otherNodeId)
      modifies nIncrements, nDecrements
      ensures Valid() && OthersSame(request.otherNodeId)
      ensures View(request.otherNodeId) == Merge(old(View(request.otherNodeId)), request.isIncrement, request.newValue)
    {
      var index := mapper.indexByNodeId[request.otherNodeId];
      if request.isIncrement {
        if nIncrements[index] < request.newValue {
          nIncrements[index] := request.newValue;
        }
      } else {
        if nDecrements[index] < request.newValue {
          nDecrements[index] := request.newValue;
        }
      }
    }

    method AnswerFromSelf(request: Request) returns (response: Response)
      requires Valid() && Fits(selfNodeId)
      modifies mapper
      ensures Valid() && selfNodeId in mapper.indexByNodeId && Fits(selfNodeId)
      ensures forall n :: View(n) == old(View(n))
      ensures response == Answer(View(selfNodeId), request)
    {
      var self := mapper.GetIndex(selfNodeId);
      response := Response(0, 0);
      if request.lastSeenInc < nIncrements[self] {
        response := response.(incToSync := nIncrements[self]);
      }
      if request.lastSeenDec < nDecrements[self] {
        response := response.(decToSync := nDecrements[self]);
      }
    }

    /** A copy of the counter, as the replication callbacks capture it: the arrays and the table are shared. */
    constructor Copy(other: Counter)
      requires other.Valid()
      ensures Valid() && CopyOf(other) && Shares(other)
    {
      selfNodeId, mapper := other.selfNodeId, other.mapper;
      nIncrements, nDecrements, nNodes := other.nIncrements, other.nDecrements, other.nNodes;
    }

    /** This counter and `other` are copies of one: one table, and arrays that are the same or apart. */
    ghost predicate CopyOf(other: Counter)
      reads this, other
    {
      selfNodeId == other.selfNodeId && mapper == other.mapper &&
      (Shares(other) || (nIncrements != other.nIncrements && nDecrements != other.nDecrements)) &&
      nIncrements != other.nDecrements && nDecrements != other.nIncrements
    }

    /** Neither has replaced its arrays since. */
    ghost predicate Shares(other: Counter)
      reads this, other
    {
      nIncrements == other.nIncrements && nDecrements == other.nDecrements && nNodes == other.nNodes
    }

    /** An answer to a request of this node, applied to this counter. */
    method OnReplicationCounterResponse(response: Response, otherNodeId: nat)
      requires Valid()
      modifies this, mapper, nIncrements, nDecrements
      ensures Valid() && View(otherNodeId) == Synced(old(View(otherNodeId)), response) && OthersSame(otherNodeId)
      ensures selfNodeId in old(mapper.indexByNodeId) && old(Fits(selfNodeId)) ==>
                selfNodeId in mapper.indexByNodeId && Fits(selfNodeId)
      ensures if Tells(response)
              then mapper.Gave(otherNodeId) &&
                   mapper.indexByNodeId == old(mapper.indexByNodeId)[otherNodeId := old(mapper.IndexOf(otherNodeId))] &&
                   Kept(old(mapper.IndexOf(otherNodeId)), old(nNodes), old(nIncrements), old(nDecrements))
              else mapper.order == old(mapper.order) && mapper.indexByNodeId == old(mapper.indexByNodeId) &&
                   nIncrements == old(nIncrements) && nDecrements == old(nDecrements) && nNodes == old(nNodes) &&
                   nIncrements[..] == old(nIncrements[..]) && nDecrements[..] == old(nDecrements[..])
      ensures old(mapper.IndexOf(otherNodeId)) >= old(nNodes) ==>
                old(nIncrements)[..] == old(nIncrements[..]) && old(nDecrements)[..] == old(nDecrements[..])
    {
      if response.incToSync > 0 {
        SyncIncrement(response.incToSync, otherNodeId);
      }
      if response.decToSync > 0 {
        SyncDecrement(response.decToSync, otherNodeId);
      }
    }

    /** What a request reports as seen of a node: what is known of it, or nothing for a large node id. */
    method GetLastSeen(nodeId: nat) returns (seen: PN)
      requires Valid() && (nodeId < nNodes ==> Fits(nodeId))
      modifies mapper
      ensures Valid() && forall n :: View(n) == old(View(n))
      ensures seen == if nodeId < nNodes then View(nodeId) else PN(0, 0)
    {
      if nodeId >= nNodes {
        return PN(0, 0);
      }
      var i := mapper.GetIndex(nodeId);
      seen := PN(nIncrements[i], nDecrements[i]);
    }

    /** The increments, less the decrements, of all nodes this counter has heard of. */
    ghost function Total(nodes: seq<nat>): int
      requires Valid()
      reads this, mapper, nIncrements, nDecrements
    {
      if nodes == [] then 0
      else
        var v := View(nodes[|nodes| - 1]);
        Total(nodes[..|nodes| - 1]) + v.inc - v.dec
    }

    lemma TotalStep(k: nat)
      requires Valid() && 0 < k <= |mapper.order|
      ensures Total(mapper.order[..k]) == Total(mapper.order[..k - 1]) + AtSlot(k - 1).inc - AtSlot(k - 1).dec
    {
      assert mapper.order[..k][..k - 1] == mapper.order[..k - 1];
    }

    /** Slots beyond the nodes heard of, and nodes beyond the slots, add nothing. */
    lemma {:induction false} TotalIsSum(k: nat)
      requires Valid()
      ensures var o, n := Min(k, |mapper.order|), Min(k, nNodes);
              Total(mapper.order[..o]) == Sum(nIncrements[..n]) - Sum(nDecrements[..n])
    {
      if k == 0 {
      } else {
        TotalIsSum(k - 1);
        if k <= |mapper.order| {
          TotalStep(k);
        }
        if k <= nNodes {
          SumStep(nIncrements[..], k);
          SumStep(nDecrements[..], k);
          assert nIncrements[..][..k] == nIncrements[..k] && nIncrements[..][..k - 1] == nIncrements[..k - 1];
          assert nDecrements[..][..k] == nDecrements[..k] && nDecrements[..][..k - 1] == nDecrements[..k - 1];
        }
      }
    }

    method Count() returns (value: int)
      requires Valid()
      ensures value == Total(mapper.order)
    {
      value := 0;
      for i := 0 to nNodes
        invariant value == Sum(nIncrements[..i])
      {
        assert nIncrements[..i + 1][..i] == nIncrements[..i];
        value := value + nIncrements[i];
      }
      for i := 0 to nNodes
        invariant value == Sum(nIncrements[..nNodes]) - Sum(nDecrements[..i])
      {
        assert nDecrements[..i + 1][..i] == nDecrements[..i];
        value := value - nDecrements[i];
      }
      TotalIsSum(nNodes + |mapper.order|);
      assert mapper.order[..|mapper.order|] == mapper.order;
    }
  }

  /** The slots after one node's was written: what they hold follows from what is known of each node. */
  lemma RowsFromViews(c: Counter, order: seq<nat>, rows: seq<PN>, nodeId: nat, value: PN)
    requires c.Valid() && nodeId in c.mapper.order && c.mapper.order == Given(order, nodeId)
    requires |c.Rows()| == |Resized(rows, Slot(order, nodeId))|
    requires forall n :: c.View(n) == if n == nodeId then value else At(rows, Slot(order, n))
    requires forall s: nat :: |order| <= s ==> At(rows, s) == PN(0, 0)
    ensures c.Rows() == PutRow(rows, Slot(order, nodeId), value)
  {
    var rows', all := c.Rows(), PutRow(rows, Slot(order, nodeId), value);
    forall s | 0 <= s < |rows'| ensures rows'[s] == all[s] {
      PutAt(rows, Slot(order, nodeId), value, s);
      assert At(rows', s) == rows'[s] && At(all, s) == all[s];
      if s < |c.mapper.order| {
        SlotKept(c, order, nodeId, s);
      }
    }
  }

  lemma SlotKept(c: Counter, order: seq<nat>, nodeId: nat, s: nat)
    requires c.Valid() && nodeId in c.mapper.order && c.mapper.order == Given(order, nodeId) && s < |c.mapper.order|
    ensures var n := c.mapper.order[s];
            At(c.Rows(), s) == c.View(n) && Slot(order, n) == s && (s == Slot(order, nodeId) <==> n == nodeId)
  {
    var n, all := c.mapper.order[s], c.mapper.order;
    c.SlotIsIndex(n);
    c.SlotIsIndex(nodeId);
    assert c.mapper.indexByNodeId[n] == s;
    if s < |order| {
      assert all[Slot(order, n)] == n && Slot(order, n) == c.mapper.indexByNodeId[n];
    } else {
      assert n == nodeId;
    }
  }

  /** The answer callback works on a copy, as one slot of one pair of arrays is written in the protocol. It reaches the
      stored counter exactly when the answering node's slot lies in arrays that both still share. */
  method AnswerCopy(stored: Counter, copy: Counter, response: Response, otherNodeId: nat)
    requires stored != copy && stored.Valid() && copy.Valid() && copy.CopyOf(stored)
    modifies copy, copy.mapper, copy.nIncrements, copy.nDecrements
    ensures stored.Valid() && copy.Valid() && copy.CopyOf(stored)
    ensures copy.Shares(stored) <==>
            old(copy.Shares(stored)) && (Tells(response) ==> old(copy.mapper.IndexOf(otherNodeId)) < old(copy.nNodes))
    ensures copy.View(otherNodeId) == Synced(old(copy.View(otherNodeId)), response)
    ensures stored.View(otherNodeId) ==
            if old(copy.Shares(stored)) && old(copy.mapper.IndexOf(otherNodeId)) < old(copy.nNodes)
            then Synced(old(stored.View(otherNodeId)), response) else old(stored.View(otherNodeId))
    ensures forall n :: n != otherNodeId ==> stored.View(n) == old(stored.View(n)) && copy.View(n) == old(copy.View(n))
    ensures copy.mapper.order == if Tells(response) then Given(old(copy.mapper.order), otherNodeId) else old(copy.mapper.order)
    ensures copy.Rows() == if Tells(response)
                           then PutRow(old(copy.Rows()), Slot(old(copy.mapper.order), otherNodeId),
                                       Synced(old(copy.View(otherNodeId)), response))
                           else old(copy.Rows())
  {
    ghost var slot, incs, decs := copy.mapper.IndexOf(otherNodeId), stored.nIncrements[..], stored.nDecrements[..];
    ghost var reaches := copy.Shares(stored) && slot < copy.nNodes;
    AnswerRows(copy, response, otherNodeId);
    if reaches {
      assert forall n :: stored.View(n) == copy.View(n);
    } else {
      assert stored.nIncrements[..] == incs && stored.nDecrements[..] == decs;
      assert forall i :: 0 <= i < stored.nNodes ==> stored.nIncrements[i] == incs[i] && stored.nDecrements[i] == decs[i];
    }
  }

  /** An answer applied to a counter, slot by slot. */
  method AnswerRows(copy: Counter, response: Response, otherNodeId: nat)
    requires copy.Valid()
    modifies copy, copy.mapper, copy.nIncrements, copy.nDecrements
    ensures copy.Valid() && copy.View(otherNodeId) == Synced(old(copy.View(otherNodeId)), response)
    ensures copy.OthersSame(otherNodeId)
    ensures if Tells(response)
            then copy.mapper.Gave(otherNodeId) &&
                 copy.mapper.indexByNodeId ==
                   old(copy.mapper.indexByNodeId)[otherNodeId := old(copy.mapper.IndexOf(otherNodeId))] &&
                 copy.Kept(old(copy.mapper.IndexOf(otherNodeId)), old(copy.nNodes), old(copy.nIncrements), old(copy.nDecrements))
            else copy.mapper.order == old(copy.mapper.order) && copy.mapper.indexByNodeId == old(copy.mapper.indexByNodeId) &&
                 copy.nIncrements == old(copy.nIncrements) && copy.nDecrements == old(copy.nDecrements) &&
                 copy.nNodes == old(copy.nNodes)
    ensures old(copy.mapper.IndexOf(otherNodeId)) >= old(copy.nNodes) ==>
              old(copy.nIncrements)[..] == old(copy.nIncrements[..]) && old(copy.nDecrements)[..] == old(copy.nDecrements[..])
    ensures copy.Rows() == if Tells(response)
                           then PutRow(old(copy.Rows()), Slot(old(copy.mapper.order), otherNodeId),
                                       Synced(old(copy.View(otherNodeId)), response))
                           else old(copy.Rows())
  {
    ghost var order, rows, was := copy.mapper.order, copy.Rows(), copy.View(otherNodeId);
    forall n ensures copy.View(n) == At(rows, Slot(order, n)) && Slot(order, n) == copy.mapper.IndexOf(n) {
      copy.SlotIsIndex(n);
    }
    copy.OnReplicationCounterResponse(response, otherNodeId);
    if Tells(response) {
      RowsFromViews(copy, order, rows, otherNodeId, Synced(was, response));
    }
  }

  /** A counter made with two slots; the nodes 0 and 1 have them. */
  method TwoSlots() returns (stored: Counter)
    ensures stored.Valid() && fresh(stored) && fresh(stored.mapper) && fresh(stored.nIncrements) && fresh(stored.nDecrements)
    ensures stored.nNodes == 2 && stored.mapper.order == [0, 1]
    ensures stored.View(1) == PN(3, 0) && forall n :: n >= 2 ==> stored.View(n) == PN(0, 0)
  {
    stored := new Counter(0, 2);
    var value := stored.Increment();
    stored.SyncIncrement(3, 1);
  }

  /** The answer of a third node is lost on the copy. */
  method ThirdAnswerIsLost() returns (stored: Counter, copy: Counter)
    ensures stored.Valid() && copy.Valid() && copy.View(2) == PN(5, 0) && stored.View(2) == PN(0, 0)
  {
    stored := TwoSlots();
    copy := new Counter.Copy(stored);
    AnswerCopy(stored, copy, Response(5, 0), 2);
  }

  /** A stored counter that has left its first arrays for larger ones, and two copies that have not. */
  method Outgrown() returns (stored: Counter, copy: Counter, other: Counter)
    ensures stored.Valid() && copy.Valid() && other.Valid() && other.CopyOf(copy) && other.Shares(copy) && other != copy
    ensures fresh(other) && fresh(other.mapper) && fresh(other.nIncrements) && fresh(other.nDecrements)
    ensures stored != other && stored.mapper == other.mapper && 1 in other.mapper.indexByNodeId
    ensures {stored.nIncrements, stored.nDecrements} !! {other.nIncrements, other.nDecrements}
    ensures copy.View(1) == PN(3, 0) && stored.View(1) == PN(3, 0) && other.mapper.IndexOf(1) < other.nNodes
  {
    stored := TwoSlots();
    copy := new Counter.Copy(stored);
    other := new Counter.Copy(stored);
    stored.SyncIncrement(1, 2);
  }

  /** A copy may know more than the stored counter: an answer applied to one copy is what another one, with the same
      arrays, reports. */
  method CopyGetsAhead() returns (stored: Counter, copy: Counter)
    ensures stored.Valid() && copy.Valid() && copy.View(1) == PN(5, 0) && stored.View(1) == PN(3, 0)
  {
    var other;
    stored, copy, other := Outgrown();
    AnswerCopy(copy, other, Response(5, 0), 1);
  }
}
