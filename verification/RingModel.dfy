/** The ring of nodes as a circular sequence, its first element the head: who owns a position, how far nodes are from
    each other, and which nodes hold a key. */
module RingModel {
  import opened Arithmetic

  datatype RingEntry = RingEntry(nodeId: nat, ringPosition: nat)

  type Ring = seq<RingEntry>

  predicate Sorted(ring: Ring) {
    forall i, j :: 0 <= i < j < |ring| ==> ring[i].ringPosition < ring[j].ringPosition
  }

  predicate DistinctPositions(ring: Ring) {
    forall i, j :: 0 <= i < j < |ring| ==> ring[i].ringPosition != ring[j].ringPosition
  }

  function Succ(i: nat, n: nat): nat
    requires i < n
  {
    if i + 1 == n then 0 else i + 1
  }

  function Pred(i: nat, n: nat): nat
    requires i < n
  {
    if i == 0 then n - 1 else i - 1
  }

  // ---- Ownership ----

  predicate OwnsAt(ring: Ring, position: nat, i: nat)
    requires i + 1 < |ring|
  {
    ring[i].ringPosition <= position < ring[i + 1].ringPosition
  }

  /** The walk from the head, from element `i` on: the first whose successor lies beyond the position, or the last. */
  function OwnerFrom(ring: Ring, position: nat, i: nat): (o: nat)
    requires i < |ring|
    ensures i <= o < |ring|
    decreases |ring| - i
  {
    if i + 1 == |ring| || OwnsAt(ring, position, i) then i else OwnerFrom(ring, position, i + 1)
  }

  function Owner(ring: Ring, position: nat): (o: nat)
    requires ring != []
    ensures o < |ring|
  {
    OwnerFrom(ring, position, 0)
  }

  /** What ownership means: the greatest position not above the given one, or the greatest of all when none is. */
  predicate Owns(ring: Ring, position: nat, o: nat)
    requires o < |ring|
  {
    if exists i :: 0 <= i < |ring| && ring[i].ringPosition <= position then
      ring[o].ringPosition <= position &&
      forall i :: 0 <= i < |ring| && ring[i].ringPosition <= position ==> ring[i].ringPosition <= ring[o].ringPosition
    else
      forall i :: 0 <= i < |ring| ==> ring[i].ringPosition <= ring[o].ringPosition
  }

  lemma {:induction false} SortedOwnerFrom(ring: Ring, position: nat, i: nat)
    requires Sorted(ring) && i < |ring| && (i > 0 ==> !(position < ring[i].ringPosition) || position < ring[0].ringPosition)
    ensures Owns(ring, position, OwnerFrom(ring, position, i))
    decreases |ring| - i
  {
    if i + 1 == |ring| || OwnsAt(ring, position, i) {
    } else {
      assert ring[i].ringPosition < ring[i + 1].ringPosition;
      assert i == 0 || ring[0].ringPosition < ring[i].ringPosition;
      SortedOwnerFrom(ring, position, i + 1);
    }
  }

  /** The walk passes the elements whose successor is not beyond the position. */
  lemma {:induction false} OwnerFromStops(ring: Ring, position: nat, i: nat)
    requires i < |ring|
    ensures var o := OwnerFrom(ring, position, i); o + 1 == |ring| || OwnsAt(ring, position, o)
    decreases |ring| - i
  {
    if i + 1 == |ring| || OwnsAt(ring, position, i) {
    } else {
      OwnerFromStops(ring, position, i + 1);
    }
  }

  /** The walk that starts at a head no longer in the circle: the head, then once round, back to the first, with the
      head as the answer when no element's successor lies beyond the position. */
  function PastHeadFrom(gone: RingEntry, ring: Ring, position: nat, i: nat): RingEntry
    requires ring != [] && i <= |ring| + 1
    decreases |ring| + 1 - i
  {
    if i == |ring| + 1 then gone
    else
      var at := if i == 0 then gone else ring[i - 1];
      if at.ringPosition <= position < ring[if i == |ring| then 0 else i].ringPosition then at
      else PastHeadFrom(gone, ring, position, i + 1)
  }

  function OwnerPastHead(gone: RingEntry, ring: Ring, position: nat): RingEntry
    requires ring != []
  {
    PastHeadFrom(gone, ring, position, 0)
  }

  /** With the head gone, a position has its owner found exactly when it lies from the first of the others up to the
      last of them; everywhere else the node that is gone is taken for the owner. */
  lemma HeadGoneExactly(gone: RingEntry, ring: Ring, position: nat)
    requires ring != [] && Sorted([gone] + ring)
    ensures var inside := ring[0].ringPosition <= position < ring[|ring| - 1].ringPosition;
            OwnerPastHead(gone, ring, position) == if inside then ring[Owner(ring, position)] else gone
    ensures gone != ring[Owner(ring, position)]
  {
    assert forall i :: 0 <= i < |ring| ==> ([gone] + ring)[i + 1] == ring[i];
    forall i, j | 0 <= i < j < |ring| ensures ring[i].ringPosition < ring[j].ringPosition {
      assert ([gone] + ring)[i + 1].ringPosition < ([gone] + ring)[j + 1].ringPosition;
    }
    assert ([gone] + ring)[0].ringPosition < ([gone] + ring)[Owner(ring, position) + 1].ringPosition;
    PastHeadWalk(gone, ring, position, 1);
    assert |ring| == 1 || ring[0].ringPosition < ring[|ring| - 1].ringPosition;
    assert ([gone] + ring)[0].ringPosition < ([gone] + ring)[1].ringPosition;
  }

  lemma {:induction false} PastHeadWalk(gone: RingEntry, ring: Ring, position: nat, i: nat)
    requires ring != [] && Sorted(ring) && 1 <= i <= |ring|
    requires i == 1 || ring[i - 1].ringPosition <= position || position < ring[0].ringPosition
    ensures var inside := ring[0].ringPosition <= position < ring[|ring| - 1].ringPosition;
            PastHeadFrom(gone, ring, position, i) == if inside then ring[OwnerFrom(ring, position, i - 1)] else gone
    decreases |ring| - i
  {
    assert i == 1 || ring[0].ringPosition < ring[i - 1].ringPosition;
    assert i == |ring| || ring[i - 1].ringPosition < ring[i].ringPosition;
    assert i == |ring| || i == |ring| - 1 || ring[i].ringPosition < ring[|ring| - 1].ringPosition;
    if i < |ring| && !OwnsAt(ring, position, i - 1) {
      PastHeadWalk(gone, ring, position, i + 1);
    } else if i == |ring| {
      assert PastHeadFrom(gone, ring, position, i + 1) == gone;
    }
  }

  ghost predicate OwnersRight(ring: Ring)
    requires ring != []
  {
    forall position: nat :: Owns(ring, position, Owner(ring, position))
  }

  /** The walk finds the owner of every position if and only if the ring is sorted from its head. */
  lemma OwnersRightExactly(ring: Ring)
    requires ring != [] && DistinctPositions(ring)
    ensures OwnersRight(ring) <==> Sorted(ring)
  {
    if Sorted(ring) {
      forall position: nat ensures Owns(ring, position, Owner(ring, position)) {
        SortedOwnerFrom(ring, position, 0);
      }
    } else if OwnersRight(ring) {
      forall i | 0 <= i < |ring| - 1 ensures ring[i].ringPosition < ring[i + 1].ringPosition {
        OwnPositionOwned(ring, i);
      }
      NeighboursSorted(ring);
    }
  }

  lemma OwnPositionOwned(ring: Ring, i: nat)
    requires DistinctPositions(ring) && i + 1 < |ring| && OwnersRight(ring)
    ensures ring[i].ringPosition < ring[i + 1].ringPosition
  {
    var p := ring[i].ringPosition;
    var o := Owner(ring, p);
    assert Owns(ring, p, o);
    assert ring[i].ringPosition <= p;
    assert o == i;
    OwnerFromStops(ring, p, 0);
  }

  lemma {:induction false} NeighboursSorted(ring: Ring)
    requires forall i :: 0 <= i < |ring| - 1 ==> ring[i].ringPosition < ring[i + 1].ringPosition
    ensures Sorted(ring)
  {
    if ring == [] {
    } else {
      var n := |ring| - 1;
      NeighboursSorted(ring[..n]);
      forall i, j | 0 <= i < j < |ring| ensures ring[i].ringPosition < ring[j].ringPosition {
        if j < n {
          assert ring[..n][i].ringPosition < ring[..n][j].ringPosition;
        } else if i < n - 1 {
          assert ring[..n][i].ringPosition < ring[..n][n - 1].ringPosition;
        }
      }
    }
  }

  // ---- Adding and deleting ----

  predicate Between(ring: Ring, position: nat, i: nat)
    requires i < |ring|
  {
    ring[i].ringPosition < position < ring[Succ(i, |ring|)].ringPosition
  }

  /** Where the walk from element `i` on puts a new position: after the first element it lies between, or last. */
  function PlaceFrom(ring: Ring, position: nat, i: nat): (at: nat)
    requires i <= |ring|
    ensures i <= at <= |ring| && (i > 0 || ring == [] || at > 0)
    decreases |ring| - i
  {
    if i == |ring| then |ring|
    else if Between(ring, position, i) then i + 1
    else PlaceFrom(ring, position, i + 1)
  }

  function InsertAt(ring: Ring, e: RingEntry, at: nat): Ring
    requires at <= |ring|
  {
    ring[..at] + [e] + ring[at..]
  }

  /** The ring after a new node joins. */
  function Joined(ring: Ring, e: RingEntry): Ring
    requires ring != []
  {
    if |ring| == 1 then (if ring[0].ringPosition > e.ringPosition then [e] + ring else ring + [e])
    else InsertAt(ring, e, PlaceFrom(ring, e.ringPosition, 0))
  }

  function Without(ring: Ring, i: nat): Ring
    requires i < |ring|
  {
    ring[..i] + ring[i + 1..]
  }

  lemma {:induction false} PlaceSorted(ring: Ring, position: nat, i: nat)
    requires Sorted(ring) && i < |ring| && ring[i].ringPosition < position
    requires forall j :: 0 <= j < |ring| ==> ring[j].ringPosition != position
    ensures var at := PlaceFrom(ring, position, i);
            at > 0 && ring[at - 1].ringPosition < position && (at < |ring| ==> position < ring[at].ringPosition)
    decreases |ring| - i
  {
    if i + 1 == |ring| {
      assert PlaceFrom(ring, position, i) == |ring|;
    } else if !Between(ring, position, i) {
      PlaceSorted(ring, position, i + 1);
    }
  }

  /** With a position below the head's the walk finds no place before the end. */
  lemma {:induction false} PlaceBelowHead(ring: Ring, position: nat, i: nat)
    requires Sorted(ring) && i < |ring| && position < ring[0].ringPosition
    ensures PlaceFrom(ring, position, i) == |ring|
    decreases |ring| - i
  {
    assert i == 0 || ring[0].ringPosition < ring[i].ringPosition;
    if i + 1 == |ring| {
    } else {
      PlaceBelowHead(ring, position, i + 1);
    }
  }

  predicate NewPosition(ring: Ring, position: nat) {
    forall j :: 0 <= j < |ring| ==> ring[j].ringPosition != position
  }

  /** A joining node keeps the ring sorted from its head if and only if its position is new and, in a ring of two or
      more, above the head's. */
  lemma JoinedSortedExactly(ring: Ring, e: RingEntry)
    requires ring != [] && Sorted(ring)
    ensures Sorted(Joined(ring, e)) <==>
            NewPosition(ring, e.ringPosition) && (|ring| == 1 || ring[0].ringPosition < e.ringPosition)
  {
    if |ring| == 1 {
      var joined := Joined(ring, e);
      assert |joined| == 2;
      assert Sorted(joined) <==> joined[0].ringPosition < joined[1].ringPosition;
    } else if !NewPosition(ring, e.ringPosition) {
      RepeatedNotSorted(ring, e, PlaceFrom(ring, e.ringPosition, 0));
    } else if ring[0].ringPosition < e.ringPosition {
      PlaceSorted(ring, e.ringPosition, 0);
      InsertedSorted(ring, e, PlaceFrom(ring, e.ringPosition, 0));
    } else {
      PlaceBelowHead(ring, e.ringPosition, 0);
      JoinedElements(ring, e, |ring|);
    }
  }

  lemma RepeatedNotSorted(ring: Ring, e: RingEntry, at: nat)
    requires at <= |ring| && !NewPosition(ring, e.ringPosition)
    ensures !Sorted(InsertAt(ring, e, at))
  {
    JoinedElements(ring, e, at);
    var j :| 0 <= j < |ring| && ring[j].ringPosition == e.ringPosition;
    var joined := InsertAt(ring, e, at);
    if j < at {
      assert joined[j].ringPosition == joined[at].ringPosition;
    } else {
      assert joined[at].ringPosition == joined[j + 1].ringPosition;
    }
  }

  lemma InsertedSorted(ring: Ring, e: RingEntry, at: nat)
    requires Sorted(ring) && 0 < at <= |ring|
    requires ring[at - 1].ringPosition < e.ringPosition && (at < |ring| ==> e.ringPosition < ring[at].ringPosition)
    ensures Sorted(InsertAt(ring, e, at))
  {
    forall i, j | 0 <= i < j <= |ring| ensures InsertAt(ring, e, at)[i].ringPosition < InsertAt(ring, e, at)[j].ringPosition {
      SortedAcross(ring, e, at, i, j);
    }
  }

  lemma JoinedElements(ring: Ring, e: RingEntry, at: nat)
    requires at <= |ring|
    ensures var joined := InsertAt(ring, e, at);
            |joined| == |ring| + 1 && joined[at] == e &&
            (forall i :: 0 <= i < at ==> joined[i] == ring[i]) && forall i :: at <= i < |ring| ==> joined[i + 1] == ring[i]
  {}

  lemma SortedAcross(ring: Ring, e: RingEntry, at: nat, i: nat, j: nat)
    requires Sorted(ring) && 0 < at <= |ring| && i < j <= |ring|
    requires ring[at - 1].ringPosition < e.ringPosition && (at < |ring| ==> e.ringPosition < ring[at].ringPosition)
    ensures InsertAt(ring, e, at)[i].ringPosition < InsertAt(ring, e, at)[j].ringPosition
  {
    JoinedElements(ring, e, at);
    assert forall k :: 0 <= k < at ==> ring[k].ringPosition <= ring[at - 1].ringPosition;
    assert forall k :: at <= k < |ring| ==> ring[at].ringPosition <= ring[k].ringPosition;
  }

  // ---- Distances ----

  /** The element so many steps on, for at most one turn. */
  function Turn(i: nat, steps: nat, n: nat): (j: nat)
    requires i < n && steps <= n
    ensures j < n
  {
    if i + steps < n then i + steps else i + steps - n
  }

  function TurnBack(i: nat, steps: nat, n: nat): (j: nat)
    requires i < n && steps <= n
    ensures j < n
  {
    if steps <= i then i - steps else i + n - steps
  }

  /** Steps from one element on to another. */
  function Clockwise(n: nat, i: nat, j: nat): (d: nat)
    requires i < n && j < n
    ensures d < n && Turn(i, d, n) == j
  {
    if i <= j then j - i else n - (i - j)
  }

  /** The shorter way, positive when it is the forward one. */
  function Distance(n: nat, i: nat, j: nat): (d: int)
    requires i < n && j < n
  {
    var d := Clockwise(n, i, j);
    if d <= n - d then d else d - n
  }

  function Abs(d: int): nat { if d < 0 then -d else d }

  /** As the ring computes them from the signed distance. */
  function DistanceClockwise(n: nat, i: nat, j: nat): int
    requires i < n && j < n
  {
    var d := Distance(n, i, j);
    if d < 0 then n - Abs(d) else d
  }

  function DistanceCounterClockwise(n: nat, i: nat, j: nat): int
    requires i < n && j < n
  {
    var d := Distance(n, i, j);
    if d > 0 then n - d else Abs(d)
  }

  /** The signed distance leads from one node to the other, no way is shorter, and the two one-way distances are
      what they say and add up to a full turn. */
  lemma Distances(n: nat, i: nat, j: nat, steps: nat)
    requires i < n && j < n && steps <= n
    ensures var d := Distance(n, i, j);
            Abs(d) <= n && (if d >= 0 then Turn(i, d, n) == j else Turn(j, -d, n) == i)
    ensures Turn(i, steps, n) == j || Turn(j, steps, n) == i ==> Abs(Distance(n, i, j)) <= steps
    ensures DistanceClockwise(n, i, j) == Clockwise(n, i, j) && (i != j ==> DistanceCounterClockwise(n, i, j) == Clockwise(n, j, i))
    ensures i != j ==> DistanceClockwise(n, i, j) + DistanceCounterClockwise(n, i, j) == n
    ensures i == j ==> DistanceClockwise(n, i, j) == 0 && DistanceCounterClockwise(n, i, j) == 0
  {}

  /** Walking on from both nodes at once, the first meeting tells the signed distance. */
  lemma Meeting(n: nat, i: nat, j: nat, steps: nat)
    requires i < n && j < n && steps <= Abs(Distance(n, i, j))
    ensures steps < n
    ensures Turn(i, steps, n) == j ==> Distance(n, i, j) == steps
    ensures Turn(i, steps, n) != j && Turn(j, steps, n) == i ==> Distance(n, i, j) == 0 - steps
    ensures Turn(i, steps, n) != j && Turn(j, steps, n) != i ==> steps < Abs(Distance(n, i, j))
  {}

  lemma OneOn(n: nat, i: nat, steps: nat)
    requires i < n && steps < n
    ensures Succ(Turn(i, steps, n), n) == Turn(i, steps + 1, n) && Pred(TurnBack(i, steps, n), n) == TurnBack(i, steps + 1, n)
  {}

  /** Leaving keeps the ring sorted. */
  lemma WithoutSorted(ring: Ring, i: nat)
    requires Sorted(ring) && i < |ring|
    ensures Sorted(Without(ring, i))
  {}

  /** How many neighbours a list of at most `k` holds; a node alone is its own neighbour. */
  function Reach(n: nat, k: nat): nat {
    if n <= 1 then Min(k, 1) else Min(k, n - 1)
  }

  function NeighborsClockwise(ring: Ring, i: nat, k: nat): (r: Ring)
    requires i < |ring|
    ensures |r| == Reach(|ring|, k)
  {
    seq(Reach(|ring|, k), x requires 0 <= x < Reach(|ring|, k) => ring[Turn(i, x + 1, |ring|)])
  }

  function NeighborsCounterClockwise(ring: Ring, i: nat, k: nat): (r: Ring)
    requires i < |ring|
    ensures |r| == Reach(|ring|, k)
  {
    seq(Reach(|ring|, k), x requires 0 <= x < Reach(|ring|, k) => ring[TurnBack(i, x + 1, |ring|)])
  }

  predicate DistinctIds(ring: Ring) {
    forall i, j :: 0 <= i < j < |ring| ==> ring[i].nodeId != ring[j].nodeId
  }

  predicate NoDuplicates(ring: Ring) {
    forall i, j :: 0 <= i < j < |ring| ==> ring[i] != ring[j]
  }

  lemma NodesDiffer(ring: Ring, i: nat, j: nat)
    requires DistinctIds(ring) && i < |ring| && j < |ring| && ring[i] == ring[j]
    ensures i == j
  {}

  /** The clockwise list holds exactly the other nodes at most `k` steps on, each once. */
  lemma ClockwiseListed(ring: Ring, i: nat, j: nat, k: nat)
    requires DistinctIds(ring) && i < |ring| && j < |ring| && |ring| >= 2
    ensures ring[j] in NeighborsClockwise(ring, i, k) <==> 1 <= Clockwise(|ring|, i, j) <= k
    ensures NoDuplicates(NeighborsClockwise(ring, i, k))
  {
    var n, list := |ring|, NeighborsClockwise(ring, i, k);
    var d := Clockwise(n, i, j);
    if 1 <= d <= k {
      assert list[d - 1] == ring[j];
    }
    if ring[j] in list {
      var x :| 0 <= x < |list| && list[x] == ring[j];
      NodesDiffer(ring, Turn(i, x + 1, n), j);
    }
    forall x, y | 0 <= x < y < |list| ensures list[x] != list[y] {
      if list[x] == list[y] {
        NodesDiffer(ring, Turn(i, x + 1, n), Turn(i, y + 1, n));
      }
    }
  }

  lemma CounterClockwiseListed(ring: Ring, i: nat, j: nat, k: nat)
    requires DistinctIds(ring) && i < |ring| && j < |ring| && |ring| >= 2
    ensures ring[j] in NeighborsCounterClockwise(ring, i, k) <==> 1 <= Clockwise(|ring|, j, i) <= k
    ensures NoDuplicates(NeighborsCounterClockwise(ring, i, k))
  {
    var n, list := |ring|, NeighborsCounterClockwise(ring, i, k);
    var d := Clockwise(n, j, i);
    if 1 <= d <= k {
      assert list[d - 1] == ring[j];
    }
    if ring[j] in list {
      var x :| 0 <= x < |list| && list[x] == ring[j];
      NodesDiffer(ring, TurnBack(i, x + 1, n), j);
    }
    forall x, y | 0 <= x < y < |list| ensures list[x] != list[y] {
      if list[x] == list[y] {
        NodesDiffer(ring, TurnBack(i, x + 1, n), TurnBack(i, y + 1, n));
      }
    }
  }

  /** One node lists another clockwise exactly when the other lists it counter-clockwise. */
  lemma NeighborListsDual(ring: Ring, i: nat, j: nat, k: nat)
    requires DistinctIds(ring) && i < |ring| && j < |ring| && |ring| >= 2
    ensures ring[j] in NeighborsClockwise(ring, i, k) <==> ring[i] in NeighborsCounterClockwise(ring, j, k)
  {
    ClockwiseListed(ring, i, j, k);
    CounterClockwiseListed(ring, j, i, k);
  }

  // ---- Which nodes hold a key ----

  /** A node accepts the keys of owners less than `nodesPerPartition` away. */
  predicate CanHold(ring: Ring, position: nat, nodesPerPartition: nat, self: nat)
    requires self < |ring|
  {
    Abs(Distance(|ring|, self, Owner(ring, position))) < nodesPerPartition
  }

  /** A node accepts a key exactly when it is the owner, a replica behind it, or as near before it. */
  lemma HoldersExactly(ring: Ring, position: nat, nodesPerPartition: nat, self: nat)
    requires DistinctIds(ring) && self < |ring| && |ring| >= 2
    ensures var owner := Owner(ring, position);
            CanHold(ring, position, nodesPerPartition, self) <==>
            nodesPerPartition > 0 &&
            (self == owner || ring[self] in NeighborsClockwise(ring, owner, nodesPerPartition - 1) ||
             ring[self] in NeighborsCounterClockwise(ring, owner, nodesPerPartition - 1))
  {
    if nodesPerPartition > 0 {
      ClockwiseListed(ring, Owner(ring, position), self, nodesPerPartition - 1);
      CounterClockwiseListed(ring, Owner(ring, position), self, nodesPerPartition - 1);
    }
  }

  /** The owner and so many nodes behind it. */
  function Behind(n: nat, owner: nat, count: nat): (s: set<nat>)
    requires owner < n && count <= n
  {
    if count == 0 then {} else Behind(n, owner, count - 1) + {Turn(owner, count - 1, n)}
  }

  lemma {:induction false} BehindCounts(n: nat, owner: nat, count: nat)
    requires owner < n && count <= n
    ensures |Behind(n, owner, count)| == count
    ensures forall i: nat :: i in Behind(n, owner, count) <==> i < n && Clockwise(n, owner, i) < count
  {
    if count == 0 {
    } else {
      BehindCounts(n, owner, count - 1);
      var next := Turn(owner, count - 1, n);
      assert Clockwise(n, owner, next) == count - 1;
      forall i: nat | i < n ensures Clockwise(n, owner, i) == count - 1 <==> i == next {
        assert Turn(owner, Clockwise(n, owner, i), n) == i;
      }
    }
  }

  /** Every key is accepted by its owner and the owner's clockwise replicas: by as many nodes as a partition asks
      for, or by all. */
  lemma KeyIsCovered(ring: Ring, position: nat, nodesPerPartition: nat)
    requires ring != []
    ensures var count := Min(|ring|, nodesPerPartition); var holders := Behind(|ring|, Owner(ring, position), count);
            |holders| == count &&
            forall i :: i in holders ==> i < |ring| && CanHold(ring, position, nodesPerPartition, i)
  {
    BehindCounts(|ring|, Owner(ring, position), Min(|ring|, nodesPerPartition));
  }

  /** A node that joins below the head is put last, and from then on owns positions that are not its own: with 10, 20
      and then 5, position 25 goes to 5. */
  lemma JoinBelowHeadMisroutes(ring: Ring)
    requires ring == Joined([RingEntry(1, 10), RingEntry(2, 20)], RingEntry(3, 5))
    ensures ring[Owner(ring, 25)] == RingEntry(3, 5) && !Owns(ring, 25, Owner(ring, 25))
  {
    var old2 := [RingEntry(1, 10), RingEntry(2, 20)];
    PlaceBelowHead(old2, 5, 0);
    JoinedElements(old2, RingEntry(3, 5), 2);
    assert !OwnsAt(ring, 25, 0) && !OwnsAt(ring, 25, 1);
    assert OwnerFrom(ring, 25, 1) == OwnerFrom(ring, 25, 2) == 2;
    assert ring[1].ringPosition <= 25;
  }
}
