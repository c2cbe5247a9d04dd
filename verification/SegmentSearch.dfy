/** The binary search for the segment that holds a timestamp. Offsets are counted in descriptors. */
module SegmentSearch {
  import opened Operations
  import opened Compaction
  import opened OplogFiles

  /** Segments in timestamp order; neighbours may share a timestamp. */
  predicate Ordered(index: seq<Descriptor>) {
    (forall i :: 0 <= i < |index| ==> index[i].min <= index[i].max) &&
    (forall i, j :: 0 <= i < j < |index| ==> index[i].max <= index[j].min)
  }

  predicate Above(d: Descriptor, t: nat) { t > d.min && t > d.max }

  predicate Below(d: Descriptor, t: nat) { t < d.min && t < d.max }

  predicate Holds(d: Descriptor, t: nat) { d.min <= t <= d.max }

  datatype State = State(low: nat, high: nat, actual: nat)

  function HalfUp(n: nat): nat { if n % 2 == 0 then n / 2 else n / 2 + 1 }

  function Start(n: nat): State
    requires n > 0
  {
    State(0, n, HalfUp(n) - 1)
  }

  /** The loop's bounds: what it reads always lies in the index. */
  predicate InBounds(s: State, n: nat) {
    s.low <= s.actual < n && s.low <= s.high <= n && (s.actual < s.high || s.low == s.high == s.actual)
  }

  predicate Goes(index: seq<Descriptor>, t: nat, s: State)
    requires InBounds(s, |index|)
  {
    s.high != s.low && (Above(index[s.actual], t) || Below(index[s.actual], t))
  }

  function Middle(low: nat, high: nat): nat
    requires low <= high
  {
    low + if high - low == 1 then 0 else HalfUp(high - low)
  }

  function Step(index: seq<Descriptor>, t: nat, s: State): (s': State)
    requires InBounds(s, |index|) && Goes(index, t, s)
    ensures InBounds(s', |index|)
  {
    var low := if Above(index[s.actual], t) then s.actual else s.low;
    var high := if Above(index[s.actual], t) then s.high else s.actual;
    State(low, high, Middle(low, high))
  }

  /** The state after so many rounds of the loop; a loop that has ended stays where it is. */
  function After(index: seq<Descriptor>, t: nat, s: State, rounds: nat): (s': State)
    requires InBounds(s, |index|)
    ensures InBounds(s', |index|)
    decreases rounds
  {
    if rounds == 0 || !Goes(index, t, s) then s else After(index, t, Step(index, t, s), rounds - 1)
  }

  /** The loop ends. */
  ghost predicate Ends(index: seq<Descriptor>, t: nat, s: State)
    requires InBounds(s, |index|)
  {
    exists rounds: nat :: !Goes(index, t, After(index, t, s, rounds))
  }

  predicate HeldBySome(index: seq<Descriptor>, t: nat) {
    exists i :: 0 <= i < |index| && Holds(index[i], t)
  }

  /** The search works for a timestamp inside some segment or before all of them. */
  predicate Searchable(index: seq<Descriptor>, t: nat) {
    index == [] || t < index[0].min || HeldBySome(index, t)
  }

  /** What is still to be searched holds the timestamp, or starts at the first segment, which is above it. */
  predicate Closing(index: seq<Descriptor>, t: nat, s: State)
    requires InBounds(s, |index|)
  {
    (t < index[0].min && s.low == 0) || exists i :: s.low <= i < s.high && Holds(index[i], t)
  }

  /** Rounds left at most. The first round may leave the bounds as they are, but not the middle. */
  function Left(s: State): int {
    2 * (s.high - s.low) + if s.actual == s.low then 1 else 0
  }

  lemma ClosingStep(index: seq<Descriptor>, t: nat, s: State)
    requires Ordered(index) && InBounds(s, |index|) && Closing(index, t, s) && Goes(index, t, s)
    ensures Closing(index, t, Step(index, t, s)) && 0 <= Left(Step(index, t, s)) < Left(s)
  {
    var s' := Step(index, t, s);
    if t < index[0].min && s.low == 0 {
      assert index[s.actual].min >= index[0].min;
    } else {
      var i :| s.low <= i < s.high && Holds(index[i], t);
      if Above(index[s.actual], t) {
        assert i > s.actual;
      } else {
        assert i < s.actual;
      }
      assert s'.low <= i < s'.high;
    }
  }

  /** Where a closing search ends: at a segment that holds the timestamp, or at the start. */
  lemma ClosedAt(index: seq<Descriptor>, t: nat, s: State)
    requires Ordered(index) && InBounds(s, |index|) && Closing(index, t, s) && !Goes(index, t, s)
    ensures Holds(index[s.actual], t) || (s.actual == 0 && t < index[0].min)
  {
    assert index[s.actual].min <= index[s.actual].max;
    assert s.actual == 0 || index[0].max <= index[s.actual].min;
  }

  lemma {:induction false} ClosingEnds(index: seq<Descriptor>, t: nat, s: State)
    requires Ordered(index) && InBounds(s, |index|) && Closing(index, t, s)
    ensures Ends(index, t, s)
    decreases Left(s)
  {
    if !Goes(index, t, s) {
      assert After(index, t, s, 0) == s;
    } else {
      var next := Step(index, t, s);
      ClosingStep(index, t, s);
      ClosingEnds(index, t, next);
      var rounds: nat :| !Goes(index, t, After(index, t, next, rounds));
      assert After(index, t, s, rounds + 1) == After(index, t, next, rounds);
    }
  }

  /** The timestamp lies strictly between two neighbouring segments, or above the last: above all up to the gap and
      below all after it. */
  predicate InGap(index: seq<Descriptor>, t: nat, gap: nat) {
    gap < |index| && (forall i :: 0 <= i <= gap ==> Above(index[i], t)) &&
    (forall i :: gap < i < |index| ==> Below(index[i], t))
  }

  /** Around a gap the loop never ends. */
  lemma {:induction false} GapNeverEnds(index: seq<Descriptor>, t: nat, gap: nat, s: State, rounds: nat)
    requires InGap(index, t, gap) && InBounds(s, |index|) && s.low <= gap < s.high
    ensures Goes(index, t, After(index, t, s, rounds))
    decreases rounds
  {
    assert Above(index[s.actual], t) || Below(index[s.actual], t);
    if rounds == 0 {
    } else {
      var next := Step(index, t, s);
      assert next.low <= gap < next.high;
      GapNeverEnds(index, t, gap, next, rounds - 1);
    }
  }

  /** Outside every segment and not before the first, there is a gap. */
  lemma {:induction false} FindGap(index: seq<Descriptor>, t: nat, n: nat) returns (gap: nat)
    requires Ordered(index) && 0 < n <= |index| && !HeldBySome(index, t) && t >= index[0].min
    requires forall i :: n <= i < |index| ==> Below(index[i], t)
    ensures InGap(index, t, gap)
    decreases n
  {
    var last := n - 1;
    assert !Holds(index[last], t);
    if t > index[last].max {
      gap := last;
      assert forall i :: 0 <= i < last ==> index[i].max <= index[last].min;
    } else {
      assert last > 0;
      gap := FindGap(index, t, last);
    }
  }

  /** The search ends exactly for timestamps inside some segment or before the first. */
  lemma SearchEndsExactly(index: seq<Descriptor>, t: nat)
    requires Ordered(index) && index != []
    ensures Ends(index, t, Start(|index|)) <==> Searchable(index, t)
  {
    var s := Start(|index|);
    if Searchable(index, t) {
      StartsClosing(index, t);
      ClosingEnds(index, t, s);
    } else {
      var gap := FindGap(index, t, |index|);
      forall rounds: nat ensures Goes(index, t, After(index, t, s, rounds)) {
        GapNeverEnds(index, t, gap, s, rounds);
      }
    }
  }

  lemma StartsClosing(index: seq<Descriptor>, t: nat)
    requires index != [] && Searchable(index, t)
    ensures InBounds(Start(|index|), |index|) && Closing(index, t, Start(|index|))
  {
    if HeldBySome(index, t) {
      var i :| 0 <= i < |index| && Holds(index[i], t);
      assert Start(|index|).low <= i < Start(|index|).high;
    }
  }

  /** The search itself. */
  method BinarySearchByTimestamp(index: seq<Descriptor>, t: nat) returns (found: bool, ptr: nat)
    requires Ordered(index) && Searchable(index, t)
    ensures found <==> index != [] && t != 0
    ensures found ==> ptr < |index| && (Holds(index[ptr], t) || (ptr == 0 && t < index[0].min))
    ensures !found ==> ptr == 0
  {
    if |index| == 0 || t == 0 {
      return false, 0;
    }
    StartsClosing(index, t);
    var actual: nat, low: nat, high: nat := HalfUp(|index|) - 1, 0, |index|;
    while high != low && (Above(index[actual], t) || Below(index[actual], t))
      invariant InBounds(State(low, high, actual), |index|)
      invariant Closing(index, t, State(low, high, actual))
      decreases Left(State(low, high, actual))
    {
      ClosingStep(index, t, State(low, high, actual));
      var isHigher := Above(index[actual], t);
      if isHigher {
        low := actual;
      } else {
        high := actual;
      }
      var nDescriptors := high - low;
      actual := low + if nDescriptors == 1 then 0 else HalfUp(nDescriptors);
    }
    ClosedAt(index, t, State(low, high, actual));
    return true, actual;
  }

  /** The segments to read for everything after a timestamp: from one that holds it on, or all when the timestamp is zero
      or before the first. What is left out holds nothing later. */
  method GetByAfterTimestamp(index: seq<Descriptor>, t: nat) returns (descriptors: seq<Descriptor>, ptr: nat)
    requires Ordered(index) && Searchable(index, t)
    ensures ptr <= |index| && descriptors == index[ptr..]
    ensures forall i :: 0 <= i < ptr ==> index[i].max <= t
    ensures index == [] || t == 0 || t < index[0].min ==> ptr == 0
    ensures index != [] && t != 0 && index[0].min <= t ==>
              ptr < |index| && index[ptr].min <= t <= index[ptr].max &&
              forall i :: ptr < i < |index| ==> index[ptr].max <= index[i].min
  {
    var found, at := BinarySearchByTimestamp(index, t);
    ptr := if found then at else 0;
    descriptors := index[ptr..];
  }

  /** What is left out of a log read after a timestamp holds no operation later than it. */
  lemma OmitsNothingLater(log: Oplog, t: nat, ptr: nat, i: nat)
    requires log.Valid() && ptr <= |log.index| && i < ptr
    requires forall j :: 0 <= j < ptr ==> log.index[j].max <= t
    ensures i < |log.segments| && forall x :: x in log.segments[i] ==> x.timestamp <= t
  {
    log.StoredAt(log.index, log.data, 0, log.segments, i);
    var ops := log.segments[i];
    forall x | x in ops ensures x.timestamp <= t {
      var j :| 0 <= j < |ops| && ops[j] == x;
      assert j == |ops| - 1 || ops[j].timestamp <= ops[|ops| - 1].timestamp;
    }
  }

  /** A timestamp above every segment keeps the search going forever, whatever the segments are. */
  lemma AboveAllNeverEnds(index: seq<Descriptor>, t: nat)
    requires Ordered(index) && index != [] && t > index[|index| - 1].max
    ensures !Ends(index, t, Start(|index|))
  {
    var last := |index| - 1;
    assert forall i :: 0 <= i < last ==> index[i].max <= index[last].min;
    assert InGap(index, t, last);
    forall rounds: nat ensures Goes(index, t, After(index, t, Start(|index|), rounds)) {
      GapNeverEnds(index, t, last, Start(|index|), rounds);
    }
  }

  lemma {:induction false} WithinFlat(batches: seq<seq<Write>>, i: nat, x: Write)
    requires i < |batches| && x in batches[i]
    ensures x in Flat(batches)
  {
    if i == 0 {
    } else {
      WithinFlat(batches[1..], i - 1, x);
    }
  }

  lemma {:induction false} BatchesOrdered(batches: seq<seq<Write>>, i: nat, j: nat, x: Write, y: Write)
    requires NeverDown(Flat(batches)) && i < j < |batches| && x in batches[i] && y in batches[j]
    ensures x.timestamp <= y.timestamp
  {
    var first, others := batches[0], Flat(batches[1..]);
    if i == 0 {
      WithinFlat(batches[1..], j - 1, y);
      var a :| 0 <= a < |first| && first[a] == x;
      var b :| 0 <= b < |others| && others[b] == y;
      assert Flat(batches)[a] == x && Flat(batches)[|first| + b] == y;
    } else {
      assert forall k :: 0 <= k < |others| ==> others[k] == Flat(batches)[|first| + k];
      BatchesOrdered(batches[1..], i - 1, j - 1, x, y);
    }
  }

  /** Operations flushed in timestamp order leave an index the search is meant for. */
  lemma OrderedLogOrderedIndex(log: Oplog)
    requires log.Valid() && NeverDown(Flat(log.batches))
    ensures Ordered(log.index)
  {
    forall i | 0 <= i < |log.index| ensures log.index[i].min <= log.index[i].max {
      log.StoredAt(log.index, log.data, 0, log.segments, i);
    }
    forall i, j | 0 <= i < j < |log.index| ensures log.index[i].max <= log.index[j].min {
      log.StoredAt(log.index, log.data, 0, log.segments, i);
      log.StoredAt(log.index, log.data, 0, log.segments, j);
      var x, y := log.segments[i][|log.segments[i]| - 1], log.segments[j][0];
      assert Keeps(log.batches[i], log.segments[i]) && Keeps(log.batches[j], log.segments[j]);
      BatchesOrdered(log.batches, i, j, x, y);
    }
  }
}
