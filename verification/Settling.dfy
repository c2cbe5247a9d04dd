/** When one operation of a key can stand for it and everything after it. */
module Settling {
  import opened Lamport
  import opened PutRule
  import opened Operations

  predicate IsSet(op: Write) { op.operatorNumber == SET }

  /** The last operation with a timestamp. */
  function LastAt(ops: seq<Write>, timestamp: nat): Option<Write> {
    if ops == [] then None
    else if ops[|ops| - 1].timestamp == timestamp then Some(ops[|ops| - 1])
    else LastAt(ops[..|ops| - 1], timestamp)
  }

  /** Later operations with the timestamp of a SET leave it alone when the last of them sets the same value. */
  predicate SetHolds(kept: Write, later: seq<Write>)
    requires IsSet(kept)
  {
    var last := LastAt(later, kept.timestamp);
    last.Some? ==> Repeats(kept, last.value)
  }

  predicate Repeats(kept: Write, op: Write)
    requires IsSet(kept)
  {
    op.timestamp == kept.timestamp && IsSet(op) && op.args.value[1] == kept.args.value[1]
  }

  /** No DEL at least as new follows a SET. */
  predicate Uncovered(later: seq<Write>, i: nat)
    requires i < |later|
  {
    IsSet(later[i]) && forall j :: i < j < |later| && !IsSet(later[j]) ==> later[j].timestamp < later[i].timestamp
  }

  /** The exact condition: nothing later is newer; a SET is repeated by the last operation of its timestamp; after a
      DEL, every SET is followed by a DEL at least as new. */
  predicate Settles(kept: Write, later: seq<Write>) {
    (forall i :: 0 <= i < |later| ==> later[i].timestamp <= kept.timestamp) &&
    if IsSet(kept) then SetHolds(kept, later)
    else forall i :: 0 <= i < |later| ==> !Uncovered(later, i)
  }

  /** Operations of one key and one node. */
  predicate Uniform(ops: seq<Write>, k: Bytes, node: nat) {
    forall i :: 0 <= i < |ops| ==> Key(ops[i]) == k && ops[i].nodeId == node
  }

  lemma EntryAfterLast(was: Option<Entry>, ops: seq<Write>)
    requires ops != []
    ensures EntryAfterAll(was, ops) == EntryAfter(EntryAfterAll(was, ops[..|ops| - 1]), ops[|ops| - 1])
  {
    var n := |ops| - 1;
    assert ops == ops[..n] + [ops[n]];
    EntryAfterAppend(was, ops[..n], [ops[n]]);
    assert [ops[n]][1..] == [];
  }

  /** Nothing gets past a counter or an entry with a greater stamp. */
  lemma {:induction false} Unmoved(was: Option<Entry>, ops: seq<Write>)
    requires was.Some?
    requires forall i :: 0 <= i < |ops| ==> was.value.CounterEntry? || Gt(was.value.stamp, StampOfOp(ops[i]))
    ensures EntryAfterAll(was, ops) == was
    decreases |ops|
  {
    if ops == [] {
    } else {
      assert EntryAfter(was, ops[0]) == was;
      Unmoved(was, ops[1..]);
    }
  }

  /** Operations leave nothing with a stamp above theirs. */
  lemma {:induction false} StampsBelow(was: Option<Entry>, ops: seq<Write>, k: Bytes, top: Stamp)
    requires Uniform(ops, k, top.node) && Fitting(was, k)
    requires was.Some? ==> was.value.DataEntry? && !Gt(was.value.stamp, top)
    requires forall i :: 0 <= i < |ops| ==> ops[i].timestamp <= top.counter
    ensures var e := EntryAfterAll(was, ops);
            Fitting(e, k) && (e.Some? ==> e.value.DataEntry? && !Gt(e.value.stamp, top))
    decreases |ops|
  {
    if ops == [] {
    } else {
      assert Key(ops[0]) == k && ops[0].nodeId == top.node && ops[0].timestamp <= top.counter;
      StampsBelow(EntryAfter(was, ops[0]), ops[1..], k, top);
    }
  }

  function EntryOf(op: Write): Entry
    requires IsSet(op)
  {
    DataEntry(Text(Key(op)), Text(op.args.value[1]), StampOfOp(op))
  }

  /** The entry a SET leaves outlives the later operations, none of them newer, exactly when they leave it alone. */
  lemma {:induction false} SetOutlives(kept: Write, later: seq<Write>)
    requires IsSet(kept) && Uniform(later, Key(kept), kept.nodeId)
    requires forall i :: 0 <= i < |later| ==> later[i].timestamp <= kept.timestamp
    ensures EntryAfterAll(Some(EntryOf(kept)), later) == Some(EntryOf(kept)) <==> SetHolds(kept, later)
    decreases |later|
  {
    if later == [] {
    } else {
      var n, e := |later| - 1, Some(EntryOf(kept));
      var before, x := later[..n], later[n];
      EntryAfterLast(e, later);
      SetOutlives(kept, before);
      StampsBelow(e, before, Key(kept), StampOfOp(kept));
      var p := EntryAfterAll(e, before);
      assert Key(x) == Key(kept) && x.nodeId == kept.nodeId && x.timestamp <= kept.timestamp;
      LastOutlives(kept, x, p);
    }
  }

  lemma LastOutlives(kept: Write, x: Write, p: Option<Entry>)
    requires IsSet(kept) && Key(x) == Key(kept) && x.nodeId == kept.nodeId && x.timestamp <= kept.timestamp
    requires Fitting(p, Key(kept)) && (p.Some? ==> p.value.DataEntry? && !Gt(p.value.stamp, StampOfOp(kept)))
    ensures EntryAfter(p, x) == Some(EntryOf(kept)) <==>
            if x.timestamp == kept.timestamp then Repeats(kept, x) else p == Some(EntryOf(kept))
  {
    if x.timestamp == kept.timestamp && IsSet(x) && Text(x.args.value[1]) == Text(kept.args.value[1]) {
      TextDiffers(x.args.value[1], kept.args.value[1]);
    }
  }

  /** From nothing, what is stored in the end is the newest SET that no DEL covers, if there is one. */
  ghost predicate TopUncovered(later: seq<Write>, e: Option<Entry>) {
    if e.None? then forall i :: 0 <= i < |later| ==> !Uncovered(later, i)
    else
      e.value.DataEntry? &&
      (exists i :: 0 <= i < |later| && Uncovered(later, i) && later[i].timestamp == e.value.stamp.counter) &&
      forall i :: 0 <= i < |later| && Uncovered(later, i) ==> later[i].timestamp <= e.value.stamp.counter
  }

  lemma {:induction false} FromNothing(later: seq<Write>, k: Bytes, node: nat)
    requires Uniform(later, k, node)
    ensures var e := EntryAfterAll(None, later);
            TopUncovered(later, e) && (e.Some? ==> e.value.DataEntry? && e.value.stamp.node == node)
    decreases |later|
  {
    if later == [] {
    } else {
      var n := |later| - 1;
      var before, x := later[..n], later[n];
      FromNothing(before, k, node);
      EntryAfterLast(None, later);
      var p := EntryAfterAll(None, before);
      assert later == before + [x] && Key(x) == k && x.nodeId == node;
      TopStep(before, x, p, node);
    }
  }

  lemma UncoveredStep(before: seq<Write>, x: Write, i: nat)
    requires i <= |before|
    ensures Uncovered(before + [x], i) <==>
            if i == |before| then IsSet(x)
            else Uncovered(before, i) && (IsSet(x) || x.timestamp < before[i].timestamp)
  {
    var later := before + [x];
    if i < |before| {
      assert later[i] == before[i] && later[|before|] == x;
      assert forall j :: i < j < |before| ==> later[j] == before[j];
    }
  }

  lemma TopStep(before: seq<Write>, x: Write, p: Option<Entry>, node: nat)
    requires TopUncovered(before, p) && x.nodeId == node && (p.Some? ==> p.value.stamp.node == node)
    ensures TopUncovered(before + [x], EntryAfter(p, x))
  {
    var later, e := before + [x], EntryAfter(p, x);
    forall i | 0 <= i <= |before|
      ensures Uncovered(later, i) <==> if i == |before| then IsSet(x)
                                       else Uncovered(before, i) && (IsSet(x) || x.timestamp < before[i].timestamp)
    {
      UncoveredStep(before, x, i);
    }
    if e.Some? {
      if IsSet(x) && e != p {
        assert Uncovered(later, |before|) && later[|before|].timestamp == e.value.stamp.counter;
      } else {
        var i :| 0 <= i < |before| && Uncovered(before, i) && before[i].timestamp == p.value.stamp.counter;
        assert Uncovered(later, i);
      }
    }
  }

  /** What an operation of a node stores, if anything. */
  predicate Own(e: Option<Entry>, node: nat) {
    e.None? || (e.value.DataEntry? && e.value.stamp.node == node)
  }

  lemma {:induction false} StaysOwn(e: Option<Entry>, ops: seq<Write>, k: Bytes, node: nat)
    requires Own(e, node) && Uniform(ops, k, node)
    ensures Own(EntryAfterAll(e, ops), node)
    decreases |ops|
  {
    if ops == [] {
    } else {
      assert ops[0].nodeId == node;
      StaysOwn(EntryAfter(e, ops[0]), ops[1..], k, node);
    }
  }

  /** An entry of another node that one of the operations gets past is gone. */
  lemma {:induction false} OthersIsLost(was: Option<Entry>, ops: seq<Write>, i: nat, k: Bytes, node: nat)
    requires was.Some? && was.value.DataEntry? && was.value.stamp.node != node && Uniform(ops, k, node)
    requires i < |ops| && !Gt(was.value.stamp, StampOfOp(ops[i]))
    ensures EntryAfterAll(was, ops) != was
    decreases |ops|
  {
    assert ops[0].nodeId == node;
    var e := EntryAfter(was, ops[0]);
    if e == was {
      OthersIsLost(was, ops[1..], i - 1, k, node);
    } else {
      StaysOwn(e, ops[1..], k, node);
    }
  }

  /** Operations always change some entry. */
  lemma SomethingHappens(ops: seq<Write>, k: Bytes)
    requires ops != [] && SameKey(ops, k)
    ensures !SameEffect([], ops, k)
  {
    var was := Some(DataEntry(Text(k), "", Stamp(0, 0)));
    assert Fitting(was, k) && Fitting(None, k);
    assert Key(ops[0]) == k;
    assert EntryAfter(was, ops[0]) == EntryAfter(None, ops[0]);
    assert EntryAfterAll(was, ops) == EntryAfterAll(None, ops);
    assert EntryAfterAll(was, []) == was && EntryAfterAll(None, []) == None;
  }

  /** One operation stands for itself and the later ones, from every entry, exactly when it settles them. */
  lemma SettlesExactly(kept: Write, later: seq<Write>, k: Bytes)
    requires Key(kept) == k && Uniform(later, k, kept.nodeId)
    ensures SameEffect([kept], [kept] + later, k) <==> Settles(kept, later)
  {
    assert ([kept] + later)[0] == kept && ([kept] + later)[1..] == later && [kept][1..] == [];
    forall was ensures EntryAfterAll(was, [kept]) == EntryAfter(was, kept)
               ensures EntryAfterAll(was, [kept] + later) == EntryAfterAll(EntryAfter(was, kept), later)
    {}
    if Settles(kept, later) {
      forall was | Fitting(was, k) ensures EntryAfterAll(was, [kept]) == EntryAfterAll(was, [kept] + later) {
        SettledFrom(was, kept, later, k);
      }
    } else {
      UnsettledSomewhere(kept, later, k);
    }
  }

  lemma SettledFrom(was: Option<Entry>, kept: Write, later: seq<Write>, k: Bytes)
    requires Key(kept) == k && Uniform(later, k, kept.nodeId) && Fitting(was, k) && Settles(kept, later)
    ensures EntryAfterAll(EntryAfter(was, kept), later) == EntryAfter(was, kept)
  {
    if was.Some? && (was.value.CounterEntry? || Gt(was.value.stamp, StampOfOp(kept))) {
      Unmoved(was, later);
    } else if IsSet(kept) {
      SetOutlives(kept, later);
    } else {
      FromNothing(later, k, kept.nodeId);
    }
  }

  lemma UnsettledSomewhere(kept: Write, later: seq<Write>, k: Bytes)
    requires Key(kept) == k && Uniform(later, k, kept.nodeId) && !Settles(kept, later)
    ensures exists was :: Fitting(was, k) && EntryAfterAll(EntryAfter(was, kept), later) != EntryAfter(was, kept)
  {
    if i :| 0 <= i < |later| && later[i].timestamp > kept.timestamp {
      var was := Some(DataEntry(Text(k), "", Stamp(kept.timestamp, kept.nodeId + 1)));
      assert Fitting(was, k) && EntryAfter(was, kept) == was;
      OthersIsLost(was, later, i, k, kept.nodeId);
    } else {
      assert Fitting(None, k);
      if IsSet(kept) {
        SetOutlives(kept, later);
        assert EntryAfter(None, kept) == Some(EntryOf(kept));
      } else {
        FromNothing(later, k, kept.nodeId);
        assert EntryAfter(None, kept) == None;
      }
    }
  }
}
