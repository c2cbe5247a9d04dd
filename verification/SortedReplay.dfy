/** Compacted operations in the order of their timestamps, as they are written to a segment. The order of equal
    timestamps is left open. */
module SortedReplay {
  import opened PutRule
  import opened Operations
  import opened Settling
  import opened Compaction
  import opened Sorting
  import Lamport
  import ParallelCompaction

  function Timestamp(op: Write): nat { op.timestamp }

  predicate Sorted(ops: seq<Write>) {
    SortedBy(ops, Timestamp)
  }

  lemma {:induction false} SortedOfKey(ops: seq<Write>, k: Bytes)
    requires Sorted(ops)
    ensures NeverDown(OfKey(ops, k))
  {
    if ops == [] {
    } else {
      assert forall i :: 0 <= i < |ops| ==> Timestamp(ops[0]) <= Timestamp(ops[i]);
      assert Sorted(ops[1..]);
      SortedOfKey(ops[1..], k);
      OfKeySameKey(ops[1..], k);
      var rest := OfKey(ops[1..], k);
      assert forall i :: 0 <= i < |rest| ==> rest[i] in rest;
    }
  }

  lemma SortedPerKey(ops: seq<Write>)
    requires Sorted(ops)
    ensures PerKeyOrdered(ops)
  {
    forall k ensures NeverDown(OfKey(ops, k)) {
      SortedOfKey(ops, k);
    }
  }

  predicate OrderOf(out: seq<Write>, sorted: seq<Write>) {
    Sorted(sorted) && multiset(sorted) == multiset(out)
  }

  /** In every order by timestamp, what was kept replays as the log. */
  ghost predicate AlwaysReplays(out: seq<Write>, log: seq<Write>) {
    forall sorted :: OrderOf(out, sorted) ==> SameReplay(sorted, log)
  }

  predicate Newest(kept: seq<Write>, x: Write) {
    x in kept && forall y :: y in kept ==> y.timestamp <= x.timestamp
  }

  /** Each newest operation kept of a key stands for all of the key. */
  ghost predicate NewestStand(ops: seq<Write>, kept: seq<Write>) {
    ops == [] || (kept != [] && forall x :: Newest(kept, x) ==> Stands(ops, x))
  }

  ghost predicate Stands(ops: seq<Write>, x: Write) {
    exists m :: 0 <= m < |ops| && ops[m] == x && StandsFor(ops, m)
  }

  // ---------------------------------------------------------------- orders

  /** Where an operation goes behind all that are not newer. */
  lemma {:induction false} Place(s: seq<Write>, x: Write) returns (a: seq<Write>, b: seq<Write>)
    requires Sorted(s)
    ensures s == a + b && Sorted(a + [x] + b)
    ensures forall i :: 0 <= i < |b| ==> b[i].timestamp > x.timestamp
  {
    if s == [] {
      a, b := [], [];
    } else {
      var n := |s| - 1;
      if s[n].timestamp > x.timestamp {
        assert Sorted(s[..n]);
        var c, d := Place(s[..n], x);
        a, b := c, d + [s[n]];
        assert s == s[..n] + [s[n]];
        SortedLater(c + [x] + d, s[n], s, x);
        assert c + [x] + d + [s[n]] == a + [x] + b;
      } else {
        a, b := s, [];
        assert forall i :: 0 <= i < |s| ==> Timestamp(s[i]) <= Timestamp(s[n]);
        assert a + [x] + b == s + [x];
      }
    }
  }

  lemma SortedLater(s: seq<Write>, last: Write, was: seq<Write>, x: Write)
    requires Sorted(s) && Sorted(was) && was != [] && last == was[|was| - 1] && last.timestamp > x.timestamp
    requires forall y :: y in s ==> y == x || y in was
    ensures Sorted(s + [last])
  {
    forall i | 0 <= i < |s| ensures Timestamp(s[i]) <= Timestamp(last) {
      assert s[i] in s;
      if s[i] != x {
        var k :| 0 <= k < |was| && was[k] == s[i];
        assert Timestamp(was[k]) <= Timestamp(was[|was| - 1]);
      }
    }
  }

  /** Every list has an order by timestamp. */
  lemma {:induction false} OrderExists(out: seq<Write>) returns (sorted: seq<Write>)
    ensures OrderOf(out, sorted)
  {
    if out == [] {
      sorted := [];
    } else {
      var s := OrderExists(out[1..]);
      var a, b := Place(s, out[0]);
      sorted := a + [out[0]] + b;
      assert out == [out[0]] + out[1..];
    }
  }

  /** One in which an operation comes behind all that are not newer. */
  lemma OrderWithLast(out: seq<Write>, x: Write, k: Bytes) returns (sorted: seq<Write>)
    requires Newest(OfKey(out, k), x)
    ensures OrderOf(out, sorted) && OfKey(sorted, k) != [] && Last(OfKey(sorted, k)) == x
  {
    WhereWithin(out, Key, k);
    var i :| 0 <= i < |out| && out[i] == x;
    var s := OrderExists(out[..i] + out[i + 1..]);
    var a, b := Place(s, x);
    sorted := a + [x] + b;
    TakenOut(out, i);
    assert multiset(sorted) == multiset(s) + multiset{x};
    LastPlaced(out, a, x, b, k);
  }

  lemma TakenOut(out: seq<Write>, i: nat)
    requires i < |out|
    ensures multiset(out) == multiset(out[..i] + out[i + 1..]) + multiset{out[i]}
  {
    assert out == out[..i] + ([out[i]] + out[i + 1..]);
  }

  lemma LastPlaced(out: seq<Write>, a: seq<Write>, x: Write, b: seq<Write>, k: Bytes)
    requires Newest(OfKey(out, k), x) && multiset(a + [x] + b) == multiset(out)
    requires forall i :: 0 <= i < |b| ==> b[i].timestamp > x.timestamp
    ensures OfKey(a + [x] + b, k) == OfKey(a, k) + [x]
  {
    WhereWithin(out, Key, k);
    WhereWithin(b, Key, k);
    WhereAppend(a + [x], b, Key, k);
    WhereAppend(a, [x], Key, k);
    OneWhere(x, Key, k);
    forall i | 0 <= i < |b| ensures Key(b[i]) != k {
      assert b[i] in multiset(a + [x] + b);
    }
    NoneWhere(b, Key, k);
  }

  // ---------------------------------------------------------------- when all orders replay as the log

  /** Whatever was kept of a log, all its orders replay as the log if and only if for each key every newest operation
      kept stands for all. */
  lemma OrdersExactly(log: seq<Write>, out: seq<Write>)
    requires OneNode(log) && forall x :: x in out ==> x in log
    ensures AlwaysReplays(out, log) <==> forall k :: NewestStand(OfKey(log, k), OfKey(out, k))
  {
    if forall k :: NewestStand(OfKey(log, k), OfKey(out, k)) {
      forall sorted | OrderOf(out, sorted) ensures SameReplay(sorted, log) {
        NewestSuffice(log, out, sorted);
      }
    }
    if AlwaysReplays(out, log) {
      forall k ensures NewestStand(OfKey(log, k), OfKey(out, k)) {
        NewestNeeded(log, out, k);
      }
    }
  }

  lemma OrderSelects(log: seq<Write>, out: seq<Write>, sorted: seq<Write>)
    requires OrderOf(out, sorted) && OneNode(log) && forall x :: x in out ==> x in log
    ensures SameReplay(sorted, log) <==> forall k :: KeptStands(OfKey(log, k), OfKey(sorted, k))
  {
    forall x | x in sorted ensures x in log {
      assert x in multiset(sorted);
    }
    SortedPerKey(sorted);
    SelectionExactly(log, sorted);
  }

  lemma SameOfKey(a: seq<Write>, b: seq<Write>, k: Bytes)
    requires multiset(a) == multiset(b)
    ensures forall x :: x in OfKey(a, k) <==> x in OfKey(b, k)
  {
    SameOperationsOfKey(a, b, k);
    assert forall x :: x in OfKey(a, k) <==> x in multiset(OfKey(a, k));
  }

  lemma NewestSuffice(log: seq<Write>, out: seq<Write>, sorted: seq<Write>)
    requires OrderOf(out, sorted) && OneNode(log) && forall x :: x in out ==> x in log
    requires forall k :: NewestStand(OfKey(log, k), OfKey(out, k))
    ensures SameReplay(sorted, log)
  {
    OrderSelects(log, out, sorted);
    forall k ensures KeptStands(OfKey(log, k), OfKey(sorted, k)) {
      assert NewestStand(OfKey(log, k), OfKey(out, k));
      if OfKey(log, k) != [] {
        SameOfKey(sorted, out, k);
        LastIsNewestKept(sorted, out, k);
        assert Stands(OfKey(log, k), Last(OfKey(sorted, k)));
      }
    }
  }

  lemma LastIsNewestKept(sorted: seq<Write>, out: seq<Write>, k: Bytes)
    requires OrderOf(out, sorted) && OfKey(out, k) != []
    ensures OfKey(sorted, k) != [] && Newest(OfKey(out, k), Last(OfKey(sorted, k)))
  {
    SameOfKey(sorted, out, k);
    assert OfKey(out, k)[0] in OfKey(sorted, k);
    SortedOfKey(sorted, k);
    var kept := OfKey(sorted, k);
    assert Last(kept) in kept;
    forall y | y in kept ensures y.timestamp <= Last(kept).timestamp {
      var i :| 0 <= i < |kept| && kept[i] == y;
    }
  }

  lemma NewestNeeded(log: seq<Write>, out: seq<Write>, k: Bytes)
    requires OneNode(log) && (forall x :: x in out ==> x in log) && AlwaysReplays(out, log)
    ensures NewestStand(OfKey(log, k), OfKey(out, k))
  {
    if OfKey(log, k) != [] {
      var some := OrderExists(out);
      OrderSelects(log, out, some);
      assert KeptStands(OfKey(log, k), OfKey(some, k));
      SameOfKey(some, out, k);
      assert OfKey(some, k)[0] in OfKey(out, k);
      forall x | Newest(OfKey(out, k), x) ensures Stands(OfKey(log, k), x) {
        var sorted := OrderWithLast(out, x, k);
        OrderSelects(log, out, sorted);
        assert KeptStands(OfKey(log, k), OfKey(sorted, k));
      }
    }
  }

  // ---------------------------------------------------------------- the compaction tree

  /** Each newest operation the tree keeps of a key stands for all of the key: a condition on the log and the number of
      threads alone. */
  ghost predicate TreeStands(log: seq<Write>, threads: nat, k: Bytes)
    requires threads > 0
  {
    NewestStand(OfKey(log, k), OfKey(ParallelCompaction.RootKept(log, threads, UpToZero(k)), k))
  }

  /** What the tree keeps of a log, in every order by timestamp, replays as the log from every store if and only if each
      newest operation it keeps of a key stands for all of the key. */
  lemma TreeExactly(log: seq<Write>, threads: nat, out: seq<Write>)
    requires threads > 0 && OneNode(log)
    requires forall name :: OfName(out, name) == ParallelCompaction.RootKept(log, threads, name)
    ensures (forall x :: x in out ==> x in log) && (AlwaysReplays(out, log) <==> forall k :: TreeStands(log, threads, k))
  {
    forall x | x in out ensures x in log {
      WhereWithin(out, Name, Name(x));
      assert x in OfName(out, Name(x));
      ParallelCompaction.RootKeptIn(log, threads, Name(x));
    }
    OrdersExactly(log, out);
    forall k ensures TreeStands(log, threads, k) <==> NewestStand(OfKey(log, k), OfKey(out, k)) {
      KeyWithinName(out, k);
      assert OfName(out, UpToZero(k)) == ParallelCompaction.RootKept(log, threads, UpToZero(k));
    }
  }

  /** A segment is one such order. */
  lemma TreeSegment(log: seq<Write>, compacted: seq<Write>, segment: seq<Write>, threads: nat)
    requires threads > 0 && OneNode(log) && OrderOf(compacted, segment)
    requires forall name :: OfName(compacted, name) == ParallelCompaction.RootKept(log, threads, name)
    ensures forall name :: multiset(OfName(segment, name)) == multiset(ParallelCompaction.RootKept(log, threads, name))
    ensures (forall k :: TreeStands(log, threads, k)) ==> SameReplay(segment, log)
  {
    TreeExactly(log, threads, compacted);
    forall name ensures multiset(OfName(segment, name)) == multiset(OfName(compacted, name)) {
      forall x ensures multiset(OfName(segment, name))[x] == multiset(OfName(compacted, name))[x] {
        WhereCounts(segment, Name, name, x);
        WhereCounts(compacted, Name, name, x);
      }
    }
  }

  /** Out of order, the tree loses the newest write too: nine operations on other keys and then timestamps 4, 5, 3. */
  lemma TreeLoses(others: seq<Write>, log: seq<Write>, out: seq<Write>)
    requires |others| == 9 && (forall i :: 0 <= i < 9 ==> Name(others[i]) != [7])
    requires log == others + [SetAt(4), SetAt(5), SetAt(3)]
    requires forall name :: OfName(out, name) == ParallelCompaction.RootKept(log, 1, name)
    ensures Lookup(Replay(map[], log), [7]) == Some(DataEntry(Text([7]), Text([5]), Lamport.Stamp(5, 1)))
    ensures Lookup(Replay(map[], out), [7]) == Some(DataEntry(Text([7]), Text([4]), Lamport.Stamp(4, 1)))
  {
    var tail := [SetAt(4), SetAt(5), SetAt(3)];
    TailOfKey(others, tail);
    ReplayAt(map[], log, [7]);
    OutOfOrderReplay(tail);
    ShareOfTail(others, log);
    KeptOfTail(log, tail);
    OnlyFourth(out);
  }

  lemma OnlyFourth(out: seq<Write>)
    requires OfName(out, [7]) == [SetAt(4)]
    ensures Lookup(Replay(map[], out), [7]) == Some(DataEntry(Text([7]), Text([4]), Lamport.Stamp(4, 1)))
  {
    SevenNamed();
    KeyWithinName(out, [7]);
    OneWhere(SetAt(4), Key, [7]);
    ReplayAt(map[], out, [7]);
    assert EntryAfterAll(None, [SetAt(4)]) == EntryAfter(None, SetAt(4)) by { assert [SetAt(4)][1..] == []; }
  }

  lemma SevenNamed()
    ensures UpToZero([7]) == [7]
  {
    assert [7 as byte][1..] == [];
  }

  lemma TailOfKey(others: seq<Write>, tail: seq<Write>)
    requires (forall i :: 0 <= i < |others| ==> Name(others[i]) != [7]) && tail == [SetAt(4), SetAt(5), SetAt(3)]
    ensures OfKey(others + tail, [7]) == tail
  {
    TailNamed(tail);
    SevenNamed();
    NoneWhere(others, Name, [7]);
    WhereAppend(others, tail, Name, [7]);
    assert [] + tail == tail;
    KeyWithinName(others + tail, [7]);
    AllOfKey(tail, [7]);
  }

  lemma {:induction false} NoneWhere(ops: seq<Write>, id: Write -> Bytes, k: Bytes)
    requires forall i :: 0 <= i < |ops| ==> id(ops[i]) != k
    ensures Where(ops, id, k) == []
  {
    if ops == [] {
    } else {
      NoneWhere(ops[1..], id, k);
    }
  }

  lemma {:induction false} AllNamed(ops: seq<Write>, name: Bytes)
    requires forall i :: 0 <= i < |ops| ==> Name(ops[i]) == name
    ensures OfName(ops, name) == ops
  {
    if ops == [] {
    } else {
      AllNamed(ops[1..], name);
    }
  }

  lemma TailNamed(tail: seq<Write>)
    requires tail == [SetAt(4), SetAt(5), SetAt(3)]
    ensures OfName(tail, [7]) == tail && SameKey(tail, [7])
  {
    SevenNamed();
    AllNamed(tail, [7]);
  }

  /** With one thread the log is cut in two. */
  lemma ShareOfTail(others: seq<Write>, log: seq<Write>)
    requires |others| == 9 && (forall i :: 0 <= i < 9 ==> Name(others[i]) != [7])
    requires log == others + [SetAt(4), SetAt(5), SetAt(3)]
    ensures OfName(ParallelCompaction.Share(log, 0, 2), [7]) == []
    ensures OfName(ParallelCompaction.Share(log, 1, 2), [7]) == [SetAt(4), SetAt(5), SetAt(3)]
  {
    var tail := [SetAt(4), SetAt(5), SetAt(3)];
    assert ParallelCompaction.Share(log, 0, 2) == others[..6];
    assert ParallelCompaction.Share(log, 1, 2) == others[6..] + tail;
    NoneWhere(others[..6], Name, [7]);
    NoneWhere(others[6..], Name, [7]);
    WhereAppend(others[6..], tail, Name, [7]);
    TailNamed(tail);
  }

  lemma KeptOfTail(log: seq<Write>, tail: seq<Write>)
    requires tail == [SetAt(4), SetAt(5), SetAt(3)]
    requires OfName(ParallelCompaction.Share(log, 0, 2), [7]) == [] && OfName(ParallelCompaction.Share(log, 1, 2), [7]) == tail
    ensures ParallelCompaction.RootKept(log, 1, [7]) == [SetAt(4)]
  {
    assert FirstAbove(tail[..2], 3) == Some(SetAt(4));
    var shares := ParallelCompaction.Shares(log, 2);
    assert ParallelCompaction.TreeKept(shares, 2, 1, 0, [7]) == [];
    assert ParallelCompaction.TreeKept(shares, 2, 1, 1, [7]) == tail;
    assert ParallelCompaction.RootKept(log, 1, [7]) == ParallelCompaction.Merged([], tail);
  }
}
