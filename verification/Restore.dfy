/** Restoring a store from the log at start-up. The iterator hands out the intermediate file first and the segments
    after it, and nothing at all when the intermediate file is empty. */
module Restore {
  import opened Lamport
  import opened PutRule
  import opened Operations
  import opened Compaction
  import opened OplogFiles
  import LogCodec

  class OplogIterator {
    const log: Oplog
    var intermediateIterated: bool
    var actualIndexDescriptor: nat

    constructor (log: Oplog)
      ensures this.log == log && !intermediateIterated && actualIndexDescriptor == 0
    {
      this.log, intermediateIterated, actualIndexDescriptor := log, false, 0;
    }

    predicate HasNext()
      reads this, log
    {
      (intermediateIterated && actualIndexDescriptor < |log.index|) || (!intermediateIterated && |log.intermediate| > 0)
    }

    /** The iterator stands somewhere in a log of `n` segments. */
    predicate Within(n: nat)
      reads this
    {
      actualIndexDescriptor <= n && (!intermediateIterated ==> actualIndexDescriptor == 0)
    }

    /** The operations still to come. */
    ghost function Left(segments: seq<seq<Write>>, pending: seq<Write>): seq<Write>
      requires Within(|segments|)
      reads this
    {
      if intermediateIterated then Flat(segments[actualIndexDescriptor..]) else ReplayOrder(segments, pending)
    }

    /** How many calls of Next are left, at most. */
    function CallsLeft(n: nat): int
      reads this
    {
      n - actualIndexDescriptor + if intermediateIterated then 0 else 1
    }

    method Next() returns (ops: seq<Write>)
      requires log.Valid() && Within(|log.segments|) && HasNext()
      modifies this
      ensures Within(|log.segments|) && CallsLeft(|log.segments|) == old(CallsLeft(|log.segments|)) - 1
      ensures old(Left(log.segments, log.pending)) == ops + Left(log.segments, log.pending)
    {
      if !intermediateIterated {
        ops := ReadIntermediate(log);
        intermediateIterated := true;
      } else {
        ops := ReadStored(log, actualIndexDescriptor);
        actualIndexDescriptor := actualIndexDescriptor + 1;
      }
    }
  }

  lemma FlatFrom(segments: seq<seq<Write>>, i: nat)
    requires i < |segments|
    ensures Flat(segments[i..]) == segments[i] + Flat(segments[i + 1..])
  {
    assert segments[i..][1..] == segments[i + 1..];
  }

  method ReadStored(log: Oplog, i: nat) returns (ops: seq<Write>)
    requires log.Valid() && i < |log.index|
    ensures i < |log.segments| && Flat(log.segments[i..]) == ops + Flat(log.segments[i + 1..])
  {
    log.StoredAt(log.index, log.data, 0, log.segments, i);
    var read := log.ReadSegment(i);
    ops := read.value;
    FlatFrom(log.segments, i);
  }

  method ReadIntermediate(log: Oplog) returns (ops: seq<Write>)
    requires log.IntermediateHolds() && |log.intermediate| > 0
    ensures ops == log.pending && forall segments :: ReplayOrder(segments, log.pending) == ops + Flat(segments)
  {
    LoggedReadBack(log.pending);
    var read := LogCodec.DeserializeEach(log.intermediate);
    ops := read.value;
  }

  /** The order in which the iterator hands out what the log holds. */
  function ReplayOrder(segments: seq<seq<Write>>, pending: seq<Write>): seq<Write> {
    if pending == [] then [] else pending + Flat(segments)
  }

  method ApplyAll(store: Store, ops: seq<Write>) returns (applied: Store)
    ensures applied == Replay(store, ops)
  {
    applied := store;
    assert ops[0..] == ops;
    for i := 0 to |ops|
      invariant Replay(applied, ops[i..]) == Replay(store, ops)
    {
      assert ops[i..][0] == ops[i] && ops[i..][1..] == ops[i + 1..];
      applied := Apply(applied, ops[i]);
    }
  }

  lemma NothingLeft(iter: OplogIterator)
    requires iter.log.Valid() && iter.Within(|iter.log.segments|) && !iter.HasNext()
    ensures iter.Left(iter.log.segments, iter.log.pending) == []
  {
    var log := iter.log;
    if iter.intermediateIterated {
      Described(log);
      assert log.segments[|log.segments|..] == [];
    }
  }

  lemma Described(log: Oplog)
    requires log.Valid()
    ensures |log.index| == |log.segments|
  {
    log.StoredLoggable(log.index, log.data, 0, log.segments);
  }

  /** Applies the whole log to a store. */
  method ApplyOplog(log: Oplog, store: Store) returns (restored: Store)
    requires log.Valid()
    ensures restored == Replay(store, ReplayOrder(log.segments, log.pending))
  {
    var iter := new OplogIterator(log);
    restored := store;
    while iter.HasNext()
      invariant iter.log == log && iter.Within(|log.segments|)
      invariant Replay(restored, iter.Left(log.segments, log.pending)) == Replay(store, ReplayOrder(log.segments, log.pending))
      decreases iter.CallsLeft(|log.segments|)
    {
      Described(log);
      var ops := iter.Next();
      ReplayAppend(restored, ops, iter.Left(log.segments, log.pending));
      restored := ApplyAll(restored, ops);
    }
    NothingLeft(iter);
  }

  /** Whether an operation from a segment, applied after a newer one of its key from the intermediate file, leaves
      the newer one's effect alone. */
  predicate Harmless(older: Write, newer: Write) {
    if newer.operatorNumber == DEL then older.operatorNumber == DEL
    else older.timestamp < newer.timestamp || (older.operatorNumber == SET && older.args.value[1] == newer.args.value[1])
  }

  /** Whether the log, as the iterator hands it out, restores an empty store: with an empty intermediate file only
      deletions may be in the segments; otherwise each key's last operation in the segments must be harmless. */
  ghost predicate Recovers(stored: seq<Write>, pending: seq<Write>) {
    if pending == [] then forall k :: OfKey(stored, k) != [] ==> Last(OfKey(stored, k)).operatorNumber == DEL
    else forall k :: OfKey(stored, k) != [] && OfKey(pending, k) != [] ==>
                       Harmless(Last(OfKey(stored, k)), Last(OfKey(pending, k)))
  }

  lemma HarmlessExactly(older: Write, newer: Write, k: Bytes)
    requires Key(older) == k && Key(newer) == k && older.nodeId == newer.nodeId && older.timestamp <= newer.timestamp
    ensures EntryAfter(EntryAfter(None, newer), older) == EntryAfter(None, newer) <==> Harmless(older, newer)
  {
    if older.operatorNumber == SET && newer.operatorNumber == SET && Text(older.args.value[1]) == Text(newer.args.value[1]) {
      TextDiffers(older.args.value[1], newer.args.value[1]);
    }
  }

  /** One key: the operations in segments and in the intermediate file can be swapped exactly when the last of the
      former is harmless. */
  lemma SwappedExactly(stored: seq<Write>, pending: seq<Write>, k: Bytes)
    requires SameKey(stored, k) && SameKey(pending, k) && OneNode(stored + pending)
    requires LastIsNewest(stored) && LastIsNewest(stored + pending)
    ensures EntryAfterAll(None, pending + stored) == EntryAfterAll(None, stored + pending) <==>
            (stored != [] && pending != [] ==> Harmless(Last(stored), Last(pending)))
  {
    if stored == [] || pending == [] {
      assert stored + pending == pending + stored;
    } else {
      assert OneNode(stored) && OneNode(pending) by { OneNodeParts(stored, pending); }
      NewestParts(stored, pending);
      LastDecides(None, stored + pending, k);
      EntryAfterAppend(None, pending, stored);
      LastDecides(None, pending, k);
      LastDecides(EntryAfter(None, Last(pending)), stored, k);
      HarmlessExactly(Last(stored), Last(pending), k);
    }
  }

  lemma OneNodeParts(a: seq<Write>, b: seq<Write>)
    requires OneNode(a + b)
    ensures OneNode(a) && OneNode(b)
    ensures a != [] && b != [] ==> Last(a).nodeId == Last(b).nodeId
  {
    var all := a + b;
    assert forall i :: 0 <= i < |a| ==> a[i] == all[i];
    assert forall i :: 0 <= i < |b| ==> b[i] == all[|a| + i];
  }

  lemma NewestParts(a: seq<Write>, b: seq<Write>)
    requires LastIsNewest(a + b) && b != [] && a != []
    ensures LastIsNewest(b) && Last(b) == Last(a + b) && Last(a).timestamp <= Last(b).timestamp
  {
    var all := a + b;
    assert all[|all| - 1] == Last(b) && all[|a| - 1] == Last(a);
    assert forall i :: 0 <= i < |b| ==> b[i] == all[|a| + i];
  }

  lemma NewestAfterAll(s: seq<Write>, f: seq<Write>, p: seq<Write>)
    requires EndsAs(s, f)
    requires NeverDown(f + p)
    ensures LastIsNewest(s + p)
  {
    if p == [] {
      assert s + p == s;
    } else {
      var n := |f + p| - 1;
      assert (f + p)[n] == Last(p);
      forall x | x in p ensures x.timestamp <= Last(p).timestamp {
        var i :| 0 <= i < |p| && p[i] == x;
        assert (f + p)[|f| + i] == x;
      }
      forall x | x in s ensures x.timestamp <= Last(p).timestamp {
        assert x.timestamp <= Last(s).timestamp;
        assert (f + p)[|f| - 1] == Last(f);
      }
      assert Last(s + p) == Last(p);
      forall i | 0 <= i < |s + p| ensures (s + p)[i].timestamp <= Last(s + p).timestamp {
        assert (s + p)[i] in s || (s + p)[i] in p;
      }
    }
  }

  lemma StoredThenPending(stored: seq<Write>, flushed: seq<Write>, pending: seq<Write>, k: Bytes)
    requires SameLasts(stored, flushed) && PerKeyOrdered(flushed + pending)
    ensures LastIsNewest(OfKey(stored, k)) && LastIsNewest(OfKey(stored, k) + OfKey(pending, k))
  {
    assert EndsAs(OfKey(stored, k), OfKey(flushed, k));
    WhereAppend(flushed, pending, Key, k);
    assert NeverDown(OfKey(flushed + pending, k));
    NewestAfterAll(OfKey(stored, k), OfKey(flushed, k), OfKey(pending, k));
  }

  lemma NodeOfKey(stored: seq<Write>, pending: seq<Write>, k: Bytes)
    requires AllLoggable(stored) && AllLoggable(pending)
    ensures OneNode(OfKey(stored, k) + OfKey(pending, k)) && SameKey(OfKey(stored, k), k) && SameKey(OfKey(pending, k), k)
  {
    LoggableOfKey(stored + pending, k);
    WhereAppend(stored, pending, Key, k);
    LoggableOfKey(stored, k);
    LoggableOfKey(pending, k);
  }

  ghost predicate SameAt(a: Store, b: Store, k: Bytes) {
    Lookup(a, k) == Lookup(b, k)
  }

  lemma SameEverywhere(a: Store, b: Store)
    ensures a == b <==> forall k :: SameAt(a, b, k)
  {
    if forall k :: SameAt(a, b, k) {
      forall k ensures Lookup(a, k) == Lookup(b, k) {
        assert SameAt(a, b, k);
      }
      SameLookups(a, b);
    }
  }

  lemma KeyRestored(log: Oplog, k: Bytes)
    requires log.Valid() && log.AddedInOrder()
    ensures var stored := OfKey(Flat(log.segments), k); var pending := OfKey(log.pending, k);
            SameAt(Replay(map[], ReplayOrder(log.segments, log.pending)), Replay(map[], Flat(log.segments) + log.pending), k) <==>
            if log.pending == [] then stored != [] ==> Last(stored).operatorNumber == DEL
            else stored != [] && pending != [] ==> Harmless(Last(stored), Last(pending))
  {
    var stored, pending := Flat(log.segments), log.pending;
    log.StoredLoggable(log.index, log.data, 0, log.segments);
    log.SegmentsEndAsAdded();
    StoredThenPending(stored, Flat(log.batches), pending, k);
    NodeOfKey(stored, pending, k);
    ReplayAt(map[], stored + pending, k);
    WhereAppend(stored, pending, Key, k);
    ReplayAt(map[], ReplayOrder(log.segments, pending), k);
    if pending == [] {
      NothingRestored(OfKey(stored, k), k);
      assert OfKey(stored, k) + OfKey(pending, k) == OfKey(stored, k);
    } else {
      WhereAppend(pending, stored, Key, k);
      SwappedExactly(OfKey(stored, k), OfKey(pending, k), k);
    }
  }

  lemma NothingRestored(stored: seq<Write>, k: Bytes)
    requires SameKey(stored, k) && LastIsNewest(stored) && OneNode(stored + [])
    ensures EntryAfterAll(None, stored) == None <==> (stored != [] ==> Last(stored).operatorNumber == DEL)
  {
    assert stored + [] == stored;
    if stored != [] {
      LastDecides(None, stored, k);
    }
  }

  /** A node restored from its log, added to in order, holds what it would have had by replaying all it ever logged,
      if and only if the log recovers. */
  lemma RestoredExactly(log: Oplog)
    requires log.Valid() && log.AddedInOrder()
    ensures Replay(map[], ReplayOrder(log.segments, log.pending)) == Replay(map[], log.Added()) <==>
            Recovers(Flat(log.segments), log.pending)
  {
    var stored, pending := Flat(log.segments), log.pending;
    log.LosesNothing();
    assert SameFrom(map[], stored + pending, log.Added());
    SameEverywhere(Replay(map[], ReplayOrder(log.segments, pending)), Replay(map[], stored + pending));
    forall k {
      KeyRestored(log, k);
    }
  }

  function SampleSet(): Write {
    OperationBody(SET, false, false, Some([[7], [8]]), 1, 1)
  }

  function SampleDel(): Write {
    OperationBody(DEL, false, false, Some([[7]]), 2, 1)
  }

  /** A key set in a segment and deleted in the intermediate file comes back at start-up: the log is added to twice,
      and only the first addition is flushed. */
  method DeletedComesBack(threads: nat, compress: Bytes -> Bytes, uncompress: Bytes -> Bytes, crc: Bytes -> nat)
    returns (log: Oplog, restored: Store)
    requires threads > 0 && forall b :: uncompress(compress(b)) == b
    ensures log.Added() == [SampleSet(), SampleDel()]
    ensures Lookup(Replay(map[], log.Added()), [7]) == None
    ensures Lookup(restored, [7]).Some?
  {
    log := SampleLog(threads, compress, uncompress, crc);
    restored := ApplyOplog(log, map[]);
    SampleReplays();
  }

  method SampleLog(threads: nat, compress: Bytes -> Bytes, uncompress: Bytes -> Bytes, crc: Bytes -> nat)
    returns (log: Oplog)
    requires threads > 0 && forall b :: uncompress(compress(b)) == b
    ensures log.Valid() && log.segments == [[SampleSet()]] && log.pending == [SampleDel()]
    ensures log.Added() == [SampleSet(), SampleDel()]
  {
    SampleLengths();
    OneLogged(SampleSet());
    OneLogged(SampleDel());
    log := new Oplog(18, threads, compress, uncompress, crc);
    log.AddAll([SampleSet()]);
    OnlySegment(log, SampleSet());
    log.AddAll([SampleDel()]);
  }

  lemma SampleLengths()
    ensures |LogCodec.Records([SampleSet()])| > 18 >= |LogCodec.Records([SampleDel()])|
    ensures Accepted(SampleSet()) && Accepted(SampleDel())
  {
    var two, one := [[7], [8 as byte]], [[7 as byte]];
    assert two[1..] == [[8]] && [[8 as byte]][1..] == [] && one[1..] == [];
    assert |LogCodec.ArgBytes(one)| == 5 && |LogCodec.ArgBytes(two)| == 10;
  }

  lemma SampleReplays()
    ensures Lookup(Replay(map[], [SampleSet(), SampleDel()]), [7]) == None
    ensures Lookup(Replay(map[], ReplayOrder([[SampleSet()]], [SampleDel()])), [7]).Some?
  {
    var set', del := SampleSet(), SampleDel();
    assert [[set']][1..] == [] && Flat([[set']]) == [set'];
    assert [set', del] == [set'] + [del];
    ReplayAppend(map[], [set'], [del]);
    ReplayAppend(map[], [del], [set']);
    OneReplayed(map[], set');
    OneReplayed(map[], del);
    OneReplayed(Apply(map[], set'), del);
    OneReplayed(Apply(map[], del), set');
  }

  lemma OneLogged(op: Write)
    requires Accepted(op) && op.nodeId == 1
    ensures Logged([op]) == [op] && [] + [op] == [op]
  {
    assert [op][1..] == [];
  }

  /** A batch of one operation becomes a segment of it. */
  lemma OnlySegment(log: Oplog, op: Write)
    requires log.Valid() && log.batches == [[op]]
    ensures log.segments == [[op]]
  {
    var segment := log.segments[0];
    assert Keeps([op], segment);
    forall k ensures LastIsNewest(OfKey([op], k)) { OneWhere(op, Key, k); }
    OneWhere(op, Key, Key(op));
    forall i | 0 <= i < |segment| ensures segment[i] == op {
      assert segment[i] in segment && segment[i] in [op];
    }
    AllOfKey(segment, Key(op));
  }

  lemma OneReplayed(store: Store, op: Write)
    ensures Replay(store, [op]) == Apply(store, op)
  {
    assert [op][1..] == [];
  }
}
