/** The operation log on disk: operations are appended to an intermediate file, which is flushed, compacted, sorted
    and compressed, into segments described by an index. Files are byte sequences. */
module OplogFiles {
  import opened PutRule
  import opened Operations
  import opened Compaction
  import opened Sorting
  import opened SortedReplay
  import ParallelCompaction
  import LogCodec

  /** What a segment's entry in the index says about it. */
  datatype Descriptor = Descriptor(min: nat, max: nat, ptr: nat, crc: nat, size: nat, uncompressedSize: nat)

  /** An operation the log can hold and give back unchanged. */
  predicate Loggable(op: OperationBody) {
    IsWrite(op) && LogCodec.InRange(op) && LogCodec.Storable(op) && op.nodeId == 1
  }

  predicate AllLoggable(ops: seq<OperationBody>) {
    forall i :: 0 <= i < |ops| ==> Loggable(ops[i])
  }

  function Flat(segments: seq<seq<Write>>): seq<Write> {
    if segments == [] then [] else segments[0] + Flat(segments[1..])
  }

  lemma {:induction false} FlatAppend(segments: seq<seq<Write>>, segment: seq<Write>)
    ensures Flat(segments + [segment]) == Flat(segments) + segment
  {
    if segments == [] {
      assert segments + [segment] == [segment] && [segment][1..] == [];
    } else {
      FlatAppend(segments[1..], segment);
      assert (segments + [segment])[1..] == segments[1..] + [segment];
    }
  }

  /** Stripping node ids changes nothing that is logged. */
  lemma {:induction false} StrippedLoggable(ops: seq<OperationBody>)
    requires AllLoggable(ops)
    ensures LogCodec.StrippedAll(ops) == ops
  {
    if ops == [] {
    } else {
      assert Loggable(ops[0]);
      StrippedLoggable(ops[1..]);
    }
  }

  /** What is logged is read back. */
  lemma LoggedReadBack(ops: seq<OperationBody>)
    requires AllLoggable(ops)
    ensures LogCodec.SerializeAll(ops) == Some(LogCodec.Records(ops))
    ensures LogCodec.DeserializeAll(LogCodec.Records(ops)) == Some(ops)
  {
    assert LogCodec.AllInRange(ops) && LogCodec.AllStorable(ops) by {
      forall i | 0 <= i < |ops| ensures LogCodec.InRange(ops[i]) && LogCodec.Storable(ops[i]) {
        assert Loggable(ops[i]);
      }
    }
    LogCodec.LogRoundTrip(ops);
    StrippedLoggable(ops);
  }

  /** The parts of an ordered log are ordered. */
  lemma OrderedPart(a: seq<Write>, b: seq<Write>)
    requires PerKeyOrdered(a + b)
    ensures PerKeyOrdered(b)
  {
    forall k ensures NeverDown(OfKey(b, k)) {
      WhereAppend(a, b, Key, k);
      assert NeverDown(OfKey(a + b, k));
      assert forall i :: 0 <= i < |OfKey(b, k)| ==> OfKey(b, k)[i] == OfKey(a + b, k)[|OfKey(a, k)| + i];
    }
  }

  predicate Subset(segment: seq<Write>, batch: seq<Write>) {
    forall x :: x in segment ==> x in batch
  }

  /** What is left of a batch in its segment: operations of the batch, and the last of each key when those are the
      newest. */
  ghost predicate Keeps(batch: seq<Write>, segment: seq<Write>) {
    Subset(segment, batch) && (NoTwins(batch) && LastsAreNewest(batch) ==> KeepsLasts(batch, segment))
  }

  lemma DecidedIsSubset(batch: seq<Write>, compacted: seq<Write>)
    requires forall name :: ParallelCompaction.Decided(OfName(batch, name), OfName(compacted, name))
    ensures Subset(compacted, batch)
    ensures batch != [] ==> compacted != []
  {
    forall x | x in compacted ensures x in batch {
      assert ParallelCompaction.Decided(OfName(batch, Name(x)), OfName(compacted, Name(x)));
      SubsetOfNames(batch, compacted, x);
    }
    if batch != [] {
      var name := Name(batch[0]);
      assert OfName(batch, name) != [];
      assert ParallelCompaction.Decided(OfName(batch, name), OfName(compacted, name));
    }
  }

  lemma DecidedKeeps(batch: seq<Write>, compacted: seq<Write>)
    requires forall name :: ParallelCompaction.Decided(OfName(batch, name), OfName(compacted, name))
    requires NoTwins(batch) && LastsAreNewest(batch)
    ensures KeepsLasts(batch, compacted)
  {
    NewestNames(batch);
    forall name ensures OfName(compacted, name) == if OfName(batch, name) == [] then [] else [Last(OfName(batch, name))] {
      assert ParallelCompaction.Decided(OfName(batch, name), OfName(compacted, name));
    }
    KeptNamesAreKeys(batch, compacted);
  }

  /** Sorting a compacted log leaves it a compacted log. */
  lemma SortedKeepsLasts(log: seq<Write>, compacted: seq<Write>, sorted: seq<Write>)
    requires KeepsLasts(log, compacted) && multiset(sorted) == multiset(compacted)
    ensures KeepsLasts(log, sorted)
  {
    forall k ensures OfKey(sorted, k) == OfKey(compacted, k) {
      SamePermuted(compacted, sorted, k);
    }
  }

  lemma SegmentKeeps(batch: seq<Write>, compacted: seq<Write>, sorted: seq<Write>)
    requires forall name :: ParallelCompaction.Decided(OfName(batch, name), OfName(compacted, name))
    requires multiset(sorted) == multiset(compacted) && AllLoggable(batch)
    ensures Keeps(batch, sorted) && AllLoggable(sorted) && (batch != [] ==> sorted != [])
  {
    DecidedIsSubset(batch, compacted);
    assert |sorted| == |multiset(sorted)| == |multiset(compacted)| == |compacted|;
    forall x | x in sorted ensures x in batch {
      assert x in multiset(sorted);
    }
    forall i | 0 <= i < |sorted| ensures Loggable(sorted[i]) {
      assert sorted[i] in batch;
    }
    if NoTwins(batch) && LastsAreNewest(batch) {
      DecidedKeeps(batch, compacted);
      SortedKeepsLasts(batch, compacted, sorted);
    }
  }

  /** An operation as a client or another node hands it to the log; the node id is dropped on the way. */
  predicate Accepted(op: OperationBody) {
    IsWrite(op) && LogCodec.InRange(op) && LogCodec.Storable(op)
  }

  predicate AllAccepted(ops: seq<OperationBody>) {
    forall i :: 0 <= i < |ops| ==> Accepted(ops[i])
  }

  lemma AcceptedIsLoggable(op: OperationBody)
    requires Accepted(op)
    ensures Loggable(LogCodec.Stripped(op))
  {
    assert LogCodec.TotalLength(LogCodec.Stripped(op)) == LogCodec.TotalLength(op);
  }

  /** The accepted operations as the log holds them. */
  function Logged(ops: seq<OperationBody>): (r: seq<Write>)
    requires AllAccepted(ops)
    ensures AllLoggable(r)
  {
    if ops == [] then []
    else
      assert Accepted(ops[0]);
      AcceptedIsLoggable(ops[0]);
      var first: Write := LogCodec.Stripped(ops[0]);
      [first] + Logged(ops[1..])
  }

  lemma {:induction false} LoggedRecords(ops: seq<OperationBody>)
    requires AllAccepted(ops)
    ensures LogCodec.SerializeAll(ops) == Some(LogCodec.Records(Logged(ops)))
  {
    forall i | 0 <= i < |ops| ensures LogCodec.Writable(ops[i]) {
      assert Accepted(ops[i]);
      forall j | 0 <= j < |LogCodec.Args(ops[i])| ensures |LogCodec.Args(ops[i])[j]| < 256 {
        LogCodec.ArgWithinLength(LogCodec.Args(ops[i]), j);
      }
    }
    SameRecords(ops);
  }

  lemma {:induction false} SameRecords(ops: seq<OperationBody>)
    requires AllAccepted(ops)
    ensures LogCodec.Records(Logged(ops)) == LogCodec.Records(ops)
  {
    if ops == [] {
    } else {
      SameRecords(ops[1..]);
      assert Logged(ops)[1..] == Logged(ops[1..]);
      assert LogCodec.Record(LogCodec.Stripped(ops[0])) == LogCodec.Record(ops[0]);
    }
  }

  lemma Regroup(a: seq<Write>, b: seq<Write>, c: seq<Write>)
    ensures a + (b + c) == a + b + c && a + [] == a
  {}

  lemma AllLoggableAppend(a: seq<Write>, b: seq<Write>)
    requires AllLoggable(a) && AllLoggable(b)
    ensures AllLoggable(a + b)
  {}

  /** When the segment of a batch replays as the batch: exactly when the last operation kept of each key stands for all
      of the key. For a batch short enough for one pass, that is when the batch has no twins and each key is settled by
      what is kept of it; for longer ones, in whatever order equal timestamps come, when the newest operations the tree
      keeps stand for their keys. */
  ghost predicate ReplaysWhen(batch: seq<Write>, segment: seq<Write>, threads: nat)
    requires threads > 0
  {
    && (SameReplay(segment, batch) <==> forall k :: KeptStands(OfKey(batch, k), OfKey(segment, k)))
    && (|batch| <= 10 ==> (SameReplay(segment, batch) <==> NoTwins(batch) && forall k :: Settled(OfKey(batch, k))))
    && (|batch| > 10 ==>
          (forall name :: multiset(OfName(segment, name)) == multiset(ParallelCompaction.RootKept(batch, threads, name))) &&
          ((forall k :: TreeStands(batch, threads, k)) ==> SameReplay(segment, batch)))
  }

  /** What a flush writes: the compacted operations, sorted, and their records. */
  method BuildSegment(toWrite: Bytes, threads: nat, ghost ops: seq<Write>) returns (segment: seq<Write>, serialized: Bytes)
    requires threads > 0 && ops != [] && AllLoggable(ops) && toWrite == LogCodec.Records(ops)
    ensures Keeps(ops, segment) && serialized == LogCodec.Records(segment)
    ensures segment != [] && AllLoggable(segment) && Sorted(segment)
    ensures ReplaysWhen(ops, segment, threads)
  {
    LoggedReadBack(ops);
    var parsed := LogCodec.DeserializeEach(toWrite);
    var operations: seq<Write> := parsed.value;
    var compacted := ParallelCompaction.CompactAny(operations, threads);
    segment := SortBy(compacted, Timestamp);
    SegmentKeeps(ops, compacted, segment);
    LoggedReadBack(segment);
    var text := LogCodec.SerializeEach(segment);
    serialized := text.value;
    OneNodeLogged(ops);
    SortedPerKey(segment);
    SelectionExactly(ops, segment);
    if |ops| > 10 {
      TreeSegment(ops, compacted, segment, threads);
    } else {
      CompactionExactly(ops, compacted, segment);
    }
  }

  /** For one key: `kept` ends as `all` does, and what it ends with is its newest. */
  predicate EndsAs(kept: seq<Write>, all: seq<Write>) {
    (kept == [] <==> all == []) && (all != [] ==> kept != [] && Last(kept) == Last(all)) && LastIsNewest(kept)
  }

  /** For every key, the segments end as what was flushed into them does. */
  ghost predicate SameLasts(kept: seq<Write>, all: seq<Write>) {
    forall k :: EndsAs(OfKey(kept, k), OfKey(all, k))
  }

  lemma EndsAsGrows(kept: seq<Write>, all: seq<Write>, batch: seq<Write>, segment: seq<Write>)
    requires EndsAs(kept, all) && segment == if batch == [] then [] else [Last(batch)]
    requires NeverDown(batch + all)
    ensures EndsAs(segment + kept, batch + all)
  {
    if batch == [] {
      assert segment + kept == kept && batch + all == all;
    } else if all == [] {
      assert segment + kept == segment && batch + all == batch;
    } else {
      var n := |batch + all| - 1;
      assert (batch + all)[n] == Last(all) && (batch + all)[|batch| - 1] == Last(batch);
      assert (segment + kept)[|kept|] == Last(kept);
    }
  }

  /** For every key the segments end as the batches do, when those come in order. */
  lemma {:induction false} SegmentsEnd(segments: seq<seq<Write>>, batches: seq<seq<Write>>)
    requires AllKept(segments, batches)
    requires NoTwins(Flat(batches)) && PerKeyOrdered(Flat(batches))
    ensures SameLasts(Flat(segments), Flat(batches))
  {
    if batches == [] {
    } else {
      var batch, rest := batches[0], Flat(batches[1..]);
      OrderedPart(batch, rest);
      OrderedPrefix(batch, rest);
      OrderedLastsAreNewest(batch);
      TwinsOfParts(batch, rest);
      SegmentsEnd(segments[1..], batches[1..]);
      assert Keeps(batch, segments[0]);
      OneMoreEnds(segments[0], Flat(segments[1..]), batch, rest);
    }
  }

  lemma TwinsOfParts(a: seq<Write>, b: seq<Write>)
    requires NoTwins(a + b)
    ensures NoTwins(a) && NoTwins(b)
  {
    assert forall x :: x in a || x in b ==> x in a + b;
  }

  lemma OneMoreEnds(segment: seq<Write>, kept: seq<Write>, batch: seq<Write>, all: seq<Write>)
    requires KeepsLasts(batch, segment) && SameLasts(kept, all) && PerKeyOrdered(batch + all)
    ensures SameLasts(segment + kept, batch + all)
  {
    forall k ensures EndsAs(OfKey(segment + kept, k), OfKey(batch + all, k)) {
      WhereAppend(segment, kept, Key, k);
      WhereAppend(batch, all, Key, k);
      assert NeverDown(OfKey(batch + all, k));
      assert EndsAs(OfKey(kept, k), OfKey(all, k));
      EndsAsGrows(OfKey(kept, k), OfKey(all, k), OfKey(batch, k), OfKey(segment, k));
    }
  }

  lemma OneNodeLogged(ops: seq<Write>)
    requires AllLoggable(ops)
    ensures OneNode(ops)
  {
    assert forall i :: 0 <= i < |ops| ==> Loggable(ops[i]);
  }

  lemma LoggableOfKey(ops: seq<Write>, k: Bytes)
    requires AllLoggable(ops)
    ensures OneNode(OfKey(ops, k)) && SameKey(OfKey(ops, k), k)
  {
    OneNodeLogged(ops);
    OneNodeOfKey(ops, k);
  }

  lemma SameLastsReplay(kept: seq<Write>, all: seq<Write>)
    requires SameLasts(kept, all) && LastsAreNewest(all) && AllLoggable(kept) && AllLoggable(all)
    ensures SameReplay(kept, all)
  {
    forall store: Store | KeysMatch(store) ensures SameFrom(store, kept, all) {
      forall k ensures Lookup(Replay(store, kept), k) == Lookup(Replay(store, all), k) {
        ReplayAt(store, kept, k);
        ReplayAt(store, all, k);
        LoggableOfKey(kept, k);
        LoggableOfKey(all, k);
        assert EndsAs(OfKey(kept, k), OfKey(all, k));
        if OfKey(all, k) != [] {
          LastDecides(Lookup(store, k), OfKey(kept, k), k);
          LastDecides(Lookup(store, k), OfKey(all, k), k);
        }
      }
      SameLookups(Replay(store, kept), Replay(store, all));
    }
  }

  lemma OrderedPrefix(a: seq<Write>, b: seq<Write>)
    requires PerKeyOrdered(a + b)
    ensures PerKeyOrdered(a)
  {
    forall k ensures NeverDown(OfKey(a, k)) {
      WhereAppend(a, b, Key, k);
      assert NeverDown(OfKey(a + b, k));
      assert forall i :: 0 <= i < |OfKey(a, k)| ==> OfKey(a, k)[i] == OfKey(a + b, k)[i];
    }
  }

  lemma SameReplayRefl(a: seq<Write>)
    ensures SameReplay(a, a)
  {}

  /** Each segment holds what is left of the batch flushed into it. */
  ghost predicate AllKept(segments: seq<seq<Write>>, batches: seq<seq<Write>>) {
    |segments| == |batches| &&
    forall i :: 0 <= i < |batches| ==> Keeps(batches[i], segments[i]) && AllLoggable(batches[i])
  }

  lemma {:induction false} KeptLoggable(segments: seq<seq<Write>>, batches: seq<seq<Write>>)
    requires AllKept(segments, batches)
    ensures AllLoggable(Flat(batches))
  {
    if batches == [] {
    } else {
      KeptLoggable(segments[1..], batches[1..]);
      assert AllLoggable(batches[0]);
    }
  }

  lemma OneMoreKept(segments: seq<seq<Write>>, batches: seq<seq<Write>>, segment: seq<Write>, batch: seq<Write>)
    requires AllKept(segments, batches) && Keeps(batch, segment) && AllLoggable(batch)
    ensures AllKept(segments + [segment], batches + [batch])
  {}

  class Oplog {
    const segmentLimit: nat
    const threads: nat
    const compress: Bytes -> Bytes
    const uncompress: Bytes -> Bytes
    const crc: Bytes -> nat
    var intermediate: Bytes
    var bytesWritten: nat
    var data: Bytes
    var index: seq<Descriptor>
    ghost var segments: seq<seq<Write>>
    ghost var batches: seq<seq<Write>>
    ghost var pending: seq<Write>

    /** The descriptor delimits the segment's own bytes, and bounds its timestamps tightly. */
    ghost predicate Describes(d: Descriptor, file: Bytes, ops: seq<Write>) {
      ops != [] && AllLoggable(ops) && Sorted(ops) && d.ptr + d.size <= |file| &&
      file[d.ptr..d.ptr + d.size] == compress(LogCodec.Records(ops)) &&
      d.crc == crc(compress(LogCodec.Records(ops))) && d.uncompressedSize == |LogCodec.Records(ops)| &&
      d.min == ops[0].timestamp && d.max == Last(ops).timestamp
    }

    lemma DescribesLonger(d: Descriptor, file: Bytes, longer: Bytes, ops: seq<Write>)
      requires Describes(d, file, ops) && file <= longer
      ensures Describes(d, longer, ops)
    {
      assert longer[d.ptr..d.ptr + d.size] == file[d.ptr..d.ptr + d.size];
    }

    lemma DescribedIsRead(d: Descriptor, file: Bytes, ops: seq<Write>)
      requires Describes(d, file, ops) && uncompress(compress(LogCodec.Records(ops))) == LogCodec.Records(ops)
      ensures crc(file[d.ptr..d.ptr + d.size]) == d.crc
      ensures LogCodec.DeserializeAll(uncompress(file[d.ptr..d.ptr + d.size])) == Some(ops)
    {
      LoggedReadBack(ops);
    }

    lemma Fits(d: Descriptor, file: Bytes, ops: seq<Write>)
      requires ops != [] && AllLoggable(ops) && Sorted(ops)
      requires d == Descriptor(ops[0].timestamp, Last(ops).timestamp, |file|, crc(compress(LogCodec.Records(ops))),
                               |compress(LogCodec.Records(ops))|, |LogCodec.Records(ops)|)
      ensures Describes(d, file + compress(LogCodec.Records(ops)), ops)
    {}

    /** From offset `at` to the end, the file holds the segments one after another without gaps, each described by its
        descriptor. */
    ghost predicate Stored(index: seq<Descriptor>, file: Bytes, at: nat, segments: seq<seq<Write>>)
      decreases |index|
    {
      if index == [] then segments == [] && at == |file|
      else
        |segments| == |index| && index[0].ptr == at && Describes(index[0], file, segments[0]) &&
        Stored(index[1..], file, at + index[0].size, segments[1..])
    }

    lemma {:induction false} StoredDescribed(index: seq<Descriptor>, file: Bytes, at: nat, segments: seq<seq<Write>>, i: nat)
      requires Stored(index, file, at, segments) && i < |index|
      ensures |segments| == |index| && Describes(index[i], file, segments[i])
      decreases i
    {
      if i == 0 {
      } else {
        assert index[1..][i - 1] == index[i];
        StoredDescribed(index[1..], file, at + index[0].size, segments[1..], i - 1);
      }
    }

    lemma {:induction false} StoredPlaces(index: seq<Descriptor>, file: Bytes, at: nat, segments: seq<seq<Write>>, i: nat)
      requires Stored(index, file, at, segments) && i < |index|
      ensures index[i].ptr == if i == 0 then at else index[i - 1].ptr + index[i - 1].size
      ensures i + 1 == |index| ==> index[i].ptr + index[i].size == |file|
      decreases i
    {
      if i == 0 {
      } else {
        assert index[1..][i - 1] == index[i];
        StoredPlaces(index[1..], file, at + index[0].size, segments[1..], i - 1);
      }
    }

    lemma StoredAt(index: seq<Descriptor>, file: Bytes, at: nat, segments: seq<seq<Write>>, i: nat)
      requires Stored(index, file, at, segments) && i < |index|
      ensures |segments| == |index| && Describes(index[i], file, segments[i])
      ensures index[i].ptr == if i == 0 then at else index[i - 1].ptr + index[i - 1].size
      ensures i + 1 == |index| ==> index[i].ptr + index[i].size == |file|
    {
      StoredDescribed(index, file, at, segments, i);
      StoredPlaces(index, file, at, segments, i);
    }

    lemma {:induction false} StoredLoggable(index: seq<Descriptor>, file: Bytes, at: nat, segments: seq<seq<Write>>)
      requires Stored(index, file, at, segments)
      ensures AllLoggable(Flat(segments)) && |segments| == |index|
      decreases |index|
    {
      if index == [] {
      } else {
        StoredLoggable(index[1..], file, at + index[0].size, segments[1..]);
      }
    }

    lemma StoredFirst(d: Descriptor, index: seq<Descriptor>, file: Bytes, at: nat, segment: seq<Write>,
                      segments: seq<seq<Write>>)
      requires d.ptr == at && Describes(d, file, segment) && Stored(index, file, at + d.size, segments)
      ensures Stored([d] + index, file, at, [segment] + segments)
    {
      assert ([d] + index)[1..] == index && ([segment] + segments)[1..] == segments;
    }

    lemma {:induction false} StoredOneMore(index: seq<Descriptor>, file: Bytes, at: nat, segments: seq<seq<Write>>,
                                           d: Descriptor, more: Bytes, segment: seq<Write>)
      requires Stored(index, file, at, segments) && Describes(d, file + more, segment)
      requires d.ptr == |file| && d.size == |more|
      ensures Stored(index + [d], file + more, at, segments + [segment])
      decreases |index|
    {
      if index == [] {
        StoredFirst(d, [], file + more, at, segment, []);
        assert index + [d] == [d] + [] && segments + [segment] == [segment] + [];
      } else {
        DescribesLonger(index[0], file, file + more, segments[0]);
        StoredOneMore(index[1..], file, at + index[0].size, segments[1..], d, more, segment);
        StoredFirst(index[0], index[1..] + [d], file + more, at, segments[0], segments[1..] + [segment]);
        assert index + [d] == [index[0]] + (index[1..] + [d]);
        assert segments + [segment] == [segments[0]] + (segments[1..] + [segment]);
      }
    }

    ghost predicate IntermediateHolds()
      reads `bytesWritten, `intermediate, `pending
    {
      bytesWritten == |intermediate| && AllLoggable(pending) && intermediate == LogCodec.Records(pending)
    }

    ghost predicate SegmentsHold()
      reads `index, `data, `segments, `batches
    {
      Stored(index, data, 0, segments) && AllKept(segments, batches)
    }

    ghost predicate Valid()
      reads this
    {
      threads > 0 && (forall b :: uncompress(compress(b)) == b) &&
      IntermediateHolds() && SegmentsHold()
    }

    /** Everything ever added, in order. */
    ghost function Added(): seq<Write>
      reads this
    {
      Flat(batches) + pending
    }

    /** No two keys added agree up to a zero byte, and the timestamps of each key never go down. */
    ghost predicate AddedInOrder()
      reads this
    {
      NoTwins(Added()) && PerKeyOrdered(Added())
    }

    constructor (segmentLimit: nat, threads: nat, compress: Bytes -> Bytes, uncompress: Bytes -> Bytes, crc: Bytes -> nat)
      requires threads > 0 && forall b :: uncompress(compress(b)) == b
      ensures Valid() && segments == [] && batches == [] && pending == [] && this.segmentLimit == segmentLimit
    {
      this.segmentLimit, this.threads := segmentLimit, threads;
      this.compress, this.uncompress, this.crc := compress, uncompress, crc;
      intermediate, bytesWritten, data, index := [], 0, [], [];
      segments, batches, pending := [], [], [];
    }

    /** Appends one segment and its descriptor. */
    method WriteSegment(toWrite: Bytes, ghost ops: seq<Write>)
      requires threads > 0 && ops != [] && AllLoggable(ops) && toWrite == LogCodec.Records(ops)
      requires SegmentsHold()
      modifies this`data, this`index, this`segments, this`batches
      ensures SegmentsHold() && batches == old(batches) + [ops]
      ensures old(data) <= data && old(index) <= index && |index| == |old(index)| + 1
    {
      var segment, serialized := BuildSegment(toWrite, threads, ops);
      var compressed := compress(serialized);
      var descriptor := Descriptor(segment[0].timestamp, segment[|segment| - 1].timestamp, |data|, crc(compressed),
                                   |compressed|, |serialized|);
      Fits(descriptor, data, segment);
      StoredOneMore(index, data, 0, segments, descriptor, compressed, segment);
      OneMoreKept(segments, batches, segment, ops);
      data := data + compressed;
      index := index + [descriptor];
      segments, batches := segments + [segment], batches + [ops];
    }

    method Append(operations: seq<OperationBody>)
      requires IntermediateHolds() && AllAccepted(operations)
      modifies this`intermediate, this`bytesWritten, this`pending
      ensures IntermediateHolds() && pending == old(pending) + Logged(operations)
    {
      LoggedRecords(operations);
      var serialized := LogCodec.SerializeEach(operations);
      LogCodec.RecordsAppend(pending, Logged(operations));
      AllLoggableAppend(pending, Logged(operations));
      intermediate := intermediate + serialized.value;
      bytesWritten := bytesWritten + |serialized.value|;
      pending := pending + Logged(operations);
    }

    /** Moves the intermediate file into a segment. */
    method Flush()
      requires threads > 0 && pending != []
      requires bytesWritten == 0 && AllLoggable(pending) && intermediate == LogCodec.Records(pending) && SegmentsHold()
      modifies this`intermediate, this`pending, this`data, this`index, this`segments, this`batches
      ensures IntermediateHolds() && SegmentsHold() && pending == [] && batches == old(batches) + [old(pending)]
    {
      WriteSegment(intermediate, pending);
      intermediate := [];
      pending := [];
    }

    /** Appends operations, and flushes the intermediate file once it has outgrown the limit. */
    method AddAll(operations: seq<OperationBody>)
      requires Valid() && AllAccepted(operations)
      modifies this
      ensures Valid() && Added() == old(Added()) + Logged(operations)
      ensures if |LogCodec.Records(old(pending) + Logged(operations))| > segmentLimit
              then pending == [] && batches == old(batches) + [old(pending) + Logged(operations)]
              else pending == old(pending) + Logged(operations) && batches == old(batches) && segments == old(segments)
      ensures bytesWritten <= segmentLimit
    {
      Regroup(Flat(batches), pending, Logged(operations));
      Append(operations);
      if bytesWritten > segmentLimit {
        bytesWritten := 0;
        FlatAppend(batches, pending);
        Regroup(Flat(batches) + pending, [], []);
        Flush();
      }
    }

    /** Reads what a descriptor delimits in a file, whatever the file holds: bytes with another checksum are refused. */
    method ReadDescribed(d: Descriptor, file: Bytes) returns (ops: Option<seq<OperationBody>>)
      requires d.ptr + d.size <= |file|
      ensures var bytes := file[d.ptr..d.ptr + d.size];
              ops == if crc(bytes) != d.crc then None else LogCodec.DeserializeAll(uncompress(bytes))
    {
      var bytes := file[d.ptr..d.ptr + d.size];
      if crc(bytes) != d.crc {
        return None;
      }
      ops := LogCodec.DeserializeEach(uncompress(bytes));
    }

    /** Reads a segment through its descriptor. */
    method ReadSegment(i: nat) returns (ops: Option<seq<OperationBody>>)
      requires Valid() && i < |index|
      ensures i < |segments| && ops == Some(segments[i])
    {
      StoredAt(index, data, 0, segments, i);
      var d := index[i];
      DescribedIsRead(d, data, segments[i]);
      ops := ReadDescribed(d, data);
    }

    lemma SegmentsEndAsAdded()
      requires Valid() && AddedInOrder()
      ensures SameLasts(Flat(segments), Flat(batches)) && PerKeyOrdered(Flat(batches))
    {
      OrderedPrefix(Flat(batches), pending);
      TwinsOfParts(Flat(batches), pending);
      SegmentsEnd(segments, batches);
    }

    /** The log loses nothing that was added in order: the segments one after another and then the intermediate file
        make of any store what all the operations ever added make of it. */
    lemma LosesNothing()
      requires Valid() && AddedInOrder()
      ensures SameReplay(Flat(segments) + pending, Added())
    {
      var flushed := Flat(batches);
      SegmentsEndAsAdded();
      OrderedLastsAreNewest(flushed);
      StoredLoggable(index, data, 0, segments);
      KeptLoggable(segments, batches);
      SameLastsReplay(Flat(segments), flushed);
      SameReplayRefl(pending);
      SameReplayAppend(Flat(segments), flushed, pending, pending);
    }
  }
}
