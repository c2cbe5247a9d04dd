/** Log compaction: one operation per key is kept. */
module Compaction {
  import Lamport
  import opened PutRule
  import opened Operations
  import opened Settling

  /** Keys are told apart by a comparison that stops at a zero byte. */
  function UpToZero(b: Bytes): Bytes {
    if b == [] || b[0] == 0 then [] else [b[0]] + UpToZero(b[1..])
  }

  function Name(op: Write): Bytes {
    UpToZero(Key(op))
  }

  function OfName(ops: seq<Write>, name: Bytes): seq<Write> {
    Where(ops, Name, name)
  }

  /** Different keys of the log differ before their first zero byte. */
  predicate NoTwins(log: seq<Write>) {
    forall x, y :: x in log && y in log && Name(x) == Name(y) ==> Key(x) == Key(y)
  }

  type Timestamps = map<Bytes, nat>

  function Seen(ts: Timestamps, k: Bytes): Option<nat> {
    if k in ts then Some(ts[k]) else None
  }

  function Kept(kept: map<Bytes, Write>, k: Bytes): Option<Write> {
    if k in kept then Some(kept[k]) else None
  }

  function Last(ops: seq<Write>): Write
    requires ops != []
  {
    ops[|ops| - 1]
  }

  /** The earliest operation with a timestamp above `t`. */
  function FirstAbove(ops: seq<Write>, t: nat): Option<Write> {
    if ops == [] then None
    else if ops[0].timestamp > t then Some(ops[0])
    else FirstAbove(ops[1..], t)
  }

  /** Which of the operations of one key survives: without a timestamp seen before, the last one, unless an
      earlier one has a greater timestamp; otherwise the earliest one above that timestamp, if any. */
  function Survivor(ops: seq<Write>, seen: Option<nat>): Option<Write> {
    match seen
    case Some(t) => FirstAbove(ops, t)
    case None =>
      if ops == [] then None
      else if FirstAbove(ops[..|ops| - 1], Last(ops).timestamp).Some? then FirstAbove(ops[..|ops| - 1], Last(ops).timestamp)
      else Some(Last(ops))
  }

  function SeenAfter(ops: seq<Write>, seen: Option<nat>): Option<nat> {
    if seen.Some? || ops == [] then seen else Some(Last(ops).timestamp)
  }

  function One(o: Option<Write>): seq<Write> {
    if o.Some? then [o.value] else []
  }

  lemma SurvivorCons(op: Write, rest: seq<Write>, seen: Option<nat>)
    ensures SeenAfter([op] + rest, seen) == if SeenAfter(rest, seen).Some? then SeenAfter(rest, seen) else Some(op.timestamp)
    ensures Survivor([op] + rest, seen) ==
            if SeenAfter(rest, seen).None? || SeenAfter(rest, seen).value < op.timestamp then Some(op)
            else Survivor(rest, seen)
  {
    assert ([op] + rest)[1..] == rest;
    if rest != [] {
      assert Last([op] + rest) == Last(rest);
      assert ([op] + rest)[..|rest|] == [op] + rest[..|rest| - 1];
      assert ([op] + rest[..|rest| - 1])[1..] == rest[..|rest| - 1];
    } else {
      assert [op] + rest == [op] && [op][..0] == [];
    }
  }

  lemma {:induction false} NoneAbove(ops: seq<Write>, t: nat)
    ensures FirstAbove(ops, t).None? <==> forall i :: 0 <= i < |ops| ==> ops[i].timestamp <= t
    ensures FirstAbove(ops, t).Some? ==> FirstAbove(ops, t).value in ops && FirstAbove(ops, t).value.timestamp > t
  {
    if ops == [] {
    } else {
      NoneAbove(ops[1..], t);
      if FirstAbove(ops, t).None? {
        forall i | 0 <= i < |ops| ensures ops[i].timestamp <= t {
          if i > 0 { assert ops[i] == ops[1..][i - 1]; }
        }
      } else if ops[0].timestamp <= t {
        var x := FirstAbove(ops[1..], t).value;
        var i :| 0 <= i < |ops[1..]| && ops[1..][i] == x;
        assert ops[i + 1] == x;
      }
    }
  }

  /** The last operation of a key survives exactly when its timestamp is the greatest of the key's. */
  lemma SurvivorIsLast(ops: seq<Write>)
    requires ops != []
    ensures Survivor(ops, None).Some? && Survivor(ops, None).value in ops
    ensures Survivor(ops, None).value.timestamp == Last(ops).timestamp <==> LastIsNewest(ops)
    ensures LastIsNewest(ops) ==> Survivor(ops, None) == Some(Last(ops))
  {
    var n := |ops| - 1;
    NoneAbove(ops[..n], ops[n].timestamp);
    if !FirstAbove(ops[..n], ops[n].timestamp).None? {
      var x := FirstAbove(ops[..n], ops[n].timestamp).value;
      var i :| 0 <= i < n && ops[..n][i] == x;
      assert ops[i].timestamp > ops[n].timestamp;
    } else {
      forall i | 0 <= i < |ops| ensures ops[i].timestamp <= ops[n].timestamp {
        if i < n { assert ops[..n][i] == ops[i]; }
      }
    }
  }

  /** The values of `kept`, one for each key, in some order. */
  method CollectValues(kept: map<Bytes, Write>) returns (values: seq<Write>)
    requires forall k :: k in kept ==> Name(kept[k]) == k
    ensures forall k :: OfName(values, k) == One(Kept(kept, k))
  {
    values := [];
    var keys := kept.Keys;
    while keys != {}
      invariant keys <= kept.Keys
      invariant forall k :: OfName(values, k) == if k in keys then [] else One(Kept(kept, k))
    {
      var key :| key in keys;
      forall k ensures OfName(values + [kept[key]], k) == if k in keys - {key} then [] else One(Kept(kept, k)) {
        WhereAppend(values, [kept[key]], Name, k);
        assert OfName([kept[key]], k) == if key == k then [kept[key]] else [];
      }
      values := values + [kept[key]];
      keys := keys - {key};
    }
  }

  /** One compaction pass, last operation first. What it keeps is appended to `compacted`, and the timestamps it
      meets first are added to `timestampsByKeys`, for a pass over older operations. */
  method Compact(uncompacted: seq<Write>, compacted: seq<Write>, timestampsByKeys: Timestamps)
    returns (out: seq<Write>, ts: Timestamps)
    ensures forall k :: OfName(out, k) == OfName(compacted, k) + One(Survivor(OfName(uncompacted, k), Seen(timestampsByKeys, k)))
    ensures forall k :: Seen(ts, k) == SeenAfter(OfName(uncompacted, k), Seen(timestampsByKeys, k))
  {
    ts := timestampsByKeys;
    var kept: map<Bytes, Write> := map[];
    var i := |uncompacted|;
    assert uncompacted[i..] == [];
    while i > 0
      invariant 0 <= i <= |uncompacted|
      invariant forall k :: k in kept ==> Name(kept[k]) == k
      invariant forall k :: Kept(kept, k) == Survivor(OfName(uncompacted[i..], k), Seen(timestampsByKeys, k))
      invariant forall k :: Seen(ts, k) == SeenAfter(OfName(uncompacted[i..], k), Seen(timestampsByKeys, k))
    {
      i := i - 1;
      var op := uncompacted[i];
      var key := Name(op);
      ghost var rest := uncompacted[i + 1..];
      assert uncompacted[i..] == [op] + rest;
      assert ([op] + rest)[1..] == rest;
      assert forall k :: k != key ==> OfName(uncompacted[i..], k) == OfName(rest, k);
      assert OfName(uncompacted[i..], key) == [op] + OfName(rest, key);
      SurvivorCons(op, OfName(rest, key), Seen(timestampsByKeys, key));
      if key in ts {
        if ts[key] < op.timestamp {
          kept := kept[key := op];
        }
      } else {
        ts := ts[key := op.timestamp];
        kept := kept[key := op];
      }
    }
    assert uncompacted[0..] == uncompacted;
    var values := CollectValues(kept);
    out := compacted + values;
    forall k ensures OfName(out, k) == OfName(compacted, k) + One(Survivor(OfName(uncompacted, k), Seen(timestampsByKeys, k))) {
      WhereAppend(compacted, values, Name, k);
    }
  }

  /** What a pass over a log on its own keeps. */
  ghost predicate KeepsSurvivors(log: seq<Write>, out: seq<Write>) {
    forall name :: OfName(out, name) == One(Survivor(OfName(log, name), None))
  }

  // ---------------------------------------------------------------- what is kept

  /** The last operation of every key, once, and nothing else. */
  ghost predicate KeepsLasts(log: seq<Write>, out: seq<Write>) {
    forall k :: OfKey(out, k) == if OfKey(log, k) == [] then [] else [Last(OfKey(log, k))]
  }

  ghost predicate KeepsLastNames(log: seq<Write>, out: seq<Write>) {
    forall name :: OfName(out, name) == if OfName(log, name) == [] then [] else [Last(OfName(log, name))]
  }

  /** The last operation of every key is the newest of its key. */
  ghost predicate LastsAreNewest(log: seq<Write>) {
    forall k :: LastIsNewest(OfKey(log, k))
  }

  ghost predicate LastNamesAreNewest(log: seq<Write>) {
    forall name :: LastIsNewest(OfName(log, name))
  }

  /** Operations of a key are among those of its name. */
  lemma {:induction false} KeyWithinName(ops: seq<Write>, k: Bytes)
    ensures OfKey(ops, k) == OfKey(OfName(ops, UpToZero(k)), k)
  {
    if ops == [] {
    } else {
      KeyWithinName(ops[1..], k);
      var named := OfName(ops[1..], UpToZero(k));
      assert ([ops[0]] + named)[1..] == named;
    }
  }

  lemma {:induction false} AllOfKey(ops: seq<Write>, k: Bytes)
    requires SameKey(ops, k)
    ensures OfKey(ops, k) == ops
  {
    if ops == [] {
    } else {
      AllOfKey(ops[1..], k);
    }
  }

  /** Without twins a name is a key. */
  lemma NameIsKey(log: seq<Write>, k: Bytes)
    requires NoTwins(log) && OfKey(log, k) != []
    ensures OfName(log, UpToZero(k)) == OfKey(log, k)
  {
    var named := OfName(log, UpToZero(k));
    WhereWithin(log, Key, k);
    WhereWithin(log, Name, UpToZero(k));
    var x := OfKey(log, k)[0];
    assert x in OfKey(log, k);
    forall i | 0 <= i < |named| ensures Key(named[i]) == k {
      assert named[i] in named;
    }
    AllOfKey(named, k);
    KeyWithinName(log, k);
  }

  lemma {:induction false} NameOfSome(log: seq<Write>, name: Bytes)
    requires OfName(log, name) != []
    ensures exists x :: x in log && Name(x) == name
  {
    WhereWithin(log, Name, name);
    assert OfName(log, name)[0] in OfName(log, name);
  }

  lemma NewestNames(log: seq<Write>)
    requires NoTwins(log) && LastsAreNewest(log)
    ensures LastNamesAreNewest(log)
  {
    forall name ensures LastIsNewest(OfName(log, name)) {
      if OfName(log, name) != [] {
        NameOfSome(log, name);
        var x :| x in log && Name(x) == name;
        WhereWithin(log, Key, Key(x));
        assert x in OfKey(log, Key(x));
        NameIsKey(log, Key(x));
      }
    }
  }

  lemma SubsetOfNames(log: seq<Write>, out: seq<Write>, x: Write)
    requires x in out && forall y :: y in OfName(out, Name(x)) ==> y in OfName(log, Name(x))
    ensures x in log
  {
    WhereWithin(out, Name, Name(x));
    WhereWithin(log, Name, Name(x));
    assert x in OfName(out, Name(x));
  }

  lemma OneWhere(x: Write, id: Write -> Bytes, k: Bytes)
    ensures Where([x], id, k) == if id(x) == k then [x] else []
  {
    assert [x][1..] == [] && Where([x][1..], id, k) == [];
  }

  /** Without twins, keeping the last of each name is keeping the last of each key. */
  lemma KeptNamesAreKeys(log: seq<Write>, out: seq<Write>)
    requires NoTwins(log) && KeepsLastNames(log, out)
    ensures KeepsLasts(log, out)
  {
    forall k ensures OfKey(out, k) == if OfKey(log, k) == [] then [] else [Last(OfKey(log, k))] {
      KeyWithinName(out, k);
      var named := OfName(log, UpToZero(k));
      if OfKey(log, k) != [] {
        NameIsKey(log, k);
        WhereWithin(log, Key, k);
        assert Last(named) in OfKey(log, k);
        OneWhere(Last(named), Key, k);
      } else if named != [] {
        WhereWithin(log, Name, UpToZero(k));
        WhereWithin(log, Key, k);
        assert Last(named) in named;
        OneWhere(Last(named), Key, k);
      }
    }
  }

  /** Compaction keeps exactly the last operations if and only if each of them is the newest of its key. */
  lemma KeepsLastsExactly(log: seq<Write>, out: seq<Write>)
    requires KeepsSurvivors(log, out)
    ensures KeepsLastNames(log, out) <==> LastNamesAreNewest(log)
  {
    forall name ensures LastIsNewest(OfName(log, name)) <==>
                        OfName(out, name) == if OfName(log, name) == [] then [] else [Last(OfName(log, name))]
    {
      if OfName(log, name) != [] {
        SurvivorIsLast(OfName(log, name));
      }
    }
  }

  method CompactLog(log: seq<Write>) returns (out: seq<Write>)
    ensures KeepsSurvivors(log, out)
    ensures KeepsLastNames(log, out) <==> LastNamesAreNewest(log)
  {
    var ts;
    out, ts := Compact(log, [], map[]);
    assert forall k :: OfName([], k) == [];
    KeepsLastsExactly(log, out);
  }

  predicate NeverDown(ops: seq<Write>) {
    forall i, j :: 0 <= i <= j < |ops| ==> ops[i].timestamp <= ops[j].timestamp
  }

  /** A log in which timestamps of one key never decrease. */
  ghost predicate PerKeyOrdered(log: seq<Write>) {
    forall k :: NeverDown(OfKey(log, k))
  }

  lemma OrderedLastsAreNewest(log: seq<Write>)
    requires PerKeyOrdered(log)
    ensures LastsAreNewest(log)
  {
    forall k ensures LastIsNewest(OfKey(log, k)) {
      assert NeverDown(OfKey(log, k));
    }
  }

  lemma SameOperationsOfKey(a: seq<Write>, b: seq<Write>, k: Bytes)
    requires multiset(a) == multiset(b)
    ensures multiset(OfKey(a, k)) == multiset(OfKey(b, k))
  {
    forall x ensures multiset(OfKey(a, k))[x] == multiset(OfKey(b, k))[x] {
      WhereCounts(a, Key, k, x);
      WhereCounts(b, Key, k, x);
    }
  }

  lemma SingleIsFixed(a: seq<Write>, b: seq<Write>)
    requires multiset(a) == multiset(b) && |a| <= 1
    ensures a == b
  {
    assert |a| == |multiset(a)| == |multiset(b)| == |b|;
    if |a| == 1 {
      assert a[0] in multiset(b);
    }
  }

  lemma OneNodeOfKey(log: seq<Write>, k: Bytes)
    requires OneNode(log)
    ensures OneNode(OfKey(log, k)) && SameKey(OfKey(log, k), k)
  {
    OfKeySameKey(log, k);
    forall x, y | x in OfKey(log, k) && y in OfKey(log, k) ensures x.nodeId == y.nodeId {
      var i :| 0 <= i < |log| && log[i] == x;
      var j :| 0 <= j < |log| && log[j] == y;
    }
  }

  lemma SamePermuted(a: seq<Write>, b: seq<Write>, k: Bytes)
    requires multiset(a) == multiset(b) && |OfKey(a, k)| <= 1
    ensures OfKey(a, k) == OfKey(b, k)
  {
    SameOperationsOfKey(a, b, k);
    SingleIsFixed(OfKey(a, k), OfKey(b, k));
  }

  /** Replaying the last operation of each key, in any order, gives what replaying the whole log gives, from any
      store, when each is the newest of its key. */
  lemma CompactionPreservesReplay(log: seq<Write>, out: seq<Write>, shuffled: seq<Write>)
    requires OneNode(log) && LastsAreNewest(log)
    requires KeepsLasts(log, out) && multiset(shuffled) == multiset(out)
    ensures SameReplay(shuffled, log)
  {
    forall k ensures SameEffect(OfKey(shuffled, k), OfKey(log, k), k) {
      SamePermuted(out, shuffled, k);
      OneNodeOfKey(log, k);
      var ops := OfKey(log, k);
      if ops != [] {
        assert [Last(ops)][1..] == [];
        forall was | Fitting(was, k) ensures EntryAfterAll(was, [Last(ops)]) == EntryAfterAll(was, ops) {
          LastDecides(was, ops, k);
        }
      }
    }
    SameReplayByKey(shuffled, log);
  }

  // ---------------------------------------------------------------- when compaction preserves replay

  /** Where the first timestamp above `t` is; past the end when there is none. */
  function FirstAboveAt(ops: seq<Write>, t: nat): (i: nat)
    ensures i <= |ops|
  {
    if ops == [] || ops[0].timestamp > t then 0 else 1 + FirstAboveAt(ops[1..], t)
  }

  /** Where the operation that survives is. */
  function SurvivorAt(ops: seq<Write>): (m: nat)
    requires ops != []
    ensures m < |ops|
  {
    FirstAboveAt(ops[..|ops| - 1], Last(ops).timestamp)
  }

  lemma {:induction false} FirstAboveIsAt(ops: seq<Write>, t: nat)
    ensures var i := FirstAboveAt(ops, t);
            (forall j :: 0 <= j < i ==> ops[j].timestamp <= t) &&
            FirstAbove(ops, t) == if i < |ops| then Some(ops[i]) else None
    ensures FirstAboveAt(ops, t) < |ops| ==> ops[FirstAboveAt(ops, t)].timestamp > t
  {
    if ops == [] || ops[0].timestamp > t {
    } else {
      FirstAboveIsAt(ops[1..], t);
    }
  }

  lemma SurvivorIsAt(ops: seq<Write>)
    requires ops != []
    ensures var m := SurvivorAt(ops);
            Survivor(ops, None) == Some(ops[m]) && forall j :: 0 <= j < m ==> ops[j].timestamp <= ops[m].timestamp
  {
    var n := |ops| - 1;
    FirstAboveIsAt(ops[..n], Last(ops).timestamp);
    assert forall j :: 0 <= j < n ==> ops[..n][j] == ops[j];
  }

  /** The operation a key keeps settles all that come after it. */
  predicate Settled(ops: seq<Write>) {
    ops == [] || Settles(ops[SurvivorAt(ops)], ops[SurvivorAt(ops) + 1..])
  }

  lemma OlderDrop(was: Option<Entry>, before: seq<Write>, kept: Write, later: seq<Write>, k: Bytes)
    requires Uniform(before, k, kept.nodeId) && Key(kept) == k && Fitting(was, k)
    requires forall j :: 0 <= j < |before| ==> before[j].timestamp <= kept.timestamp
    ensures EntryAfterAll(was, before + ([kept] + later)) == EntryAfterAll(was, [kept] + later)
  {
    EntryAfterAppend(was, before, [kept] + later);
    assert ([kept] + later)[0] == kept && ([kept] + later)[1..] == later;
    OlderDoNotMatter(was, before, kept, k);
  }

  /** One key: what is kept stands for all, from every entry, exactly when it settles what comes after it. */
  lemma KeptExactly(ops: seq<Write>, k: Bytes)
    requires ops != [] && SameKey(ops, k) && OneNode(ops)
    ensures SameEffect([ops[SurvivorAt(ops)]], ops, k) <==> Settled(ops)
  {
    SurvivorIsAt(ops);
    StandsExactly(ops, SurvivorAt(ops), k);
  }

  /** What one operation among those of its key must be like to stand for them all. */
  predicate StandsFor(ops: seq<Write>, m: nat)
    requires m < |ops|
  {
    (forall j :: 0 <= j < m ==> ops[j].timestamp <= ops[m].timestamp) && Settles(ops[m], ops[m + 1..])
  }

  lemma SplitExactly(before: seq<Write>, kept: Write, later: seq<Write>, k: Bytes)
    requires Uniform(before, k, kept.nodeId) && Key(kept) == k && Uniform(later, k, kept.nodeId)
    ensures SameEffect([kept], before + ([kept] + later), k) <==>
            (forall j :: 0 <= j < |before| ==> before[j].timestamp <= kept.timestamp) && Settles(kept, later)
  {
    if j :| 0 <= j < |before| && before[j].timestamp > kept.timestamp {
      NewerBefore(before, kept, later, k, j);
    } else {
      forall was | Fitting(was, k)
        ensures EntryAfterAll(was, before + ([kept] + later)) == EntryAfterAll(was, [kept] + later)
      {
        OlderDrop(was, before, kept, later, k);
      }
      SettlesExactly(kept, later, k);
    }
  }

  lemma NewerBefore(before: seq<Write>, kept: Write, later: seq<Write>, k: Bytes, j: nat)
    requires Uniform(before, k, kept.nodeId) && Key(kept) == k && Uniform(later, k, kept.nodeId)
    requires j < |before| && before[j].timestamp > kept.timestamp
    ensures !SameEffect([kept], before + ([kept] + later), k)
  {
    var all := before + ([kept] + later);
    var was := Some(DataEntry(Text(k), "", Lamport.Stamp(kept.timestamp, kept.nodeId + 1)));
    assert Fitting(was, k) && EntryAfter(was, kept) == was;
    assert EntryAfterAll(was, [kept]) == was by { assert [kept][1..] == []; }
    assert all[j] == before[j];
    OthersIsLost(was, all, j, k, kept.nodeId);
  }

  /** What is kept of a key stands for all of it: its last operation does. */
  ghost predicate KeptStands(ops: seq<Write>, kept: seq<Write>) {
    ops == [] || (kept != [] && exists m :: 0 <= m < |ops| && ops[m] == Last(kept) && StandsFor(ops, m))
  }

  /** Any selection of a log's operations, ordered by key, replays as the log from every store if and only if for each
      key the last operation kept stands for all. */
  lemma SelectionExactly(log: seq<Write>, out: seq<Write>)
    requires OneNode(log) && PerKeyOrdered(out) && forall x :: x in out ==> x in log
    ensures SameReplay(out, log) <==> forall k :: KeptStands(OfKey(log, k), OfKey(out, k))
  {
    SameReplayByKey(out, log);
    forall k ensures SameEffect(OfKey(out, k), OfKey(log, k), k) <==> KeptStands(OfKey(log, k), OfKey(out, k)) {
      SelectionOfKey(log, out, k);
    }
  }

  lemma SelectionOfKey(log: seq<Write>, out: seq<Write>, k: Bytes)
    requires OneNode(log) && PerKeyOrdered(out) && forall x :: x in out ==> x in log
    ensures SameEffect(OfKey(out, k), OfKey(log, k), k) <==> KeptStands(OfKey(log, k), OfKey(out, k))
  {
    var ops, kept := OfKey(log, k), OfKey(out, k);
    OneNodeOfKey(log, k);
    WhereWithin(log, Key, k);
    WhereWithin(out, Key, k);
    if kept == [] {
      if ops != [] {
        SomethingHappens(ops, k);
      }
    } else {
      assert Last(kept) in kept && Last(kept) in ops;
      OneNodeOut(log, out);
      OneNodeOfKey(out, k);
      assert NeverDown(kept);
      SameAsLast(kept, k);
      forall m | 0 <= m < |ops| && ops[m] == Last(kept) ensures SameEffect([Last(kept)], ops, k) <==> StandsFor(ops, m) {
        StandsExactly(ops, m, k);
      }
    }
  }

  lemma OneNodeOut(log: seq<Write>, out: seq<Write>)
    requires OneNode(log) && forall x :: x in out ==> x in log
    ensures OneNode(out)
  {
    forall i, j | 0 <= i < |out| && 0 <= j < |out| ensures out[i].nodeId == out[j].nodeId {
      assert out[i] in log && out[j] in log;
    }
  }

  lemma SameAsLast(kept: seq<Write>, k: Bytes)
    requires kept != [] && SameKey(kept, k) && NeverDown(kept) && OneNode(kept)
    ensures SameEffect(kept, [Last(kept)], k)
  {
    assert [Last(kept)][1..] == [];
    forall was | Fitting(was, k) ensures EntryAfterAll(was, kept) == EntryAfterAll(was, [Last(kept)]) {
      LastDecides(was, kept, k);
    }
  }

  lemma StandsExactly(ops: seq<Write>, m: nat, k: Bytes)
    requires m < |ops| && SameKey(ops, k) && OneNode(ops)
    ensures SameEffect([ops[m]], ops, k) <==> StandsFor(ops, m)
  {
    assert Uniform(ops, k, ops[m].nodeId);
    SplitExactly(ops[..m], ops[m], ops[m + 1..], k);
    assert ops == ops[..m] + ([ops[m]] + ops[m + 1..]);
  }

  /** What a compacted log holds of a key: the operation kept for its name, if it has that key. */
  lemma KeptOfKey(log: seq<Write>, out: seq<Write>, k: Bytes)
    requires KeepsSurvivors(log, out) && OfKey(log, k) != []
    ensures var named := OfName(log, UpToZero(k));
            named != [] && Survivor(named, None).Some? &&
            OfKey(out, k) == if Key(Survivor(named, None).value) == k then [Survivor(named, None).value] else []
  {
    var named := OfName(log, UpToZero(k));
    KeyWithinName(log, k);
    KeyWithinName(out, k);
    assert named != [] by { assert OfKey([], k) == []; }
    SurvivorIsAt(named);
    OneWhere(Survivor(named, None).value, Key, k);
  }

  lemma NothingOfKey(log: seq<Write>, out: seq<Write>, k: Bytes)
    requires KeepsSurvivors(log, out) && OfKey(log, k) == []
    ensures OfKey(out, k) == []
  {
    var named := OfName(log, UpToZero(k));
    KeyWithinName(out, k);
    if named != [] {
      SurvivorIsAt(named);
      var kept := Survivor(named, None).value;
      WhereWithin(log, Name, UpToZero(k));
      WhereWithin(log, Key, k);
      assert kept in named && kept !in OfKey(log, k);
      OneWhere(kept, Key, k);
    }
  }

  /** Replaying a compacted log, in any order, equals replaying the log from every store if and only if no two keys of
      the log agree up to a zero byte and every key is settled by the operation kept for it. */
  lemma CompactionExactly(log: seq<Write>, out: seq<Write>, shuffled: seq<Write>)
    requires OneNode(log) && KeepsSurvivors(log, out) && multiset(shuffled) == multiset(out)
    ensures SameReplay(shuffled, log) <==> NoTwins(log) && forall k :: Settled(OfKey(log, k))
  {
    SameReplayByKey(shuffled, log);
    if NoTwins(log) && forall k :: Settled(OfKey(log, k)) {
      forall k ensures SameEffect(OfKey(shuffled, k), OfKey(log, k), k) {
        SettledKeySame(log, out, shuffled, k);
      }
    }
    if SameReplay(shuffled, log) {
      forall x, y | x in log && y in log && Name(x) == Name(y) ensures Key(x) == Key(y) {
        if Key(x) != Key(y) {
          TwinsDiffer(log, out, shuffled, x, y);
        }
      }
      forall k ensures Settled(OfKey(log, k)) {
        assert SameEffect(OfKey(shuffled, k), OfKey(log, k), k);
        SettledKeySame(log, out, shuffled, k);
      }
    }
  }

  lemma SettledKeySame(log: seq<Write>, out: seq<Write>, shuffled: seq<Write>, k: Bytes)
    requires OneNode(log) && KeepsSurvivors(log, out) && multiset(shuffled) == multiset(out) && NoTwins(log)
    ensures SameEffect(OfKey(shuffled, k), OfKey(log, k), k) <==> Settled(OfKey(log, k))
  {
    var ops := OfKey(log, k);
    if ops == [] {
      NothingOfKey(log, out, k);
      SamePermuted(out, shuffled, k);
    } else {
      KeptOfKey(log, out, k);
      SamePermuted(out, shuffled, k);
      NameIsKey(log, k);
      OneNodeOfKey(log, k);
      SurvivorIsAt(ops);
      KeptExactly(ops, k);
    }
  }

  lemma TwinsDiffer(log: seq<Write>, out: seq<Write>, shuffled: seq<Write>, x: Write, y: Write)
    requires KeepsSurvivors(log, out) && multiset(shuffled) == multiset(out)
    requires x in log && y in log && Name(x) == Name(y) && Key(x) != Key(y)
    ensures !SameReplay(shuffled, log)
  {
    SameReplayByKey(shuffled, log);
    WhereWithin(log, Key, Key(x));
    WhereWithin(log, Key, Key(y));
    assert x in OfKey(log, Key(x)) && y in OfKey(log, Key(y));
    KeptOfKey(log, out, Key(x));
    KeptOfKey(log, out, Key(y));
    var k := if Key(Survivor(OfName(log, Name(x)), None).value) == Key(x) then Key(y) else Key(x);
    assert OfKey(out, k) == [];
    SamePermuted(out, shuffled, k);
    OfKeySameKey(log, k);
    SomethingHappens(OfKey(log, k), k);
  }

  lemma SameWhere(a: seq<Write>, b: seq<Write>, id: Write -> Bytes)
    requires forall k :: Where(a, id, k) == Where(b, id, k)
    ensures multiset(a) == multiset(b)
  {
    forall x: Write ensures multiset(a)[x] == multiset(b)[x] {
      WhereCounts(a, id, id(x), x);
      WhereCounts(b, id, id(x), x);
      assert Where(a, id, id(x)) == Where(b, id, id(x));
    }
  }

  /** Two compactions of one log differ in order at most. */
  lemma CompactionsAgree(log: seq<Write>, a: seq<Write>, b: seq<Write>)
    requires KeepsLastNames(log, a) && KeepsLastNames(log, b)
    ensures multiset(a) == multiset(b)
  {
    forall name ensures Where(a, Name, name) == Where(b, Name, name) {
      assert OfName(a, name) == OfName(b, name);
    }
    SameWhere(a, b, Name);
  }

  function SetAt(timestamp: byte): Write {
    OperationBody(SET, false, false, Some([[7], [timestamp]]), timestamp as nat, 1)
  }

  lemma OutOfOrderReplay(log: seq<Write>)
    requires log == [SetAt(4), SetAt(5), SetAt(3)]
    ensures EntryAfterAll(None, log) == Some(DataEntry(Text([7]), Text([5]), Lamport.Stamp(5, 1)))
  {
    var e4 := EntryAfter(None, SetAt(4));
    var e5 := EntryAfter(e4, SetAt(5));
    assert log[1..][0] == SetAt(5) && log[1..][1..] == [SetAt(3)];
    assert EntryAfterAll(None, log) == EntryAfterAll(e4, log[1..]) == EntryAfterAll(e5, [SetAt(3)]);
    assert [SetAt(3)][1..] == [];
    assert EntryAfterAll(e5, [SetAt(3)]) == EntryAfter(e5, SetAt(3));
  }

  /** Out of order, compaction loses the newest write: of timestamps 4, 5, 3 it keeps 4. */
  lemma OutOfOrderLoses(log: seq<Write>, out: seq<Write>)
    requires log == [SetAt(4), SetAt(5), SetAt(3)]
    requires OfKey(out, [7]) == One(Survivor(OfKey(log, [7]), None))
    ensures Lookup(Replay(map[], log), [7]) == Some(DataEntry(Text([7]), Text([5]), Lamport.Stamp(5, 1)))
    ensures Lookup(Replay(map[], out), [7]) == Some(DataEntry(Text([7]), Text([4]), Lamport.Stamp(4, 1)))
  {
    assert OfKey(log, [7]) == log by {
      assert log[1..] == [SetAt(5), SetAt(3)] && log[1..][1..] == [SetAt(3)] && log[1..][1..][1..] == [];
      OneWhere(SetAt(3), Key, [7]);
      assert OfKey(log[1..], [7]) == [SetAt(5), SetAt(3)];
    }
    assert FirstAbove(log[..2], 3) == Some(SetAt(4));
    ReplayAt(map[], out, [7]);
    assert EntryAfterAll(None, [SetAt(4)]) == EntryAfter(None, SetAt(4)) by { assert [SetAt(4)][1..] == []; }
    ReplayAt(map[], log, [7]);
    OutOfOrderReplay(log);
  }

  function SetOf(key: Bytes): Write {
    OperationBody(SET, false, false, Some([key, [9]]), 1, 1)
  }

  /** Keys that differ only after a zero byte are taken for one: the first of two such keys is lost. */
  lemma TwinLoses(log: seq<Write>, out: seq<Write>)
    requires log == [SetOf([1, 0, 2]), SetOf([1, 0, 3])] && KeepsSurvivors(log, out)
    ensures Lookup(Replay(map[], log), [1, 0, 2]).Some?
    ensures Lookup(Replay(map[], out), [1, 0, 2]).None?
  {
    var a, b := SetOf([1, 0, 2]), SetOf([1, 0, 3]);
    assert log == [a] + [b];
    OneWhere(a, Key, Key(a));
    OneWhere(b, Key, Key(a));
    WhereAppend([a], [b], Key, Key(a));
    ReplayAt(map[], log, Key(a));
    ReplayAt(map[], out, Key(a));
    assert EntryAfterAll(None, [a]) == EntryAfter(None, a) by { assert [a][1..] == []; }
    TwinNames(a, b);
    KeptOfKey(log, out, Key(a));
    SurvivorCons(a, [b], None);
    SurvivorCons(b, [], None);
    assert [b] + [] == [b];
    assert Survivor([a] + [b], None) == Some(b);
    assert Key(a)[2] != Key(b)[2];
  }

  lemma TwinNames(a: Write, b: Write)
    requires Key(a) == [1, 0, 2] && Key(b) == [1, 0, 3]
    ensures Name(a) == Name(b) == [1] && OfName([a] + [b], [1]) == [a] + [b]
  {
    assert [1, 0, 2 as byte][1..] == [0, 2] && [1, 0, 3 as byte][1..] == [0, 3];
    assert UpToZero([0, 2]) == [] && UpToZero([0, 3]) == [];
    OneWhere(a, Name, [1]);
    OneWhere(b, Name, [1]);
    WhereAppend([a], [b], Name, [1]);
  }
}
