/** Logged operations and what replaying them does to a store. Keys stand for their hashes. */
module Operations {
  import opened Lamport
  import opened PutRule

  newtype byte = x: int | 0 <= x < 256
  type Bytes = seq<byte>

  const SET := 1
  const DEL := 3

  /** A stored or transmitted operation; `args` is missing when none were given. */
  datatype OperationBody = OperationBody(
    operatorNumber: nat, flag1: bool, flag2: bool, args: Option<seq<Bytes>>, timestamp: nat, nodeId: nat)

  /** The operations the log is compacted over: SET with a key and a value, DEL with a key. */
  predicate IsWrite(op: OperationBody) {
    op.args.Some? &&
    ((op.operatorNumber == SET && |op.args.value| >= 2) || (op.operatorNumber == DEL && |op.args.value| >= 1))
  }

  type Write = op: OperationBody | IsWrite(op) witness OperationBody(DEL, false, false, Some([[]]), 0, 1)

  function Key(op: Write): Bytes {
    op.args.value[0]
  }

  function Text(b: Bytes): string {
    seq(|b|, i requires 0 <= i < |b| => b[i] as int as char)
  }

  function StampOfOp(op: OperationBody): Stamp {
    Stamp(op.timestamp, op.nodeId)
  }

  type Store = map<Bytes, Entry>

  function Lookup(store: Store, k: Bytes): Option<Entry> {
    if k in store then Some(store[k]) else None
  }

  function PutOf(op: Write): Put
    requires op.operatorNumber == SET
  {
    Put(Text(Key(op)), Text(op.args.value[1]), StampOfOp(op), SET_MAX, true)
  }

  /** What one replayed operation makes of the entry under its key. A DEL leaves counters and values with a
      greater stamp alone. */
  function EntryAfter(was: Option<Entry>, op: Write): Option<Entry> {
    if op.operatorNumber == SET then
      if Rejects(was, PutOf(op)) then was else Some(PutRule.Written(was, PutOf(op), 0))
    else
      if was.Some? && (was.value.CounterEntry? || Gt(was.value.stamp, StampOfOp(op))) then was else None
  }

  function Apply(store: Store, op: Write): Store {
    match EntryAfter(Lookup(store, Key(op)), op)
    case Some(e) => store[Key(op) := e]
    case None => store - {Key(op)}
  }

  function Replay(store: Store, ops: seq<Write>): Store
    decreases |ops|
  {
    if ops == [] then store else Replay(Apply(store, ops[0]), ops[1..])
  }

  /** The operations that `id` maps to `k`, in order. */
  function Where(ops: seq<Write>, id: Write -> Bytes, k: Bytes): seq<Write> {
    if ops == [] then []
    else if id(ops[0]) == k then [ops[0]] + Where(ops[1..], id, k)
    else Where(ops[1..], id, k)
  }

  function OfKey(ops: seq<Write>, k: Bytes): seq<Write> {
    Where(ops, Key, k)
  }

  function EntryAfterAll(was: Option<Entry>, ops: seq<Write>): Option<Entry>
    decreases |ops|
  {
    if ops == [] then was else EntryAfterAll(EntryAfter(was, ops[0]), ops[1..])
  }

  lemma EntryApplied(store: Store, op: Write, k: Bytes)
    ensures Lookup(Apply(store, op), k) ==
            if Key(op) == k then EntryAfter(Lookup(store, k), op) else Lookup(store, k)
  {}

  /** Replay works key by key: an entry depends on the operations of its own key only. */
  lemma {:induction false} ReplayAt(store: Store, ops: seq<Write>, k: Bytes)
    ensures Lookup(Replay(store, ops), k) == EntryAfterAll(Lookup(store, k), OfKey(ops, k))
    decreases |ops|
  {
    if ops == [] {
    } else {
      ReplayAt(Apply(store, ops[0]), ops[1..], k);
      EntryApplied(store, ops[0], k);
      if Key(ops[0]) == k {
        assert OfKey(ops, k)[1..] == OfKey(ops[1..], k);
      }
    }
  }

  lemma {:induction false} WhereAppend(a: seq<Write>, b: seq<Write>, id: Write -> Bytes, k: Bytes)
    ensures Where(a + b, id, k) == Where(a, id, k) + Where(b, id, k)
  {
    if a == [] {
      assert a + b == b;
    } else {
      WhereAppend(a[1..], b, id, k);
      assert (a + b)[0] == a[0] && (a + b)[1..] == a[1..] + b;
    }
  }

  /** Where loses and repeats nothing. */
  lemma {:induction false} WhereCounts(ops: seq<Write>, id: Write -> Bytes, k: Bytes, x: Write)
    ensures multiset(Where(ops, id, k))[x] == if id(x) == k then multiset(ops)[x] else 0
  {
    if ops == [] {
    } else {
      WhereCounts(ops[1..], id, k, x);
      assert ops == [ops[0]] + ops[1..];
    }
  }

  lemma {:induction false} WhereWithin(ops: seq<Write>, id: Write -> Bytes, k: Bytes)
    ensures forall x :: x in Where(ops, id, k) <==> x in ops && id(x) == k
  {
    if ops == [] {
    } else {
      WhereWithin(ops[1..], id, k);
    }
  }

  lemma {:induction false} ReplayAppend(store: Store, a: seq<Write>, b: seq<Write>)
    ensures Replay(store, a + b) == Replay(Replay(store, a), b)
    decreases |a|
  {
    if a == [] {
      assert a + b == b;
    } else {
      ReplayAppend(Apply(store, a[0]), a[1..], b);
      assert (a + b)[1..] == a[1..] + b;
    }
  }

  /** Each entry is stored under its own key. */
  predicate KeysMatch(store: Store) {
    forall k :: k in store ==> store[k].key == Text(k)
  }

  /** The last operation of a key is at least as new as all the others of that key. */
  predicate LastIsNewest(ops: seq<Write>) {
    forall i :: 0 <= i < |ops| ==> ops[i].timestamp <= ops[|ops| - 1].timestamp
  }

  /** Node ids are not stored in the log: what is read back carries one and the same. */
  predicate OneNode(ops: seq<Write>) {
    forall i, j :: 0 <= i < |ops| && 0 <= j < |ops| ==> ops[i].nodeId == ops[j].nodeId
  }

  predicate SameKey(ops: seq<Write>, k: Bytes) {
    forall i :: 0 <= i < |ops| ==> Key(ops[i]) == k
  }

  /** None of `ops`, all of key `k` and none newer than `last`, gets past an entry that turns `last` away; and
      otherwise they leave an entry that does not turn `last` away. */
  lemma {:induction false} OlderDoNotMatter(was: Option<Entry>, ops: seq<Write>, last: Write, k: Bytes)
    requires SameKey(ops, k) && Key(last) == k && (was.Some? ==> was.value.key == Text(k))
    requires forall i :: 0 <= i < |ops| ==> ops[i].timestamp <= last.timestamp && ops[i].nodeId == last.nodeId
    ensures EntryAfter(EntryAfterAll(was, ops), last) == EntryAfter(was, last)
    decreases |ops|
  {
    if ops == [] {
    } else {
      var next := EntryAfter(was, ops[0]);
      assert ops[0].timestamp <= last.timestamp && ops[0].nodeId == last.nodeId && Key(ops[0]) == k;
      OlderDoNotMatter(next, ops[1..], last, k);
      assert EntryAfter(next, last) == EntryAfter(was, last);
    }
  }

  lemma {:induction false} EntryAfterAppend(was: Option<Entry>, a: seq<Write>, b: seq<Write>)
    ensures EntryAfterAll(was, a + b) == EntryAfterAll(EntryAfterAll(was, a), b)
    decreases |a|
  {
    if a == [] {
      assert a + b == b;
    } else {
      EntryAfterAppend(EntryAfter(was, a[0]), a[1..], b);
      assert (a + b)[1..] == a[1..] + b;
    }
  }

  /** Replaying all the operations of a key is replaying the last of them, when that one is the newest. */
  lemma LastDecides(was: Option<Entry>, ops: seq<Write>, k: Bytes)
    requires ops != [] && SameKey(ops, k) && LastIsNewest(ops) && OneNode(ops)
    requires was.Some? ==> was.value.key == Text(k)
    ensures EntryAfterAll(was, ops) == EntryAfter(was, ops[|ops| - 1])
  {
    var n := |ops| - 1;
    assert ops == ops[..n] + [ops[n]];
    EntryAfterAppend(was, ops[..n], [ops[n]]);
    OlderDoNotMatter(was, ops[..n], ops[n], k);
  }

  lemma OfKeySameKey(ops: seq<Write>, k: Bytes)
    ensures SameKey(OfKey(ops, k), k)
    ensures forall x :: x in OfKey(ops, k) ==> x in ops
  {
    WhereWithin(ops, Key, k);
    assert forall i :: 0 <= i < |OfKey(ops, k)| ==> OfKey(ops, k)[i] in OfKey(ops, k);
  }

  lemma TextDiffers(a: Bytes, b: Bytes)
    requires Text(a) == Text(b)
    ensures a == b
  {
    assert |Text(a)| == |a| && |Text(b)| == |b|;
    forall i | 0 <= i < |a| ensures a[i] == b[i] {
      assert Text(a)[i] == a[i] as int as char && Text(b)[i] == b[i] as int as char;
    }
  }

  lemma SameLookups(a: Store, b: Store)
    requires forall k :: Lookup(a, k) == Lookup(b, k)
    ensures a == b
  {
    forall k ensures k in a <==> k in b {
      assert Lookup(a, k) == Lookup(b, k);
    }
    forall k | k in a ensures a[k] == b[k] {
      assert Lookup(a, k) == Lookup(b, k);
    }
  }

  /** Two lists of operations that make the same of every store. */
  ghost predicate SameReplay(a: seq<Write>, b: seq<Write>) {
    forall store: Store :: SameFrom(store, a, b)
  }

  predicate SameFrom(store: Store, a: seq<Write>, b: seq<Write>) {
    KeysMatch(store) ==> Replay(store, a) == Replay(store, b)
  }

  lemma {:induction false} ReplayKeepsKeys(store: Store, ops: seq<Write>)
    requires KeysMatch(store)
    ensures KeysMatch(Replay(store, ops))
    decreases |ops|
  {
    if ops == [] {
    } else {
      ReplayKeepsKeys(Apply(store, ops[0]), ops[1..]);
    }
  }

  lemma SameReplayAppend(a: seq<Write>, a': seq<Write>, b: seq<Write>, b': seq<Write>)
    requires SameReplay(a, a') && SameReplay(b, b')
    ensures SameReplay(a + b, a' + b')
  {
    forall store: Store | KeysMatch(store) ensures SameFrom(store, a + b, a' + b') {
      ReplayAppend(store, a, b);
      ReplayAppend(store, a', b');
      ReplayKeepsKeys(store, a);
      assert SameFrom(store, a, a') && SameFrom(Replay(store, a), b, b');
    }
  }

  /** An entry that may be stored under a key. */
  predicate Fitting(was: Option<Entry>, k: Bytes) {
    was.Some? ==> was.value.key == Text(k)
  }

  /** Two lists of operations of one key that make the same of every entry. */
  ghost predicate SameEffect(a: seq<Write>, b: seq<Write>, k: Bytes) {
    forall was :: Fitting(was, k) ==> EntryAfterAll(was, a) == EntryAfterAll(was, b)
  }

  /** Lists replay alike exactly when they do so key by key. */
  lemma SameReplayByKey(a: seq<Write>, b: seq<Write>)
    ensures SameReplay(a, b) <==> forall k :: SameEffect(OfKey(a, k), OfKey(b, k), k)
  {
    if SameReplay(a, b) {
      forall k, was | Fitting(was, k) ensures EntryAfterAll(was, OfKey(a, k)) == EntryAfterAll(was, OfKey(b, k)) {
        var store: Store := if was.Some? then map[k := was.value] else map[];
        assert SameFrom(store, a, b) && Lookup(store, k) == was;
        ReplayAt(store, a, k);
        ReplayAt(store, b, k);
      }
    }
    if forall k :: SameEffect(OfKey(a, k), OfKey(b, k), k) {
      forall store: Store | KeysMatch(store) ensures SameFrom(store, a, b) {
        forall k ensures Lookup(Replay(store, a), k) == Lookup(Replay(store, b), k) {
          ReplayAt(store, a, k);
          ReplayAt(store, b, k);
          assert SameEffect(OfKey(a, k), OfKey(b, k), k) && Fitting(Lookup(store, k), k);
        }
        SameLookups(Replay(store, a), Replay(store, b));
      }
    }
  }
}
