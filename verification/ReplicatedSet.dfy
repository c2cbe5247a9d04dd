/** Replicated SET: any number of nodes, clients writing anywhere, and messages that carry the origin's
    stamp and are delivered in any order, any number of times, or never. */
module ReplicatedSet {
  import opened Lamport
  import opened PutRule

  datatype Write = Write(hash: nat, key: string, value: string, stamp: Stamp)

  /** `seen` records the writes this node executed for a client or received from another node. */
  datatype Replica = Replica(clock: nat, store: map<nat, Entry>, seen: set<Write>)

  /** Nodes are numbered by their position. Messages are never taken out of `sent`: one that is never
      delivered is lost, one delivered twice is duplicated. */
  datatype Cluster = Cluster(nodes: seq<Replica>, sent: set<Write>)

  datatype Step =
    | ClientSet(n: nat, hash: nat, key: string, value: string, requestCounter: nat)
    | Deliver(n: nat, w: Write)

  function Lookup(store: map<nat, Entry>, hash: nat): Option<Entry> {
    if hash in store then Some(store[hash]) else None
  }

  /** One node applies one write and remembers it as `w`. */
  function Apply(r: Replica, p: Put, w: Write): Replica {
    var was := Lookup(r.store, w.hash);
    Replica(ClockAfterPut(was, p, r.clock),
            if Rejects(was, p) then r.store else r.store[w.hash := Written(was, p, r.clock)],
            r.seen + {w})
  }

  /** A client's write reaches the store with the node's own id and is stamped by a clock tick. */
  function ClientPut(s: Step): Put
    requires s.ClientSet?
  {
    Put(s.key, s.value, Stamp(s.requestCounter, s.n), TICK, false)
  }

  function ReplicatedPut(w: Write): Put {
    Put(w.key, w.value, w.stamp, SET_MAX, true)
  }

  predicate Enabled(c: Cluster, s: Step) {
    s.n < |c.nodes| && (s.Deliver? ==> s.w in c.sent)
  }

  function Next(c: Cluster, s: Step): Cluster
    requires Enabled(c, s)
  {
    match s
    case ClientSet(n, hash, key, value, _) =>
      var w := Fresh(c, s);
      Cluster(c.nodes[n := Apply(c.nodes[n], ClientPut(s), w)], c.sent + {w})
    case Deliver(n, w) =>
      c.(nodes := c.nodes[n := Apply(c.nodes[n], ReplicatedPut(w), w)])
  }

  predicate Init(c: Cluster) {
    c.sent == {} && forall n :: 0 <= n < |c.nodes| ==> c.nodes[n].store == map[] && c.nodes[n].seen == {}
  }

  /** A run: each state follows from the one before by an enabled step. */
  predicate IsRun(states: seq<Cluster>, steps: seq<Step>) {
    |states| == |steps| + 1 && Init(states[0]) &&
    forall i {:trigger steps[i]} :: 0 <= i < |steps| ==>
      Enabled(states[i], steps[i]) && states[i + 1] == Next(states[i], steps[i])
  }

  // ---------------------------------------------------------------- invariant

  /** Every sent write was stamped by an existing node at a clock value it has reached. */
  predicate StampsReached(c: Cluster) {
    forall w :: w in c.sent ==>
      w.stamp.node < |c.nodes| && w.stamp.counter <= c.nodes[w.stamp.node].clock
  }

  predicate StampsUnique(c: Cluster) {
    forall w, w' :: w in c.sent && w' in c.sent && w.stamp == w'.stamp ==> w == w'
  }

  /** Entry `e` carries the value and stamp of a write in `seen`. */
  predicate CameFrom(e: Entry, hash: nat, seen: set<Write>) {
    e.DataEntry? && exists w :: w in seen && w.hash == hash && w.value == e.value && w.stamp == e.stamp
  }

  /** The key text under a hash is that of some write of that hash. */
  predicate KeyFrom(e: Entry, hash: nat, seen: set<Write>) {
    exists w :: w in seen && w.hash == hash && w.key == e.key
  }

  /** A node holds, under each hash, the greatest-stamped write it has seen, and its clock has reached
      every stamp it holds. */
  predicate HoldsNewest(r: Replica) {
    && (forall h :: h in r.store ==>
          CameFrom(r.store[h], h, r.seen) && KeyFrom(r.store[h], h, r.seen) && r.store[h].stamp.counter <= r.clock)
    && (forall w :: w in r.seen ==>
          w.hash in r.store && r.store[w.hash].DataEntry? && !Gt(w.stamp, r.store[w.hash].stamp))
  }

  predicate Inv(c: Cluster) {
    && StampsReached(c)
    && StampsUnique(c)
    && NodesHoldNewest(c)
  }

  predicate NodesHoldNewest(c: Cluster) {
    forall n :: 0 <= n < |c.nodes| ==> c.nodes[n].seen <= c.sent && HoldsNewest(c.nodes[n])
  }

  /** Applying a write keeps the newest-write invariant of the node, when a client's fresh stamp beats
      whatever it overwrites. */
  lemma ApplyHoldsNewest(r: Replica, p: Put, w: Write)
    requires HoldsNewest(r)
    requires w.key == p.key && w.value == p.value && w.stamp == StampOf(p, r.clock)
    requires p.strategy == if p.fromNode then SET_MAX else TICK
    ensures HoldsNewest(Apply(r, p, w))
  {
    var r' := Apply(r, p, w);
    assert r.seen <= r'.seen;
    forall h | h in r'.store
      ensures CameFrom(r'.store[h], h, r'.seen) && KeyFrom(r'.store[h], h, r'.seen)
    {
      if h in r.store {
        assert CameFrom(r.store[h], h, r.seen) && KeyFrom(r.store[h], h, r.seen);
      }
      assert w in r'.seen;
    }
  }

  function Fresh(c: Cluster, s: Step): Write
    requires Enabled(c, s) && s.ClientSet?
  {
    Write(s.hash, s.key, s.value, StampOf(ClientPut(s), c.nodes[s.n].clock))
  }

  lemma ClientStepKeepsInv(c: Cluster, s: Step)
    requires Inv(c) && Enabled(c, s) && s.ClientSet?
    ensures Inv(Next(c, s))
  {
    var r, w := c.nodes[s.n], Fresh(c, s);
    assert HoldsNewest(r) && r.seen <= c.sent;
    var r' := Apply(r, ClientPut(s), w);
    assert HoldsNewest(r') by { ApplyHoldsNewest(r, ClientPut(s), w); }
    assert r.clock < w.stamp.counter <= r'.clock by { ClientPutAccepted(r, ClientPut(s), w); }
    FreshStampKeepsUnique(c, w, r');
    OneNodeChanged(c, s.n, r', c.sent + {w});
  }

  lemma OneNodeChanged(c: Cluster, n: nat, r': Replica, sent': set<Write>)
    requires NodesHoldNewest(c) && n < |c.nodes| && c.sent <= sent' && r'.seen <= sent' && HoldsNewest(r')
    ensures NodesHoldNewest(Cluster(c.nodes[n := r'], sent'))
  {}

  lemma ClientPutAccepted(r: Replica, p: Put, w: Write)
    requires HoldsNewest(r) && !p.fromNode && p.strategy == TICK && w.stamp == StampOf(p, r.clock)
    ensures !Rejects(Lookup(r.store, w.hash), p)
    ensures r.clock < w.stamp.counter == Apply(r, p, w).clock
  {
    assert w.hash in r.store ==> CameFrom(r.store[w.hash], w.hash, r.seen);
  }

  /** A stamp above the maker's clock is new, so adding its write keeps the stamp invariants. */
  lemma FreshStampKeepsUnique(c: Cluster, w: Write, r: Replica)
    requires StampsReached(c) && StampsUnique(c) && w.stamp.node < |c.nodes|
    requires c.nodes[w.stamp.node].clock < w.stamp.counter <= r.clock
    ensures var c' := Cluster(c.nodes[w.stamp.node := r], c.sent + {w});
            StampsReached(c') && StampsUnique(c')
  {}

  lemma ClockRises(c: Cluster, n: nat, r': Replica)
    requires StampsReached(c) && n < |c.nodes| && c.nodes[n].clock <= r'.clock
    ensures StampsReached(c.(nodes := c.nodes[n := r']))
  {}

  lemma DeliverStepKeepsInv(c: Cluster, s: Step)
    requires Inv(c) && Enabled(c, s) && s.Deliver?
    ensures Inv(Next(c, s))
  {
    var r := c.nodes[s.n];
    assert HoldsNewest(r) && r.seen <= c.sent;
    var r' := Apply(r, ReplicatedPut(s.w), s.w);
    assert HoldsNewest(r') by { ApplyHoldsNewest(r, ReplicatedPut(s.w), s.w); }
    OneNodeChanged(c, s.n, r', c.sent);
    ClockRises(c, s.n, r');
  }

  lemma {:induction false} RunKeepsInv(states: seq<Cluster>, steps: seq<Step>, i: nat)
    requires IsRun(states, steps) && i < |states|
    ensures Inv(states[i])
  {
    if i == 0 {
    } else {
      RunKeepsInv(states, steps, i - 1);
      assert states[i] == Next(states[i - 1], steps[i - 1]);
      if steps[i - 1].ClientSet? {
        ClientStepKeepsInv(states[i - 1], steps[i - 1]);
      } else {
        DeliverStepKeepsInv(states[i - 1], steps[i - 1]);
      }
    }
  }

  // ---------------------------------------------------------------- results

  /** A client's write always beats the value it overwrites, at every point of every run; its stamp was never used
      before, is one above the greater of the node's clock and the client's, and is what the other nodes are sent. */
  lemma ClientSetWins(states: seq<Cluster>, steps: seq<Step>, i: nat)
    requires IsRun(states, steps) && i < |steps| && steps[i].ClientSet?
    ensures var s := steps[i];
            var before, after := states[i].nodes[s.n], states[i + 1].nodes[s.n];
            && s.hash in after.store && after.store[s.hash].DataEntry?
            && after.store[s.hash].value == s.value
            && after.store[s.hash].stamp.node == s.n && after.store[s.hash].stamp.counter == after.clock
            && before.clock < after.clock && s.requestCounter < after.clock
            && (after.clock == before.clock + 1 || after.clock == s.requestCounter + 1)
            && (s.hash in before.store ==> Gt(after.store[s.hash].stamp, before.store[s.hash].stamp))
            && (forall w :: w in states[i].sent ==> w.stamp != after.store[s.hash].stamp)
    ensures var s := steps[i];
            var before, after := states[i].nodes[s.n], states[i + 1].nodes[s.n];
            var w := Write(s.hash, s.key, s.value, after.store[s.hash].stamp);
            && states[i + 1] == Cluster(states[i].nodes[s.n := after], states[i].sent + {w})
            && after.seen == before.seen + {w} && after.store - {s.hash} == before.store - {s.hash}
  {
    RunKeepsInv(states, steps, i);
    var s := steps[i];
    assert Enabled(states[i], s);
    var before, w := states[i].nodes[s.n], Fresh(states[i], s);
    ClientPutAccepted(before, ClientPut(s), w);
    assert states[i + 1].nodes[s.n] == Apply(before, ClientPut(s), w);
  }

  /** At every point of every run, two sent writes with one stamp are the same write, and every entry is
      the greatest-stamped write of its hash that the node executed or received. */
  lemma EntriesAreNewest(states: seq<Cluster>, steps: seq<Step>, i: nat)
    requires IsRun(states, steps) && i < |states|
    ensures StampsUnique(states[i])
    ensures NodesHoldNewest(states[i])
  {
    RunKeepsInv(states, steps, i);
  }

  /** Two entries answer reads alike: same value, same stamp. */
  predicate SameReading(e: Entry, e': Entry) {
    e.DataEntry? && e'.DataEntry? && e.value == e'.value && e.stamp == e'.stamp
  }

  /** No two writes of different keys share a hash. */
  predicate NoCollision(ws: set<Write>) {
    forall w, w' :: w in ws && w' in ws && w.hash == w'.hash ==> w.key == w'.key
  }

  /** Convergence: nodes that have seen the same writes hold the same value and stamp under every hash,
      whatever the order, loss and duplication on the way; with no hash collision their stores are equal. */
  lemma Convergence(states: seq<Cluster>, steps: seq<Step>, i: nat, a: nat, b: nat)
    requires IsRun(states, steps) && i < |states|
    requires a < |states[i].nodes| && b < |states[i].nodes|
    requires states[i].nodes[a].seen == states[i].nodes[b].seen
    ensures states[i].nodes[a].store.Keys == states[i].nodes[b].store.Keys
    ensures forall h :: h in states[i].nodes[a].store ==>
              SameReading(states[i].nodes[a].store[h], states[i].nodes[b].store[h])
    ensures NoCollision(states[i].nodes[a].seen) ==> states[i].nodes[a].store == states[i].nodes[b].store
  {
    RunKeepsInv(states, steps, i);
    SameSeenSameStore(states[i], states[i].nodes[a], states[i].nodes[b]);
  }

  lemma SameSeenSameStore(c: Cluster, ra: Replica, rb: Replica)
    requires StampsUnique(c) && ra.seen == rb.seen <= c.sent && HoldsNewest(ra) && HoldsNewest(rb)
    ensures ra.store.Keys == rb.store.Keys
    ensures forall h :: h in ra.store ==> SameReading(ra.store[h], rb.store[h])
    ensures NoCollision(ra.seen) ==> ra.store == rb.store
  {
    SeenDetermines(c, ra, rb);
    SeenDetermines(c, rb, ra);
  }

  lemma SeenDetermines(c: Cluster, ra: Replica, rb: Replica)
    requires StampsUnique(c) && ra.seen == rb.seen <= c.sent && HoldsNewest(ra) && HoldsNewest(rb)
    ensures forall h :: h in ra.store ==> h in rb.store && SameReading(ra.store[h], rb.store[h])
    ensures NoCollision(ra.seen) ==> forall h :: h in ra.store ==> ra.store[h] == rb.store[h]
  {
    forall h | h in ra.store
      ensures h in rb.store && SameReading(ra.store[h], rb.store[h])
      ensures NoCollision(ra.seen) ==> ra.store[h] == rb.store[h]
    {
      assert CameFrom(ra.store[h], h, ra.seen) && KeyFrom(ra.store[h], h, ra.seen);
      var wa :| wa in ra.seen && wa.hash == h && wa.value == ra.store[h].value && wa.stamp == ra.store[h].stamp;
      assert h in rb.store;
      assert CameFrom(rb.store[h], h, rb.seen) && KeyFrom(rb.store[h], h, rb.seen);
      var wb :| wb in rb.seen && wb.hash == h && wb.value == rb.store[h].value && wb.stamp == rb.store[h].stamp;
      assert !Gt(wa.stamp, wb.stamp) && !Gt(wb.stamp, wa.stamp);
      assert wa == wb;
    }
  }

  /** What a delivered write does, at every point of every run: the receiver has seen it, holds it unless it holds a
      greater stamp under that hash, has its clock at or above its stamp when it took it, and nothing else changes. */
  lemma DeliverTeaches(states: seq<Cluster>, steps: seq<Step>, i: nat)
    requires IsRun(states, steps) && i < |steps| && steps[i].Deliver?
    ensures var n, w := steps[i].n, steps[i].w;
            var before, after := states[i].nodes[n], states[i + 1].nodes[n];
            && states[i + 1] == Cluster(states[i].nodes[n := after], states[i].sent)
            && after.seen == before.seen + {w} && w.hash in after.store
            && after.store - {w.hash} == before.store - {w.hash}
            && if w.hash in before.store && before.store[w.hash].DataEntry? &&
                  (before.store[w.hash].stamp.counter > w.stamp.counter ||
                   (before.store[w.hash].stamp.counter == w.stamp.counter && before.store[w.hash].stamp.node > w.stamp.node))
               then after.store == before.store && after.clock == before.clock
               else
                 after.store[w.hash].DataEntry? &&
                 after.store[w.hash].value == w.value && after.store[w.hash].stamp == w.stamp &&
                 after.store[w.hash].key == (if w.hash in before.store then before.store[w.hash].key else w.key) &&
                 before.clock <= after.clock && w.stamp.counter <= after.clock &&
                 (after.clock == before.clock || after.clock == w.stamp.counter)
  {
    RunKeepsInv(states, steps, i);
    var n, w := steps[i].n, steps[i].w;
    assert Enabled(states[i], steps[i]) && states[i + 1] == Next(states[i], steps[i]);
    assert HoldsNewest(states[i].nodes[n]);
    assert w.hash in states[i].nodes[n].store ==> CameFrom(states[i].nodes[n].store[w.hash], w.hash, states[i].nodes[n].seen);
  }

  // ---------------------------------------------------------------- agreement can always be reached

  /** Taking `steps` in turn leads from `c` to `d`. */
  predicate Leads(c: Cluster, steps: seq<Step>, d: Cluster)
    decreases |steps|
  {
    if steps == [] then c == d
    else Enabled(c, steps[0]) && Leads(Next(c, steps[0]), steps[1..], d)
  }

  lemma {:induction false} LeadsOn(c: Cluster, steps: seq<Step>, d: Cluster, more: seq<Step>, e: Cluster)
    requires Leads(c, steps, d) && Leads(d, more, e)
    ensures Leads(c, steps + more, e)
    decreases |steps|
  {
    if steps == [] {
      assert steps + more == more;
    } else {
      LeadsOn(Next(c, steps[0]), steps[1..], d, more, e);
      assert (steps + more)[0] == steps[0] && (steps + more)[1..] == steps[1..] + more;
    }
  }

  lemma {:induction false} LeadsKeepsInv(c: Cluster, steps: seq<Step>, d: Cluster)
    requires Inv(c) && Leads(c, steps, d)
    ensures Inv(d)
    decreases |steps|
  {
    if steps == [] {
    } else {
      if steps[0].ClientSet? {
        ClientStepKeepsInv(c, steps[0]);
      } else {
        DeliverStepKeepsInv(c, steps[0]);
      }
      LeadsKeepsInv(Next(c, steps[0]), steps[1..], d);
    }
  }

  predicate OnlyDelivers(steps: seq<Step>) {
    forall i :: 0 <= i < |steps| ==> steps[i].Deliver?
  }

  /** Nothing was sent, and no node forgot what it had seen. */
  predicate OnlyLearned(c: Cluster, d: Cluster) {
    d.sent == c.sent && |d.nodes| == |c.nodes| && forall m :: 0 <= m < |c.nodes| ==> c.nodes[m].seen <= d.nodes[m].seen
  }

  lemma {:induction false} DeliverEach(c: Cluster, n: nat, ws: set<Write>) returns (steps: seq<Step>, d: Cluster)
    requires n < |c.nodes| && ws <= c.sent
    ensures Leads(c, steps, d) && OnlyDelivers(steps) && OnlyLearned(c, d) && ws <= d.nodes[n].seen
    decreases ws
  {
    if ws == {} {
      steps, d := [], c;
    } else {
      var w :| w in ws;
      var before, e := DeliverEach(c, n, ws - {w});
      var s := Deliver(n, w);
      assert [s][1..] == [] && Leads(e, [s], Next(e, s));
      LeadsOn(c, before, e, [s], Next(e, s));
      steps, d := before + [s], Next(e, s);
    }
  }

  lemma {:induction false} DeliverAll(c: Cluster, count: nat) returns (steps: seq<Step>, d: Cluster)
    requires count <= |c.nodes|
    ensures Leads(c, steps, d) && OnlyDelivers(steps) && OnlyLearned(c, d)
    ensures forall m :: 0 <= m < count ==> c.sent <= d.nodes[m].seen
  {
    if count == 0 {
      steps, d := [], c;
    } else {
      var before, e := DeliverAll(c, count - 1);
      var more, f := DeliverEach(e, count - 1, e.sent);
      LeadsOn(c, before, e, more, f);
      steps, d := before + more, f;
    }
  }

  /** From every state of every run, deliveries alone lead to a state in which all nodes have seen every write ever sent,
      and so read alike: under each hash they hold a write no other of that hash exceeds. Clients can go on
      writing at every node. */
  lemma AgreementReachable(states: seq<Cluster>, steps: seq<Step>, i: nat) returns (more: seq<Step>, d: Cluster)
    requires IsRun(states, steps) && i < |states|
    ensures Leads(states[i], more, d) && OnlyDelivers(more) && d.sent == states[i].sent && |d.nodes| == |states[i].nodes|
    ensures forall n :: 0 <= n < |d.nodes| ==> d.nodes[n].seen == d.sent && HoldsNewest(d.nodes[n])
    ensures forall a, b :: 0 <= a < |d.nodes| && 0 <= b < |d.nodes| ==> ReadAlike(d.nodes[a], d.nodes[b])
    ensures forall n: nat, hash, key, value, counter :: n < |d.nodes| ==> Enabled(d, ClientSet(n, hash, key, value, counter))
  {
    RunKeepsInv(states, steps, i);
    more, d := DeliverAll(states[i], |states[i].nodes|);
    LeadsKeepsInv(states[i], more, d);
    AllReadAlike(d);
  }

  lemma AllReadAlike(d: Cluster)
    requires Inv(d) && forall n :: 0 <= n < |d.nodes| ==> d.sent <= d.nodes[n].seen
    ensures forall a, b :: 0 <= a < |d.nodes| && 0 <= b < |d.nodes| ==> ReadAlike(d.nodes[a], d.nodes[b])
  {
    forall a, b | 0 <= a < |d.nodes| && 0 <= b < |d.nodes| ensures ReadAlike(d.nodes[a], d.nodes[b]) {
      AllSeenReadAlike(d, d.nodes[a], d.nodes[b]);
    }
  }

  predicate ReadAlike(ra: Replica, rb: Replica) {
    ra.store.Keys == rb.store.Keys && forall h :: h in ra.store ==> SameReading(ra.store[h], rb.store[h])
  }

  lemma AllSeenReadAlike(c: Cluster, ra: Replica, rb: Replica)
    requires StampsUnique(c) && ra.seen == rb.seen == c.sent && HoldsNewest(ra) && HoldsNewest(rb)
    ensures ReadAlike(ra, rb)
  {
    SameSeenSameStore(c, ra, rb);
  }
}
