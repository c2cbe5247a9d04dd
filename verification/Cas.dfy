/** One key of the compare-and-set protocol: what a node does with PREPARE and ACCEPT, as functions on the
    key's state at that node, and the handlers themselves, which compute those functions in place. */
module CasAcceptor {
  import opened Lamport
  import opened PutRule

  type Data = e: Entry | e.DataEntry? witness DataEntry("", "", Stamp(0, 0))

  /** The key's entry, the highest promise made for it, and the node's clock. */
  datatype Acceptor = Acceptor(entry: Data, promised: Option<Stamp>, clock: nat)

  datatype Reply = Success | CasFailed | InvalidType | Thrown

  /** Both handlers refuse when a newer value is stored or a higher round was promised. */
  predicate Refuses(a: Acceptor, prev: Stamp, next: Stamp) {
    Gt(a.entry.stamp, prev) || (a.promised.Some? && Gt(a.promised.value, next))
  }

  function OnPrepare(a: Acceptor, prev: Stamp, next: Stamp): Acceptor {
    if Refuses(a, prev, next) || (a.promised.Some? && !Gt(next, a.promised.value)) then a
    else a.(promised := Some(next))
  }

  function PrepareReply(a: Acceptor, prev: Stamp, next: Stamp): Reply {
    if Refuses(a, prev, next) then CasFailed else Success
  }

  /** The store's rule for a write that carries its own stamp. */
  function CasPut(a: Acceptor, value: string, next: Stamp): Put {
    Put(a.entry.key, value, next, SET_MAX, true)
  }

  function Store(a: Acceptor, p: Put): Acceptor {
    if Rejects(Some(a.entry), p) then a
    else Acceptor(Written(Some(a.entry), p, a.clock), a.promised, ClockAfterPut(Some(a.entry), p, a.clock))
  }

  /** What the store reports. A rejected write is reported as done unless the entry is the root of its tree. */
  predicate StoreReportsOk(a: Acceptor, p: Put, atRoot: bool) {
    !Rejects(Some(a.entry), p) || !atRoot
  }

  function OnAccept(a: Acceptor, value: string, prev: Stamp, next: Stamp, atRoot: bool): Acceptor {
    if Refuses(a, prev, next) then a
    else
      var p := CasPut(a, value, next);
      var b := Store(a, p);
      if StoreReportsOk(a, p, atRoot) && b.promised.Some? then b.(promised := Some(next)) else b
  }

  /** An ACCEPT for a key no PREPARE ever reached writes the value and then throws. */
  function AcceptReply(a: Acceptor, value: string, prev: Stamp, next: Stamp, atRoot: bool): Reply {
    if Refuses(a, prev, next) || !StoreReportsOk(a, CasPut(a, value, next), atRoot) then CasFailed
    else if a.promised.None? then Thrown
    else Success
  }

  /** Stored stamps, promises and clocks only go up, and the clock stays at or above the stored stamp. */
  predicate Rises(a: Acceptor, b: Acceptor) {
    && !Gt(a.entry.stamp, b.entry.stamp)
    && (a.promised.Some? ==> b.promised.Some? && !Gt(a.promised.value, b.promised.value))
    && a.clock <= b.clock
    && (ClockCovers(a) ==> ClockCovers(b))
  }

  predicate ClockCovers(a: Acceptor) {
    a.entry.stamp.counter <= a.clock
  }

  lemma PrepareRises(a: Acceptor, prev: Stamp, next: Stamp)
    ensures Rises(a, OnPrepare(a, prev, next))
  {}

  lemma AcceptRises(a: Acceptor, value: string, prev: Stamp, next: Stamp, atRoot: bool)
    ensures Rises(a, OnAccept(a, value, prev, next, atRoot))
  {}

  /** A client's SET or a replicated SET on the key. */
  lemma SetRises(a: Acceptor, p: Put)
    requires ClockCovers(a) && p.strategy == if p.fromNode then SET_MAX else TICK
    ensures Rises(a, Store(a, p))
  {}

  /** The table of promises, one per key hash. */
  class OnGoingPaxosRounds {
    var promises: map<nat, Stamp>

    constructor ()
      ensures promises == map[]
    {
      promises := map[];
    }

    method RegisterNewPromise(keyHash: nat, next: Stamp)
      modifies this
      ensures promises == old(promises)[keyHash := next]
    {
      promises := promises[keyHash := next];
    }

    /** Throws, leaving the table alone, when there is no promise for the key. */
    method UpdatePromised(keyHash: nat, next: Stamp) returns (thrown: bool)
      modifies this
      ensures thrown == (keyHash !in old(promises))
      ensures promises == if thrown then old(promises) else old(promises)[keyHash := next]
    {
      thrown := UpdateAccepted(keyHash, next);
    }

    method UpdateAccepted(keyHash: nat, next: Stamp) returns (thrown: bool)
      modifies this
      ensures thrown == (keyHash !in old(promises))
      ensures promises == if thrown then old(promises) else old(promises)[keyHash := next]
    {
      thrown := keyHash !in promises;
      if !thrown {
        promises := promises[keyHash := next];
      }
    }
  }

  /** A node as the two CAS handlers see it. */
  class CasNode {
    var store: map<nat, Entry>
    const rounds: OnGoingPaxosRounds
    const clock: LamportClock

    constructor (store: map<nat, Entry>, counter: nat)
      ensures this.store == store && fresh(rounds) && fresh(clock)
      ensures rounds.promises == map[] && clock.counter == counter
    {
      this.store := store;
      rounds := new OnGoingPaxosRounds();
      clock := new LamportClock(counter);
    }

    /** The state of one key at this node. */
    ghost function View(keyHash: nat): Acceptor
      requires keyHash in store && store[keyHash].DataEntry?
      reads this, rounds, clock
    {
      Acceptor(store[keyHash],
               if keyHash in rounds.promises then Some(rounds.promises[keyHash]) else None,
               clock.counter)
    }

    /** The entry must exist: the handler looks at its type before it asks whether it is there. */
    method Prepare(keyHash: nat, prev: Stamp, next: Stamp) returns (reply: Reply)
      requires keyHash in store
      modifies rounds
      ensures store[keyHash].CounterEntry? ==> reply == InvalidType && unchanged(rounds)
      ensures store[keyHash].DataEntry? ==>
                && View(keyHash) == OnPrepare(old(View(keyHash)), prev, next)
                && reply == PrepareReply(old(View(keyHash)), prev, next)
      ensures rounds.promises - {keyHash} == old(rounds.promises) - {keyHash}
    {
      var entry := store[keyHash];
      if entry.CounterEntry? {
        return InvalidType;
      }
      var hasRound := keyHash in rounds.promises;
      var moreUpToDateValueIsStored := Gt(entry.stamp, prev);
      var promisedHigherTimestamp := hasRound && Gt(rounds.promises[keyHash], next);
      if moreUpToDateValueIsStored || promisedHigherTimestamp {
        return CasFailed;
      }
      if !hasRound {
        rounds.RegisterNewPromise(keyHash, next);
      } else if Gt(next, rounds.promises[keyHash]) {
        var thrown := rounds.UpdatePromised(keyHash, next);
      }
      return Success;
    }

    method Accept(keyHash: nat, value: string, prev: Stamp, next: Stamp, atRoot: bool) returns (reply: Reply)
      requires keyHash in store
      modifies this, rounds, clock
      ensures store.Keys == old(store.Keys) && store - {keyHash} == old(store) - {keyHash}
      ensures old(store)[keyHash].CounterEntry? ==>
                reply == InvalidType && unchanged(this) && unchanged(rounds) && unchanged(clock)
      ensures old(store)[keyHash].DataEntry? ==>
                && store[keyHash].DataEntry?
                && View(keyHash) == OnAccept(old(View(keyHash)), value, prev, next, atRoot)
                && reply == AcceptReply(old(View(keyHash)), value, prev, next, atRoot)
      ensures rounds.promises - {keyHash} == old(rounds.promises) - {keyHash}
    {
      var entry := store[keyHash];
      if entry.CounterEntry? {
        return InvalidType;
      }
      var hasRound := keyHash in rounds.promises;
      if Gt(entry.stamp, prev) || (hasRound && Gt(rounds.promises[keyHash], next)) {
        return CasFailed;
      }
      var p := Put(entry.key, value, next, SET_MAX, true);
      if Rejects(Some(entry), p) {
        if atRoot {
          return CasFailed;
        }
      } else {
        store := store[keyHash := Written(Some(entry), p, clock.counter)];
        var counter := clock.Update(SET_MAX, next.counter);
      }
      var thrown := rounds.UpdateAccepted(keyHash, next);
      return if thrown then Thrown else Success;
    }
  }
}
