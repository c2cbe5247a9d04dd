/** Lamport stamps and clocks: the order that decides which of two writes is newer, and the three
    ways a node's clock moves when a write is applied. Counters are unbounded. */
module Lamport {
  import opened Arithmetic

  /** A stamp: a counter, with the id of the node that made it as a tie-breaker. */
  datatype Stamp = Stamp(counter: nat, node: nat)

  /** The strict total order on stamps that every accept/reject decision uses. */
  predicate Gt(a: Stamp, b: Stamp) {
    a.counter > b.counter || (a.counter == b.counter && a.node > b.node)
  }

  datatype Strategy = NONE | SET_MAX | TICK

  /** The counter after an update, which is also the value the update returns: a tick exceeds both the counter and the
      argument, by one the greater of them; SET_MAX reaches both and no more. */
  function ClockAfter(strategy: Strategy, counter: nat, other: nat): (c: nat)
    ensures strategy.NONE? ==> c == counter
    ensures strategy.SET_MAX? ==> counter <= c && other <= c && (c == counter || c == other)
    ensures strategy.TICK? ==> counter < c && other < c && (c == counter + 1 || c == other + 1)
  {
    match strategy
    case NONE => counter
    case SET_MAX => Max(counter, other)
    case TICK => Max(counter, other) + 1
  }

  /** The clock object shared by the handlers of one node. */
  class LamportClock {
    var counter: nat

    constructor (counter: nat)
      ensures this.counter == counter
    {
      this.counter := counter;
    }

    method Update(strategy: Strategy, other: nat) returns (value: nat)
      modifies this
      ensures value == counter == ClockAfter(strategy, old(counter), other)
      ensures strategy.NONE? ==> value == old(counter)
      ensures strategy.SET_MAX? ==> old(counter) <= value && other <= value && value in {old(counter), other}
      ensures strategy.TICK? ==> old(counter) < value && other < value && value - 1 in {old(counter), other}
    {
      match strategy {
        case NONE =>
        case SET_MAX =>
          if other > counter {
            counter := other;
          }
        case TICK =>
          counter := Max(counter, other) + 1;
      }
      value := counter;
    }
  }
}

/** What one write does to one entry of the in-memory store and to the node's clock. The index tree,
    the replicated SET protocol and CAS all use this rule. */
module PutRule {
  import opened Lamport

  datatype Option<+T> = None | Some(value: T)

  /** A store entry: a value with its stamp, or a distributed counter. */
  datatype Entry =
    | DataEntry(key: string, value: string, stamp: Stamp)
    | CounterEntry(key: string)

  /** A write as the store sees it; `fromNode` tells a replicated write from a client's. */
  datatype Put = Put(key: string, value: string, stamp: Stamp, strategy: Strategy, fromNode: bool)

  /** A write is turned away by a counter stored under its hash, and, when it comes from another node,
      by a value with a greater stamp. */
  predicate Rejects(was: Option<Entry>, p: Put) {
    was.Some? &&
    (was.value.CounterEntry? || (p.strategy != NONE && p.fromNode && Gt(was.value.stamp, p.stamp)))
  }

  /** The stamp the entry gets: the origin's for a replicated write, a fresh one for a client's. */
  function StampOf(p: Put, clock: nat): Stamp {
    if p.fromNode then p.stamp
    else Stamp(ClockAfter(p.strategy, clock, p.stamp.counter), p.stamp.node)
  }

  /** The entry an accepted write leaves. An overwrite keeps the key text of the entry it replaces. */
  function Written(was: Option<Entry>, p: Put, clock: nat): (e: Entry) {
    DataEntry(if was.Some? then was.value.key else p.key, p.value, StampOf(p, clock))
  }

  function ClockAfterPut(was: Option<Entry>, p: Put, clock: nat): nat {
    if Rejects(was, p) then clock else ClockAfter(p.strategy, clock, p.stamp.counter)
  }
}
