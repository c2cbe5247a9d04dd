/** The lock-free clock: any number of threads run tick and setMax on one atomic counter, interleaved at
    the grain of single loads and compare-exchanges. A compare-exchange may fail for no reason. */
module ClockRuns {
  import opened Arithmetic
  import opened Lamport

  /** Where a thread is. `Loaded` means the counter was read as `actual` and the exchange comes next. */
  datatype Thread =
    | Idle
    | TickLoad(other: nat)
    | TickLoaded(other: nat, actual: nat)
    | MaxLoad(target: nat)
    | MaxLoaded(target: nat, actual: nat)

  /** A finished call: its argument, the counter value it last read, and what it returned. */
  datatype Done = Tick(other: nat, read: nat, returned: nat) | SetMax(other: nat, read: nat, returned: nat)

  datatype State = State(counter: nat, threads: map<nat, Thread>, done: seq<Done>)

  datatype Event =
    | CallTick(t: nat, other: nat)
    | CallSetMax(t: nat, target: nat)
    | Load(t: nat)
    | Exchange(t: nat, spurious: bool)

  predicate Enabled(s: State, e: Event) {
    e.t in s.threads &&
    match e
    case CallTick(t, _) => s.threads[t].Idle?
    case CallSetMax(t, _) => s.threads[t].Idle?
    case Load(t) => s.threads[t].TickLoad? || s.threads[t].MaxLoad?
    case Exchange(t, _) => s.threads[t].TickLoaded? || s.threads[t].MaxLoaded?
  }

  function Next(s: State, e: Event): State
    requires Enabled(s, e)
  {
    match e
    case CallTick(t, other) => s.(threads := s.threads[t := TickLoad(other)])
    case CallSetMax(t, target) => s.(threads := s.threads[t := MaxLoad(target)])
    case Load(t) =>
      if s.threads[t].TickLoad? then
        s.(threads := s.threads[t := TickLoaded(s.threads[t].other, s.counter)])
      else
        s.(threads := s.threads[t := MaxLoaded(s.threads[t].target, s.counter)])
    case Exchange(t, spurious) =>
      match s.threads[t]
      case TickLoaded(other, actual) =>
        if s.counter == actual && !spurious then
          var r := Max(actual, other) + 1;
          State(r, s.threads[t := Idle], s.done + [Tick(other, actual, r)])
        else
          s.(threads := s.threads[t := TickLoad(other)])
      case MaxLoaded(target, actual) =>
        if target <= actual then  // nothing to raise: the loop ends without an exchange
          s.(threads := s.threads[t := Idle], done := s.done + [SetMax(target, actual, actual)])
        else if s.counter == actual && !spurious then
          State(target, s.threads[t := Idle], s.done + [SetMax(target, actual, target)])
        else
          s.(threads := s.threads[t := MaxLoad(target)])
      case _ => s
  }

  predicate Init(s: State) {
    s.done == [] && forall t :: t in s.threads ==> s.threads[t].Idle?
  }

  predicate IsRun(states: seq<State>, events: seq<Event>) {
    |states| == |events| + 1 && Init(states[0]) &&
    forall i {:trigger events[i]} :: 0 <= i < |events| ==>
      Enabled(states[i], events[i]) && states[i + 1] == Next(states[i], events[i])
  }

  /** A call returns the greater of its argument and the counter it read, a tick one more than that. */
  predicate Right(d: Done) {
    match d
    case Tick(other, read, returned) => other < returned && read < returned && (returned == other + 1 || returned == read + 1)
    case SetMax(other, read, returned) => other <= returned && read <= returned && (returned == other || returned == read)
  }

  /** Every value a thread holds was the counter once; every call has returned the right value, at or below the
      counter; and each tick replaced a value at or above all that was returned before it. */
  predicate Inv(s: State) {
    && (forall t :: t in s.threads && (s.threads[t].TickLoaded? || s.threads[t].MaxLoaded?) ==>
          s.threads[t].actual <= s.counter)
    && (forall k :: 0 <= k < |s.done| ==> Right(s.done[k]) && s.done[k].returned <= s.counter)
    && (forall j, k :: 0 <= j < k < |s.done| && s.done[k].Tick? ==> s.done[j].returned <= s.done[k].read)
  }

  lemma NextKeepsInv(s: State, e: Event)
    requires Inv(s) && Enabled(s, e)
    ensures Inv(Next(s, e))
    ensures s.counter <= Next(s, e).counter
    ensures s.done <= Next(s, e).done
  {}

  lemma {:induction false} RunKeepsInv(states: seq<State>, events: seq<Event>, i: nat)
    requires IsRun(states, events) && i < |states|
    ensures Inv(states[i])
  {
    if i == 0 {
    } else {
      RunKeepsInv(states, events, i - 1);
      assert states[i] == Next(states[i - 1], events[i - 1]);
      NextKeepsInv(states[i - 1], events[i - 1]);
    }
  }

  /** The counter never decreases along a run, and no finished call is forgotten. */
  lemma {:induction false} CounterMonotone(states: seq<State>, events: seq<Event>, i: nat, j: nat)
    requires IsRun(states, events) && i <= j < |states|
    ensures states[i].counter <= states[j].counter && states[i].done <= states[j].done
    decreases j
  {
    if i == j {
    } else {
      CounterMonotone(states, events, i, j - 1);
      RunKeepsInv(states, events, j - 1);
      assert states[j] == Next(states[j - 1], events[j - 1]);
      NextKeepsInv(states[j - 1], events[j - 1]);
    }
  }

  /** Over any two points of any run: every call has returned the right value; all ticks return different values; a
      value returned before point `i` is below every tick finished after it; and the counter stays at or above every
      value returned. */
  lemma ClockGuarantees(states: seq<State>, events: seq<Event>, i: nat, j: nat)
    requires IsRun(states, events) && i <= j < |states|
    ensures forall k :: 0 <= k < |states[j].done| ==> Right(states[j].done[k])
    ensures forall k, l :: 0 <= k < l < |states[j].done| && states[j].done[l].Tick? ==>
              states[j].done[k].returned < states[j].done[l].returned
    ensures forall l :: 0 <= l < |states[i].done| ==> states[i].done[l].returned <= states[j].counter
  {
    RunKeepsInv(states, events, j);
    RunKeepsInv(states, events, i);
    CounterMonotone(states, events, i, j);
    var later := states[j].done;
    forall k, l | 0 <= k < l < |later| && later[l].Tick?
      ensures later[k].returned < later[l].returned
    {
      assert later[k].returned <= later[l].read && Right(later[l]);
    }
  }

  /** What every step does to the counter: the step that finishes a tick leaves it one above the greater of the counter
      and the argument, the step that finishes a setMax at the greater of the two, and no other step moves it. */
  lemma StepsMoveExactly(states: seq<State>, events: seq<Event>, i: nat)
    requires IsRun(states, events) && i < |events|
    ensures var s, s', t := states[i], states[i + 1], events[i].t;
            t in s.threads && t in s'.threads &&
            (if s'.done == s.done then s'.counter == s.counter
             else
               |s'.done| == |s.done| + 1 && events[i].Exchange? && s'.threads[t].Idle? &&
               var d := s'.done[|s.done|];
               match d
               case Tick(other, read, returned) =>
                 s.threads[t] == TickLoaded(other, s.counter) && read == s.counter && returned == s'.counter &&
                 s.counter < s'.counter && other < s'.counter && (s'.counter == s.counter + 1 || s'.counter == other + 1)
               case SetMax(target, read, _) =>
                 s.threads[t] == MaxLoaded(target, read) &&
                 s.counter <= s'.counter && target <= s'.counter && (s'.counter == s.counter || s'.counter == target))
  {
    RunKeepsInv(states, events, i);
    assert Enabled(states[i], events[i]) && states[i + 1] == Next(states[i], events[i]);
  }

  // ---------------------------------------------------------------- how far the counter goes

  predicate Within(e: Event, most: nat) {
    (e.CallTick? ==> e.other <= most) && (e.CallSetMax? ==> e.target <= most)
  }

  function Ticks(done: seq<Done>): nat {
    if done == [] then 0 else Ticks(done[..|done| - 1]) + if done[|done| - 1].Tick? then 1 else 0
  }

  /** The arguments threads work with are those handed in. */
  predicate Bounded(s: State, most: nat) {
    s.counter <= most + Ticks(s.done) &&
    forall t :: t in s.threads ==>
      match s.threads[t]
      case Idle => true
      case TickLoad(other) => other <= most
      case TickLoaded(other, _) => other <= most
      case MaxLoad(target) => target <= most
      case MaxLoaded(target, _) => target <= most
  }

  lemma NextBounded(s: State, e: Event, most: nat)
    requires Bounded(s, most) && Enabled(s, e) && Within(e, most)
    ensures Bounded(Next(s, e), most)
  {
    var s' := Next(s, e);
    if s'.done != s.done {
      assert s'.done[..|s.done|] == s.done;
    }
  }

  /** The counter exceeds the greatest value it started with or was handed by no more than the ticks there were. */
  lemma {:induction false} NoHigherThanTicked(states: seq<State>, events: seq<Event>, i: nat, most: nat)
    requires IsRun(states, events) && i < |states|
    requires states[0].counter <= most && forall k :: 0 <= k < |events| ==> Within(events[k], most)
    ensures Bounded(states[i], most)
  {
    if i == 0 {
    } else {
      NoHigherThanTicked(states, events, i - 1, most);
      assert states[i] == Next(states[i - 1], events[i - 1]);
      NextBounded(states[i - 1], events[i - 1], most);
    }
  }

  // ---------------------------------------------------------------- calls finish

  /** In every state of every run a waiting call that is left alone finishes with its next load and exchange, and an
      idle thread can call. */
  lemma LeftAloneFinishes(states: seq<State>, events: seq<Event>, i: nat, t: nat)
    requires IsRun(states, events) && i < |states| && t in states[i].threads
    ensures var s := states[i];
            match s.threads[t]
            case Idle => forall v :: Enabled(s, CallTick(t, v)) && Enabled(s, CallSetMax(t, v))
            case TickLoad(other) => FinishesIn(s, t, Tick(other, s.counter, ClockAfter(TICK, s.counter, other)))
            case MaxLoad(target) => FinishesIn(s, t, SetMax(target, s.counter, ClockAfter(SET_MAX, s.counter, target)))
            case _ => Enabled(s, Exchange(t, false))
  {}

  predicate FinishesIn(s: State, t: nat, d: Done) {
    Enabled(s, Load(t)) && Enabled(Next(s, Load(t)), Exchange(t, false)) &&
    var s' := Next(Next(s, Load(t)), Exchange(t, false));
    s'.done == s.done + [d] && s'.counter == d.returned && t in s'.threads && s'.threads[t].Idle?
  }
}
