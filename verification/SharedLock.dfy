/** The reader/writer lock: two mutexes and two counters, any number of threads, every interleaving of the
    single mutex and counter steps. A mutex is a binary semaphore: the thread that releases it need not be
    the one that took it, which is how the last reader out releases what the first reader in took. */
module SharedLock {

  /** Where a thread stands in lockShared, unlockShared, lockExclusive or unlockExclusive. The name says
      what the thread does next. */
  datatype Pc =
    | Outside
    | InTakeCount | InIncrement | InTakeLock | InReleaseCount
    | Reading
    | OutTakeCount | OutDecrement | OutReleaseLock | OutReleaseCount
    | WriteTakeLock | WriteIncrement
    | Writing
    | WriteDecrement | WriteReleaseLock

  datatype State = State(countHeld: bool, lockHeld: bool, shared: int, exclusive: int, pc: map<nat, Pc>)

  datatype Call = LockShared | LockExclusive

  /** A thread that waits for a mutex somebody holds cannot move; everybody else can. */
  predicate Enabled(s: State, t: nat) {
    t in s.pc &&
    match s.pc[t]
    case InTakeCount => !s.countHeld
    case OutTakeCount => !s.countHeld
    case InTakeLock => !s.lockHeld
    case WriteTakeLock => !s.lockHeld
    case _ => true
  }

  /** The place a thread moves to, given the counters it finds. `call` says which lock a thread outside asks
      for. */
  function NextPc(p: Pc, shared: int, exclusive: int, call: Call): Pc {
    match p
    case Outside => if call.LockShared? then InTakeCount else WriteTakeLock
    case InTakeCount => InIncrement
    case InIncrement => if shared + 1 == 1 then InTakeLock else InReleaseCount
    case InTakeLock => InReleaseCount
    case InReleaseCount => Reading
    case Reading => OutTakeCount
    case OutTakeCount => OutDecrement
    case OutDecrement => if shared - 1 == 0 then OutReleaseLock else OutReleaseCount
    case OutReleaseLock => OutReleaseCount
    case OutReleaseCount => Outside
    case WriteTakeLock => WriteIncrement
    case WriteIncrement => Writing
    case Writing => WriteDecrement
    case WriteDecrement => if exclusive - 1 == 0 then WriteReleaseLock else Outside
    case WriteReleaseLock => Outside
  }

  /** One step of thread `t`: the mutex or counter operation its place names, then the move. */
  function Next(s: State, t: nat, call: Call): State
    requires Enabled(s, t)
  {
    var p := s.pc[t];
    State(
      (s.countHeld || p.InTakeCount? || p.OutTakeCount?) && !p.InReleaseCount? && !p.OutReleaseCount?,
      (s.lockHeld || p.InTakeLock? || p.WriteTakeLock?) && !p.OutReleaseLock? && !p.WriteReleaseLock?,
      if p.InIncrement? then s.shared + 1 else if p.OutDecrement? then s.shared - 1 else s.shared,
      if p.WriteIncrement? then s.exclusive + 1 else if p.WriteDecrement? then s.exclusive - 1 else s.exclusive,
      s.pc[t := NextPc(p, s.shared, s.exclusive, call)])
  }

  predicate Init(s: State) {
    !s.countHeld && !s.lockHeld && s.shared == 0 && s.exclusive == 0 &&
    forall t :: t in s.pc ==> s.pc[t] == Outside
  }

  datatype Move = Move(t: nat, call: Call)

  predicate IsRun(states: seq<State>, moves: seq<Move>) {
    |states| == |moves| + 1 && Init(states[0]) &&
    forall i {:trigger moves[i]} :: 0 <= i < |moves| ==>
      Enabled(states[i], moves[i].t) && states[i + 1] == Next(states[i], moves[i].t, moves[i].call)
  }

  // ---------------------------------------------------------------- invariant

  predicate HoldsCount(p: Pc) {
    p.InIncrement? || p.InTakeLock? || p.InReleaseCount? || p.OutDecrement? || p.OutReleaseLock? || p.OutReleaseCount?
  }

  /** Counted in `shared`: the readers inside and those in transit between the two counter steps. */
  predicate Counted(p: Pc) {
    p.InTakeLock? || p.InReleaseCount? || p.Reading? || p.OutTakeCount? || p.OutDecrement?
  }

  /** The readers' side holds the lock as long as such a thread exists. */
  predicate ReadHolds(p: Pc) {
    p.InReleaseCount? || p.Reading? || p.OutTakeCount? || p.OutDecrement? || p.OutReleaseLock?
  }

  predicate WriteHolds(p: Pc) {
    p.WriteIncrement? || p.Writing? || p.WriteDecrement? || p.WriteReleaseLock?
  }

  /** Counted in `exclusive`. */
  predicate WriteCounted(p: Pc) {
    p.Writing? || p.WriteDecrement?
  }

  function CountedThreads(pc: map<nat, Pc>): set<nat> {
    set t | t in pc && Counted(pc[t])
  }

  predicate CountMutex(s: State) {
    && (s.countHeld ==> exists t :: t in s.pc && HoldsCount(s.pc[t]))
    && (forall t :: t in s.pc && HoldsCount(s.pc[t]) ==> s.countHeld)
    && (forall t, u :: t in s.pc && u in s.pc && HoldsCount(s.pc[t]) && HoldsCount(s.pc[u]) ==> t == u)
  }

  predicate SharedCount(s: State) {
    s.shared == |CountedThreads(s.pc)|
  }

  /** While a thread is between taking `shared` to one and taking the lock, or between taking it to zero and
      releasing the lock, no other reader is counted. */
  predicate Alone(s: State) {
    forall t, u :: t in s.pc && u in s.pc && t != u && (s.pc[t].InTakeLock? || s.pc[t].OutReleaseLock?) ==>
      !Counted(s.pc[u]) && !ReadHolds(s.pc[u])
  }

  predicate LockMutex(s: State) {
    && (s.lockHeld ==> exists t :: t in s.pc && (ReadHolds(s.pc[t]) || WriteHolds(s.pc[t])))
    && (forall t :: t in s.pc && (ReadHolds(s.pc[t]) || WriteHolds(s.pc[t])) ==> s.lockHeld)
    && (forall t, u :: t in s.pc && u in s.pc && t != u && WriteHolds(s.pc[t]) ==>
          !WriteHolds(s.pc[u]) && !ReadHolds(s.pc[u]))
  }

  predicate ExclusiveCount(s: State) {
    && (forall t :: t in s.pc && WriteCounted(s.pc[t]) ==> s.exclusive == 1)
    && ((forall t :: t in s.pc ==> !WriteCounted(s.pc[t])) ==> s.exclusive == 0)
  }

  predicate Inv(s: State) {
    CountMutex(s) && SharedCount(s) && Alone(s) && LockMutex(s) && ExclusiveCount(s)
  }

  lemma CountMutexKept(s: State, t: nat, call: Call)
    requires CountMutex(s) && Enabled(s, t)
    ensures CountMutex(Next(s, t, call))
  {
    var s' := Next(s, t, call);
    if s'.countHeld && !HoldsCount(s'.pc[t]) {
      var h :| h in s.pc && HoldsCount(s.pc[h]);
      assert h in s'.pc && HoldsCount(s'.pc[h]);
    }
  }

  lemma CountedThreadsUpdate(pc: map<nat, Pc>, t: nat, p: Pc)
    requires t in pc
    ensures CountedThreads(pc[t := p]) == if Counted(p) then CountedThreads(pc) + {t} else CountedThreads(pc) - {t}
  {}

  lemma SharedCountKept(s: State, t: nat, call: Call)
    requires SharedCount(s) && Enabled(s, t)
    ensures SharedCount(Next(s, t, call))
  {
    var s' := Next(s, t, call);
    assert s'.pc == s.pc[t := s'.pc[t]];
    CountedThreadsUpdate(s.pc, t, s'.pc[t]);
    assert t in CountedThreads(s.pc) <==> Counted(s.pc[t]);
  }

  /** The thread that takes `shared` to one finds nobody counted. */
  lemma FirstInAlone(s: State, u: nat)
    requires SharedCount(s) && s.shared == 0 && u in s.pc
    ensures !Counted(s.pc[u])
  {
    assert u !in CountedThreads(s.pc);
  }

  /** The thread that takes `shared` to zero leaves nobody counted. */
  lemma LastOutAlone(s: State, t: nat, u: nat)
    requires SharedCount(s) && s.shared == 1 && t in s.pc && u in s.pc && u != t && Counted(s.pc[t])
    ensures !Counted(s.pc[u])
  {
    assert t in CountedThreads(s.pc) && |CountedThreads(s.pc) - {t}| == 0;
    assert u !in CountedThreads(s.pc) - {t};
  }

  lemma AloneKept(s: State, t: nat, call: Call)
    requires CountMutex(s) && SharedCount(s) && Alone(s) && Enabled(s, t)
    ensures Alone(Next(s, t, call))
  {
    var s' := Next(s, t, call);
    assert s'.pc == s.pc[t := s'.pc[t]];
    forall a, b | a in s'.pc && b in s'.pc && a != b && (s'.pc[a].InTakeLock? || s'.pc[a].OutReleaseLock?)
      ensures !Counted(s'.pc[b]) && !ReadHolds(s'.pc[b])
    {
      if a == t {
        if s.pc[t].InIncrement? {
          FirstInAlone(s, b);
        } else {
          LastOutAlone(s, t, b);
        }
        assert !HoldsCount(s.pc[b]);
      } else if b == t {
        assert HoldsCount(s.pc[a]) && !HoldsCount(s.pc[t]);
      }
    }
  }

  /** If a reader is counted besides `t`, the readers hold the lock. */
  lemma OtherReader(s: State, t: nat) returns (u: nat)
    requires CountMutex(s) && t in s.pc && HoldsCount(s.pc[t]) && |CountedThreads(s.pc) - {t}| > 0
    ensures u in s.pc && u != t && ReadHolds(s.pc[u])
  {
    u :| u in CountedThreads(s.pc) - {t};
  }

  /** A reader that finds `shared` above zero enters while other readers hold the lock. */
  lemma LaterReaderIn(s: State, t: nat)
    requires CountMutex(s) && SharedCount(s) && LockMutex(s) && t in s.pc && s.pc[t].InIncrement? && s.shared != 0
    ensures s.lockHeld && forall u :: u in s.pc ==> !WriteHolds(s.pc[u])
  {
    assert t !in CountedThreads(s.pc);
    assert CountedThreads(s.pc) - {t} == CountedThreads(s.pc);
    var r := OtherReader(s, t);
  }

  /** A thread that joins or stays with the holders of the lock finds no writer besides itself, and a writer
      finds no reader. */
  lemma JoinsHolders(s: State, t: nat, call: Call)
    requires CountMutex(s) && SharedCount(s) && LockMutex(s) && Enabled(s, t)
    requires var p := NextPc(s.pc[t], s.shared, s.exclusive, call); ReadHolds(p) || WriteHolds(p)
    ensures Next(s, t, call).lockHeld
    ensures forall u :: u in s.pc && u != t ==> !WriteHolds(s.pc[u])
    ensures WriteHolds(Next(s, t, call).pc[t]) ==> forall u :: u in s.pc && u != t ==> !ReadHolds(s.pc[u])
  {
    if s.pc[t].InIncrement? {
      LaterReaderIn(s, t);
    }
  }

  /** A thread that leaves the holders gives the lock back, or leaves another reader holding it. */
  lemma LeavesHolders(s: State, t: nat, call: Call)
    requires Inv(s) && Enabled(s, t)
    requires ReadHolds(s.pc[t]) || WriteHolds(s.pc[t])
    requires var p := Next(s, t, call).pc[t]; !ReadHolds(p) && !WriteHolds(p)
    ensures Next(s, t, call).lockHeld ==> exists u :: u in s.pc && u != t && ReadHolds(s.pc[u])
    ensures !Next(s, t, call).lockHeld ==>
              forall u :: u in s.pc && u != t ==> !ReadHolds(s.pc[u]) && !WriteHolds(s.pc[u])
  {
    if s.pc[t].OutDecrement? {
      assert t in CountedThreads(s.pc);
      var u := OtherReader(s, t);
    }
  }

  lemma LockMutexKept(s: State, t: nat, call: Call)
    requires Inv(s) && Enabled(s, t)
    ensures LockMutex(Next(s, t, call))
  {
    var s' := Next(s, t, call);
    assert s'.pc == s.pc[t := s'.pc[t]];
    var before, after := ReadHolds(s.pc[t]) || WriteHolds(s.pc[t]), ReadHolds(s'.pc[t]) || WriteHolds(s'.pc[t]);
    if after {
      JoinsHolders(s, t, call);
      assert t in s'.pc;
    } else if before {
      LeavesHolders(s, t, call);
      if s'.lockHeld {
        var u :| u in s.pc && u != t && ReadHolds(s.pc[u]);
        assert s'.pc[u] == s.pc[u];
      }
    } else {
      assert s'.lockHeld == s.lockHeld;
      if s.lockHeld {
        var u :| u in s.pc && (ReadHolds(s.pc[u]) || WriteHolds(s.pc[u]));
        assert s'.pc[u] == s.pc[u];
      }
    }
  }

  lemma ExclusiveCountKept(s: State, t: nat, call: Call)
    requires LockMutex(s) && ExclusiveCount(s) && Enabled(s, t)
    ensures ExclusiveCount(Next(s, t, call))
  {
    var s' := Next(s, t, call);
    assert s'.pc == s.pc[t := s'.pc[t]];
    assert WriteCounted(s.pc[t]) ==> WriteHolds(s.pc[t]);
    assert forall u :: u in s.pc && u != t ==> s'.pc[u] == s.pc[u];
  }

  lemma {:induction false} RunKeepsInv(states: seq<State>, moves: seq<Move>, i: nat)
    requires IsRun(states, moves) && i < |states|
    ensures Inv(states[i])
  {
    if i == 0 {
      assert CountedThreads(states[0].pc) == {};
    } else {
      RunKeepsInv(states, moves, i - 1);
      var s, t, call := states[i - 1], moves[i - 1].t, moves[i - 1].call;
      assert states[i] == Next(s, t, call);
      NextKeepsInv(s, t, call);
    }
  }

  // ---------------------------------------------------------------- results

  /** A writer inside shares the lock with no reader and no other writer, at every point of every run. */
  lemma MutualExclusion(states: seq<State>, moves: seq<Move>, i: nat, w: nat, u: nat)
    requires IsRun(states, moves) && i < |states|
    requires w in states[i].pc && u in states[i].pc && w != u && states[i].pc[w].Writing?
    ensures !states[i].pc[u].Writing? && !states[i].pc[u].Reading?
  {
    RunKeepsInv(states, moves, i);
  }

  /** In every state, with or without a writer, the shared count is the number of readers inside plus those in
      transit, and the exclusive count says whether a writer is counted. */
  lemma CountsExact(states: seq<State>, moves: seq<Move>, i: nat)
    requires IsRun(states, moves) && i < |states|
    ensures var s := states[i];
            s.shared == |CountedThreads(s.pc)| &&
            s.exclusive == if exists t :: t in s.pc && WriteCounted(s.pc[t]) then 1 else 0
  {
    RunKeepsInv(states, moves, i);
  }

  /** No deadlock: as long as some thread waits for a mutex, some thread that is not outside can step. */
  lemma SomeoneCanStep(states: seq<State>, moves: seq<Move>, i: nat, waiting: nat) returns (t: nat)
    requires IsRun(states, moves) && i < |states|
    requires waiting in states[i].pc && !Enabled(states[i], waiting)
    ensures Enabled(states[i], t) && !states[i].pc[t].Outside?
  {
    RunKeepsInv(states, moves, i);
    t := CanStep(states[i], waiting);
  }

  // ---------------------------------------------------------------- who waits for whom

  predicate WantsCount(p: Pc) { p.InTakeCount? || p.OutTakeCount? }

  predicate WantsLock(p: Pc) { p.InTakeLock? || p.WriteTakeLock? }

  /** A thread is held up exactly by a thread inside the counting section, when it wants to count, and by a reader or a
      writer that has the lock, when it wants the lock; by nothing else, in every state of every run. */
  lemma BlockedExactly(states: seq<State>, moves: seq<Move>, i: nat, t: nat)
    requires IsRun(states, moves) && i < |states| && t in states[i].pc
    ensures var pc := states[i].pc;
            !Enabled(states[i], t) <==>
            (WantsCount(pc[t]) && exists u :: u in pc && u != t && HoldsCount(pc[u])) ||
            (WantsLock(pc[t]) && exists u :: u in pc && u != t && (ReadHolds(pc[u]) || WriteHolds(pc[u])))
  {
    RunKeepsInv(states, moves, i);
  }

  /** Taking `moves` in turn leads from `s` to `d`. */
  predicate Leads(s: State, moves: seq<Move>, d: State)
    decreases |moves|
  {
    if moves == [] then s == d
    else Enabled(s, moves[0].t) && Leads(Next(s, moves[0].t, moves[0].call), moves[1..], d)
  }

  lemma {:induction false} LeadsOn(s: State, moves: seq<Move>, d: State, more: seq<Move>, e: State)
    requires Leads(s, moves, d) && Leads(d, more, e)
    ensures Leads(s, moves + more, e)
    decreases |moves|
  {
    if moves == [] {
      assert moves + more == more;
    } else {
      LeadsOn(Next(s, moves[0].t, moves[0].call), moves[1..], d, more, e);
      assert (moves + more)[0] == moves[0] && (moves + more)[1..] == moves[1..] + more;
    }
  }

  lemma OneMove(s: State, m: Move)
    requires Enabled(s, m.t)
    ensures Leads(s, [m], Next(s, m.t, m.call))
  {
    assert [m][1..] == [];
  }

  /** `t` goes on for three steps. */
  function Thrice(t: nat, call: Call): seq<Move> {
    [Move(t, call)] + [Move(t, call)] + [Move(t, call)]
  }

  lemma ThreeMoves(s: State, t: nat, call: Call)
    requires Enabled(s, t) && Enabled(Next(s, t, call), t) && Enabled(Next(Next(s, t, call), t, call), t)
    ensures Leads(s, Thrice(t, call), Next(Next(Next(s, t, call), t, call), t, call))
  {
    var m, s1 := Move(t, call), Next(s, t, call);
    var s2 := Next(s1, t, call);
    OneMove(s, m);
    OneMove(s1, m);
    OneMove(s2, m);
    LeadsOn(s, [m], s1, [m], s2);
    LeadsOn(s, [m] + [m], s2, [m], Next(s2, t, call));
  }

  // ---------------------------------------------------------------- readers share, writers get in

  /** Readers share: in every state of every run in which somebody reads, a thread that asks for the shared lock while
      nobody is counting is inside three steps later, and everybody else is where they were. */
  lemma ReaderJoins(states: seq<State>, moves: seq<Move>, i: nat, r: nat, t: nat) returns (d: State)
    requires IsRun(states, moves) && i < |states| && r in states[i].pc && t in states[i].pc
    requires states[i].pc[r].Reading? && states[i].pc[t].InTakeCount?
    requires forall u :: u in states[i].pc ==> !HoldsCount(states[i].pc[u])
    ensures Leads(states[i], Thrice(t, LockShared), d) && d.pc == states[i].pc[t := Reading]
  {
    RunKeepsInv(states, moves, i);
    var s := states[i];
    assert r in CountedThreads(s.pc);
    var s1 := Next(s, t, LockShared);
    var s2 := Next(s1, t, LockShared);
    d := Next(s2, t, LockShared);
    ThreeMoves(s, t, LockShared);
    assert d.pc == s.pc[t := Reading];
  }

  /** A writer gets in: when no reader and no writer has the lock, a thread that asks for it is writing two steps later. */
  lemma WriterEnters(states: seq<State>, moves: seq<Move>, i: nat, t: nat) returns (d: State)
    requires IsRun(states, moves) && i < |states| && t in states[i].pc && states[i].pc[t].WriteTakeLock?
    requires forall u :: u in states[i].pc ==> !ReadHolds(states[i].pc[u]) && !WriteHolds(states[i].pc[u])
    ensures Leads(states[i], [Move(t, LockExclusive)] + [Move(t, LockExclusive)], d) && d.pc == states[i].pc[t := Writing]
  {
    RunKeepsInv(states, moves, i);
    var s, m := states[i], Move(t, LockExclusive);
    var s1 := Next(s, t, LockExclusive);
    d := Next(s1, t, LockExclusive);
    OneMove(s, m);
    OneMove(s1, m);
    LeadsOn(s, [m], s1, [m], d);
    assert d.pc == s.pc[t := Writing];
  }

  /** The first `k` of `n` threads read, the others have not begun. */
  function Readers(n: nat, k: nat): State {
    State(false, k > 0, k, 0, map t: nat | 0 <= t < n :: PlaceOf(t, k))
  }

  function PlaceOf(t: nat, k: nat): Pc {
    if t < k then Reading else Outside
  }

  /** The next thread goes in: four steps, and one more when it is the first. */
  lemma OneMoreReader(n: nat, k: nat) returns (moves: seq<Move>)
    requires k < n
    ensures Leads(Readers(n, k), moves, Readers(n, k + 1))
  {
    var s, m := Readers(n, k), Move(k, LockShared);
    var s1 := Next(s, k, LockShared);
    OneMove(s, m);
    ThreeMoves(s1, k, LockShared);
    var s4 := Next(Next(Next(s1, k, LockShared), k, LockShared), k, LockShared);
    LeadsOn(s, [m], s1, Thrice(k, LockShared), s4);
    moves := [m] + Thrice(k, LockShared);
    FourSteps(n, k);
    if k == 0 {
      OneMove(s4, m);
      LeadsOn(s, moves, s4, [m], Next(s4, k, LockShared));
      moves := moves + [m];
    }
  }

  lemma FourSteps(n: nat, k: nat)
    requires k < n
    ensures var s1 := Next(Readers(n, k), k, LockShared);
            Enabled(s1, k) && Enabled(Next(s1, k, LockShared), k) &&
            Enabled(Next(Next(s1, k, LockShared), k, LockShared), k) &&
            var s4 := Next(Next(Next(s1, k, LockShared), k, LockShared), k, LockShared);
            if k == 0 then Enabled(s4, k) && Next(s4, k, LockShared) == Readers(n, 1) else s4 == Readers(n, k + 1)
  {
    var s1 := Next(Readers(n, k), k, LockShared);
    var s4 := Next(Next(Next(s1, k, LockShared), k, LockShared), k, LockShared);
    if k == 0 {
      assert Next(s4, k, LockShared).pc == Readers(n, 1).pc;
    } else {
      assert s4.pc == Readers(n, k + 1).pc;
    }
  }

  lemma {:induction false} ReadersEnter(n: nat, k: nat) returns (moves: seq<Move>)
    requires k <= n
    ensures Leads(Readers(n, 0), moves, Readers(n, k))
  {
    if k == 0 {
      moves := [];
    } else {
      var before := ReadersEnter(n, k - 1);
      var more := OneMoreReader(n, k - 1);
      LeadsOn(Readers(n, 0), before, Readers(n, k - 1), more, Readers(n, k));
      moves := before + more;
    }
  }

  lemma {:induction false} Unfold(s: State, moves: seq<Move>, d: State) returns (states: seq<State>)
    requires Leads(s, moves, d)
    ensures |states| == |moves| + 1 && states[0] == s && states[|moves|] == d
    ensures forall i {:trigger moves[i]} :: 0 <= i < |moves| ==>
              Enabled(states[i], moves[i].t) && states[i + 1] == Next(states[i], moves[i].t, moves[i].call)
    decreases |moves|
  {
    if moves == [] {
      states := [s];
    } else {
      var tail := Unfold(Next(s, moves[0].t, moves[0].call), moves[1..], d);
      states := [s] + tail;
      forall i | 0 <= i < |moves|
        ensures Enabled(states[i], moves[i].t) && states[i + 1] == Next(states[i], moves[i].t, moves[i].call)
      {
        if i > 0 {
          assert moves[i] == moves[1..][i - 1];
        }
      }
    }
  }

  /** For every number of threads there is a run in which all of them read at once. */
  lemma AllReadAtOnce(n: nat) returns (states: seq<State>, moves: seq<Move>)
    ensures IsRun(states, moves)
    ensures forall t :: 0 <= t < n ==> t in states[|moves|].pc && states[|moves|].pc[t].Reading?
  {
    moves := ReadersEnter(n, n);
    states := Unfold(Readers(n, 0), moves, Readers(n, n));
  }

  // ---------------------------------------------------------------- everybody can always leave

  /** Steps a thread has before it until it is outside, at most. */
  function Steps(p: Pc): nat {
    match p
    case Outside => 0
    case InTakeCount => 9 case InIncrement => 8 case InTakeLock => 7 case InReleaseCount => 6
    case Reading => 5
    case OutTakeCount => 4 case OutDecrement => 3 case OutReleaseLock => 2 case OutReleaseCount => 1
    case WriteTakeLock => 5 case WriteIncrement => 4
    case Writing => 3
    case WriteDecrement => 2 case WriteReleaseLock => 1
  }

  function StepsBelow(pc: map<nat, Pc>, n: nat): nat {
    if n == 0 then 0 else StepsBelow(pc, n - 1) + if n - 1 in pc then Steps(pc[n - 1]) else 0
  }

  lemma {:induction false} FewerSteps(pc: map<nat, Pc>, n: nat, t: nat, p: Pc)
    requires t in pc && Steps(p) < Steps(pc[t])
    ensures if t < n then StepsBelow(pc[t := p], n) < StepsBelow(pc, n) else StepsBelow(pc[t := p], n) == StepsBelow(pc, n)
  {
    if n == 0 {
    } else {
      FewerSteps(pc, n - 1, t, p);
    }
  }

  lemma MoveShortens(s: State, t: nat, call: Call, n: nat)
    requires Enabled(s, t) && !s.pc[t].Outside? && t < n
    ensures StepsBelow(Next(s, t, call).pc, n) < StepsBelow(s.pc, n) && Next(s, t, call).pc.Keys == s.pc.Keys
  {
    FewerSteps(s.pc, n, t, Next(s, t, call).pc[t]);
  }

  lemma NextKeepsInv(s: State, t: nat, call: Call)
    requires Inv(s) && Enabled(s, t)
    ensures Inv(Next(s, t, call))
  {
    CountMutexKept(s, t, call);
    SharedCountKept(s, t, call);
    AloneKept(s, t, call);
    LockMutexKept(s, t, call);
    ExclusiveCountKept(s, t, call);
  }

  lemma CanStep(s: State, waiting: nat) returns (t: nat)
    requires Inv(s) && waiting in s.pc && !s.pc[waiting].Outside?
    ensures Enabled(s, t) && !s.pc[t].Outside?
  {
    t := waiting;
    if !Enabled(s, waiting) {
      if s.lockHeld {
        t :| t in s.pc && (ReadHolds(s.pc[t]) || WriteHolds(s.pc[t]));
        if s.pc[t].OutTakeCount? && s.countHeld {
          t :| t in s.pc && HoldsCount(s.pc[t]);
        }
      } else {
        t :| t in s.pc && HoldsCount(s.pc[t]);
      }
    }
  }

  lemma {:induction false} AllLeave(s: State, n: nat) returns (moves: seq<Move>, d: State)
    requires Inv(s) && forall t :: t in s.pc ==> t < n
    ensures Leads(s, moves, d) && d.pc.Keys == s.pc.Keys && Inv(d) && forall t :: t in d.pc ==> d.pc[t].Outside?
    decreases StepsBelow(s.pc, n)
  {
    if forall t :: t in s.pc ==> s.pc[t].Outside? {
      moves, d := [], s;
    } else {
      var waiting :| waiting in s.pc && !s.pc[waiting].Outside?;
      var t := CanStep(s, waiting);
      NextKeepsInv(s, t, LockShared);
      MoveShortens(s, t, LockShared, n);
      var s1 := Next(s, t, LockShared);
      var more;
      more, d := AllLeave(s1, n);
      OneMove(s, Move(t, LockShared));
      LeadsOn(s, [Move(t, LockShared)], s1, more, d);
      moves := [Move(t, LockShared)] + more;
    }
  }

  lemma {:induction false} KeysBounded(keys: set<nat>) returns (n: nat)
    ensures forall t :: t in keys ==> t < n
    decreases keys
  {
    if keys == {} {
      n := 0;
    } else {
      var t :| t in keys;
      var m := KeysBounded(keys - {t});
      n := if t < m then m else t + 1;
      forall u | u in keys ensures u < n {
        assert u == t || u in keys - {t};
      }
    }
  }

  /** From every state of every run there is a way on that brings every thread outside, and then both mutexes are free
      and both counts zero: nobody is ever stuck for good. */
  lemma EveryoneCanLeave(states: seq<State>, moves: seq<Move>, i: nat) returns (more: seq<Move>, d: State)
    requires IsRun(states, moves) && i < |states|
    ensures Leads(states[i], more, d) && d.pc.Keys == states[i].pc.Keys && Init(d)
  {
    RunKeepsInv(states, moves, i);
    var n := KeysBounded(states[i].pc.Keys);
    more, d := AllLeave(states[i], n);
    assert CountedThreads(d.pc) == {};
  }
}
