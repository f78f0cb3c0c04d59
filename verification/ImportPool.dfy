/** The thread pool of mysqlimport (client/mysqlimport.c): main starts a worker per table and keeps the
    number of running ones below a limit with a counter, a mutex and a condition. A run is any
    interleaving of the steps of main and of the workers; a wait on the condition may end at any time. */
module ImportPool {
  import opened Common

  datatype MainPc =
    | NextTable       // about to lock for the next table, or for the final wait
    | Check           // the mutex held, about to test the counter
    | Waiting         // in the timed wait
    | Reserved        // the counter incremented, about to unlock
    | Create          // about to create the thread
    | CreateFailed    // about to lock again
    | GiveBack        // about to decrement the counter
    | GaveBack        // about to unlock
    | FinalCheck
    | FinalWaiting
    | FinalUnlock
    | Destroy         // about to destroy the mutexes and the condition
    | Join            // about to join the next worker
    | Done

  datatype WorkerPc =
    | Running         // loading its table
    | Finished        // about to lock
    | Decrement       // the mutex held, about to decrement the counter
    | Signal
    | Unlock
    | Unlocked        // about to exit
    | Exited

  datatype Thread = Main | WorkerThread(i: nat)

  datatype Worker = Worker(table: nat, pc: WorkerPc)

  datatype State = State(main: MainPc, tables: nat, limit: nat, next: nat, counter: int, owner: Option<Thread>,
                         workers: seq<Worker>, failed: seq<nat>, destroyed: bool, joined: nat)

  /** A step of main, which tells whether a thread creation fails, or of a worker. */
  datatype Step = MainStep(fails: bool) | WorkerStep(i: nat)

  // ----- the steps -----

  predicate Locking(s: State, st: Step) {
    match st
    case MainStep(_) => s.main in {NextTable, Waiting, CreateFailed, FinalWaiting}
    case WorkerStep(i) => i < |s.workers| && s.workers[i].pc == Finished
  }

  /** A step can be taken unless it needs the mutex while that is held, or a worker's exit. */
  predicate Enabled(s: State, st: Step) {
    && (match st
        case MainStep(_) =>
          s.main != Done && (s.main == Join && s.joined < |s.workers| ==> s.workers[s.joined].pc == Exited)
        case WorkerStep(i) => i < |s.workers| && s.workers[i].pc != Exited)
    && (Locking(s, st) ==> s.owner.None?)
  }

  function Take(s: State, st: Step): State
    requires Enabled(s, st)
  {
    match st
    case MainStep(fails) => MainTakes(s, fails)
    case WorkerStep(i) => WorkerTakes(s, i)
  }

  function MainTakes(s: State, fails: bool): State
    requires Enabled(s, MainStep(fails))
  {
    match s.main
    case NextTable => s.(main := if s.next < s.tables then Check else FinalCheck, owner := Some(Main))
    case Check =>
      if s.counter == s.limit then s.(main := Waiting, owner := None)
      else s.(main := Reserved, counter := s.counter + 1)
    case Waiting => s.(main := Check, owner := Some(Main))
    case Reserved => s.(main := Create, owner := None)
    case Create =>
      if fails then s.(main := CreateFailed)
      else s.(main := NextTable, next := s.next + 1, workers := s.workers + [Worker(s.next, Running)])
    case CreateFailed => s.(main := GiveBack, owner := Some(Main))
    case GiveBack => s.(main := GaveBack, counter := s.counter - 1)
    case GaveBack => s.(main := NextTable, next := s.next + 1, failed := s.failed + [s.next], owner := None)
    case FinalCheck => if s.counter != 0 then s.(main := FinalWaiting, owner := None) else s.(main := FinalUnlock)
    case FinalWaiting => s.(main := FinalCheck, owner := Some(Main))
    case FinalUnlock => s.(main := Destroy, owner := None)
    case Destroy => s.(main := Join, destroyed := true)
    case Join => if s.joined < |s.workers| then s.(joined := s.joined + 1) else s.(main := Done)
  }

  function WorkerTakes(s: State, i: nat): State
    requires Enabled(s, WorkerStep(i))
  {
    match s.workers[i].pc
    case Running => s.(workers := At(s.workers, i, Finished))
    case Finished => s.(workers := At(s.workers, i, Decrement), owner := Some(WorkerThread(i)))
    case Decrement => s.(workers := At(s.workers, i, Signal), counter := s.counter - 1)
    case Signal => s.(workers := At(s.workers, i, Unlock))
    case Unlock => s.(workers := At(s.workers, i, Unlocked), owner := None)
    case Unlocked => s.(workers := At(s.workers, i, Exited))
  }

  function At(ws: seq<Worker>, i: nat, pc: WorkerPc): seq<Worker>
    requires i < |ws|
  {
    ws[i := ws[i].(pc := pc)]
  }

  function Start(tables: nat, limit: nat): State {
    State(NextTable, tables, limit, 0, 0, None, [], [], false, 0)
  }

  /** A run: steps that can be taken one after the other. */
  ghost predicate Runs(s: State, steps: seq<Step>)
    decreases |steps|
  {
    steps == [] || (Enabled(s, steps[0]) && Runs(Take(s, steps[0]), steps[1..]))
  }

  ghost function After(s: State, steps: seq<Step>): State
    requires Runs(s, steps)
    decreases |steps|
  {
    if steps == [] then s else After(Take(s, steps[0]), steps[1..])
  }

  // ----- what every state satisfies -----

  predicate Undecremented(w: Worker) {
    w.pc in {Running, Finished, Decrement}
  }

  predicate Holding(w: Worker) {
    w.pc in {Decrement, Signal, Unlock}
  }

  predicate PastUnlock(w: Worker) {
    w.pc in {Unlocked, Exited}
  }

  function Active(ws: seq<Worker>): nat {
    if ws == [] then 0 else (if Undecremented(ws[0]) then 1 else 0) + Active(ws[1..])
  }

  function Slot(pc: MainPc): nat {
    if pc in {Reserved, Create, CreateFailed, GiveBack} then 1 else 0
  }

  predicate MainHolds(pc: MainPc) {
    pc in {Check, Reserved, GiveBack, GaveBack, FinalCheck, FinalUnlock}
  }

  predicate Closing(pc: MainPc) {
    pc in {FinalCheck, FinalWaiting, FinalUnlock, Destroy, Join, Done}
  }

  /** The counter is the slots taken: one main has reserved and one for each worker that has not given
      its own back. */
  ghost predicate Counts(s: State) {
    s.counter == Slot(s.main) + Active(s.workers) && s.counter <= s.limit
  }

  /** The mutex has the one holder that its program counters tell. */
  ghost predicate Exclusive(s: State) {
    && (s.owner == Some(Main) <==> MainHolds(s.main))
    && (forall i | 0 <= i < |s.workers| :: s.owner == Some(WorkerThread(i)) <==> Holding(s.workers[i]))
    && (s.owner.Some? && s.owner.value.WorkerThread? ==> s.owner.value.i < |s.workers|)
  }

  function Tables(ws: seq<Worker>): (ts: seq<nat>)
    ensures |ts| == |ws| && forall i | 0 <= i < |ws| :: ts[i] == ws[i].table
  {
    seq(|ws|, i requires 0 <= i < |ws| => ws[i].table)
  }

  ghost predicate Increasing(ts: seq<nat>) {
    forall i, j | 0 <= i < j < |ts| :: ts[i] < ts[j]
  }

  /** The tables passed so far, in order, have each been given to one worker, or reported because its
      thread could not be created. */
  ghost predicate Shared(started: seq<nat>, failed: seq<nat>, next: nat) {
    && Increasing(started) && Increasing(failed)
    && (forall t | t in started :: t < next && t !in failed)
    && (forall t | t in failed :: t < next)
    && (forall t: nat | t < next :: t in started || t in failed)
  }

  ghost predicate Assigned(s: State) {
    && s.next <= s.tables
    && (s.main in {Check, Waiting, Reserved, Create, CreateFailed, GiveBack, GaveBack} ==> s.next < s.tables)
    && (Closing(s.main) ==> s.next == s.tables)
    && Shared(Tables(s.workers), s.failed, s.next)
  }

  /** Nothing is destroyed before every worker is past its last unlock. */
  ghost predicate CleanedUp(s: State) {
    && (s.destroyed <==> s.main in {Join, Done})
    && (s.main in {FinalUnlock, Destroy, Join, Done} ==> forall i | 0 <= i < |s.workers| :: PastUnlock(s.workers[i]))
    && s.joined <= |s.workers| && (s.joined > 0 ==> s.main in {Join, Done})
  }

  ghost predicate Inv(s: State) {
    s.limit > 0 && Counts(s) && Exclusive(s) && Assigned(s) && CleanedUp(s)
  }

  lemma {:induction false} ActiveAt(ws: seq<Worker>, i: nat, pc: WorkerPc)
    requires i < |ws|
    ensures Active(At(ws, i, pc)) == Active(ws) - (if Undecremented(ws[i]) then 1 else 0)
                                     + (if Undecremented(ws[i].(pc := pc)) then 1 else 0)
  {
    if i > 0 {
      ActiveAt(ws[1..], i - 1, pc);
      assert At(ws, i, pc)[1..] == At(ws[1..], i - 1, pc);
    } else {
      assert At(ws, i, pc)[1..] == ws[1..];
    }
  }

  lemma {:induction false} ActiveSnoc(ws: seq<Worker>, w: Worker)
    ensures Active(ws + [w]) == Active(ws) + if Undecremented(w) then 1 else 0
  {
    if ws == [] {
      assert (ws + [w])[1..] == [];
    } else {
      ActiveSnoc(ws[1..], w);
      assert (ws + [w])[1..] == ws[1..] + [w];
    }
  }

  lemma {:induction false} NoneActive(ws: seq<Worker>, i: nat)
    requires i < |ws| && Undecremented(ws[i])
    ensures Active(ws) > 0
  {
    if i > 0 {
      NoneActive(ws[1..], i - 1);
    }
  }

  lemma SharedNext(started: seq<nat>, failed: seq<nat>, next: nat)
    requires Shared(started, failed, next)
    ensures Shared(started + [next], failed, next + 1) && Shared(started, failed + [next], next + 1)
  {
    assert forall i | 0 <= i < |started| :: started[i] in started;
    assert forall i | 0 <= i < |failed| :: failed[i] in failed;
  }

  lemma Phases(w: Worker)
    ensures Undecremented(w) || Holding(w) || PastUnlock(w)
  {
    match w.pc
    case Running =>
    case Finished =>
    case Decrement =>
    case Signal =>
    case Unlock =>
    case Unlocked =>
    case Exited =>
  }

  lemma WorkerKeeps(s: State, i: nat)
    requires Inv(s) && Enabled(s, WorkerStep(i))
    ensures Inv(WorkerTakes(s, i))
  {
    hide Active;
    forall pc {
      ActiveAt(s.workers, i, pc);
    }
    assert Tables(WorkerTakes(s, i).workers) == Tables(s.workers);
  }

  lemma MainKeeps(s: State, fails: bool)
    requires Inv(s) && Enabled(s, MainStep(fails))
    ensures Inv(MainTakes(s, fails))
  {
    hide Active;
    hide Shared;
    ActiveSnoc(s.workers, Worker(s.next, Running));
    SharedNext(Tables(s.workers), s.failed, s.next);
    assert Tables(s.workers + [Worker(s.next, Running)]) == Tables(s.workers) + [s.next];
    if s.main == FinalCheck && s.counter == 0 {
      forall i | 0 <= i < |s.workers| ensures PastUnlock(s.workers[i]) {
        Phases(s.workers[i]);
        if Undecremented(s.workers[i]) {
          NoneActive(s.workers, i);
        }
      }
    }
  }

  lemma StepKeeps(s: State, st: Step)
    requires Inv(s) && Enabled(s, st)
    ensures Inv(Take(s, st))
  {
    match st
    case MainStep(fails) => MainKeeps(s, fails);
    case WorkerStep(i) => WorkerKeeps(s, i);
  }

  lemma {:induction false} RunKeeps(s: State, steps: seq<Step>)
    requires Inv(s) && Runs(s, steps)
    ensures Inv(After(s, steps))
    decreases |steps|
  {
    hide Inv, Enabled, Take;
    if steps != [] {
      StepKeeps(s, steps[0]);
      RunKeeps(Take(s, steps[0]), steps[1..]);
    }
  }

  /** Whatever the interleaving, every state reached is as described. */
  lemma EveryRun(tables: nat, limit: nat, steps: seq<Step>)
    requires limit > 0 && Runs(Start(tables, limit), steps)
    ensures Inv(After(Start(tables, limit), steps))
  {
    RunKeeps(Start(tables, limit), steps);
  }

  // ----- what follows -----

  /** A step that uses the mutex or the condition. */
  predicate Uses(s: State, st: Step) {
    match st
    case MainStep(_) => MainHolds(s.main) || Locking(s, st)
    case WorkerStep(i) => i < |s.workers| && (Holding(s.workers[i]) || Locking(s, st))
  }

  /** Once destroyed they are not used again, and nobody is left inside. */
  lemma NoUseAfterDestroy(s: State, st: Step)
    requires Inv(s) && s.destroyed && Enabled(s, st)
    ensures !Uses(s, st) && forall i | 0 <= i < |s.workers| :: PastUnlock(s.workers[i])
  {
  }

  /** No table is loaded by two workers, and when main is done every table has had its worker, which has
      exited, or has been reported. */
  lemma EveryTableOnce(s: State, t: nat)
    requires Inv(s) && s.main == Done && t < s.tables
    ensures (exists i | 0 <= i < |s.workers| :: s.workers[i].table == t) <==> t !in s.failed
    ensures forall i, j | 0 <= i < |s.workers| && 0 <= j < |s.workers| && s.workers[i].table == s.workers[j].table ::
              i == j
  {
    var ts := Tables(s.workers);
    assert t in ts <==> t !in s.failed;
    if t in ts {
      var i :| 0 <= i < |ts| && ts[i] == t;
      assert s.workers[i].table == t;
    }
    if i :| 0 <= i < |s.workers| && s.workers[i].table == t {
      assert ts[i] == t;
    }
  }

  // ----- progress -----

  function WorkerRank(pc: WorkerPc): nat {
    match pc
    case Running => 6
    case Finished => 5
    case Decrement => 4
    case Signal => 3
    case Unlock => 2
    case Unlocked => 1
    case Exited => 0
  }

  function MainRank(pc: MainPc): nat {
    match pc
    case NextTable => 12
    case Check => 11
    case Waiting => 11
    case Reserved => 10
    case Create => 9
    case CreateFailed => 8
    case GiveBack => 7
    case GaveBack => 6
    case FinalCheck => 5
    case FinalWaiting => 5
    case FinalUnlock => 4
    case Destroy => 3
    case Join => 2
    case Done => 1
  }

  function WorkersRank(ws: seq<Worker>): nat {
    if ws == [] then 0 else WorkerRank(ws[0].pc) + WorkersRank(ws[1..])
  }

  /** A bound on the steps left, waiting aside. */
  function Rank(s: State): int {
    30 * (s.tables - s.next) + MainRank(s.main) + WorkersRank(s.workers) + |s.workers| - s.joined
  }

  /** A step into or out of a wait on the condition. */
  predicate Waits(s: State, st: Step) {
    st.MainStep? && (s.main in {Waiting, FinalWaiting} || (s.main == Check && s.counter == s.limit)
                     || (s.main == FinalCheck && s.counter != 0))
  }

  lemma {:induction false} RankAt(ws: seq<Worker>, i: nat, pc: WorkerPc)
    requires i < |ws|
    ensures WorkersRank(At(ws, i, pc)) == WorkersRank(ws) - WorkerRank(ws[i].pc) + WorkerRank(pc)
  {
    if i > 0 {
      RankAt(ws[1..], i - 1, pc);
      assert At(ws, i, pc)[1..] == At(ws[1..], i - 1, pc);
    } else {
      assert At(ws, i, pc)[1..] == ws[1..];
    }
  }

  lemma {:induction false} RankSnoc(ws: seq<Worker>, w: Worker)
    ensures WorkersRank(ws + [w]) == WorkersRank(ws) + WorkerRank(w.pc)
  {
    if ws == [] {
      assert (ws + [w])[1..] == [];
    } else {
      RankSnoc(ws[1..], w);
      assert (ws + [w])[1..] == ws[1..] + [w];
    }
  }

  /** Every step that does not wait brings the end nearer. */
  lemma StepsCount(s: State, st: Step)
    requires Inv(s) && Enabled(s, st)
    ensures if Waits(s, st) then Rank(Take(s, st)) == Rank(s) else 0 <= Rank(Take(s, st)) < Rank(s)
  {
    hide WorkersRank, Counts, Exclusive;
    RankSnoc(s.workers, Worker(s.next, Running));
    if st.WorkerStep? {
      forall pc {
        RankAt(s.workers, st.i, pc);
      }
    }
  }

  ghost function Work(s: State, steps: seq<Step>): nat
    requires Runs(s, steps)
    decreases |steps|
  {
    if steps == [] then 0
    else (if Waits(s, steps[0]) then 0 else 1) + Work(Take(s, steps[0]), steps[1..])
  }

  /** No run takes more than so many steps other than waits. */
  lemma {:induction false} WorkIsBounded(s: State, steps: seq<Step>)
    requires Inv(s) && Runs(s, steps)
    ensures Work(s, steps) <= Rank(s)
    decreases |steps|
  {
    hide Inv, Enabled, Take, Rank, Waits;
    if steps == [] {
      RankIsPositive(s);
    } else {
      StepKeeps(s, steps[0]);
      StepsCount(s, steps[0]);
      WorkIsBounded(Take(s, steps[0]), steps[1..]);
    }
  }

  lemma RankIsPositive(s: State)
    requires Inv(s)
    ensures Rank(s) >= 0
  {
  }

  lemma {:induction false} SomeActive(ws: seq<Worker>) returns (i: nat)
    requires Active(ws) > 0
    ensures i < |ws| && Undecremented(ws[i])
  {
    if Undecremented(ws[0]) {
      i := 0;
    } else {
      var j := SomeActive(ws[1..]);
      i := j + 1;
    }
  }

  /** A step that can be taken, and that leads out of a wait when the wait is over. */
  lemma NextStep(s: State) returns (st: Step)
    requires Inv(s) && s.main != Done
    ensures Enabled(s, st)
    ensures Waits(s, st) ==> Delay(Take(s, st)) < Delay(s)
  {
    hide Shared;
    if s.owner == Some(Main) {
      st := MainStep(false);
    } else if s.owner.Some? {
      st := WorkerStep(s.owner.value.i);
    } else if s.main == Join && s.joined < |s.workers| && s.workers[s.joined].pc != Exited {
      st := WorkerStep(s.joined);
    } else if Delay(s) == 0 && s.main in {Waiting, FinalWaiting} {
      var i := SomeActive(s.workers);
      st := WorkerStep(i);
    } else {
      st := MainStep(false);
    }
  }

  /** How far main is from leaving the wait it is in. */
  function Delay(s: State): nat {
    if s.main == Waiting then (if s.counter == s.limit then 0 else 2)
    else if s.main == FinalWaiting then (if s.counter != 0 then 0 else 2)
    else if s.main in {Check, FinalCheck} then 1
    else 0
  }

  /** From every state main can still finish: there is no deadlock, and no wait that cannot end. */
  lemma {:induction false} CanFinish(s: State) returns (steps: seq<Step>)
    requires Inv(s)
    ensures Runs(s, steps) && After(s, steps).main == Done
    decreases Rank(s), Delay(s)
  {
    if s.main == Done {
      steps := [];
    } else {
      var st := NextStep(s);
      RankIsPositive(s);
      StepKeeps(s, st);
      StepsCount(s, st);
      var rest := CanFinish(Take(s, st));
      steps := [st] + rest;
      assert steps[1..] == rest;
    }
  }
}
