/** The hand-off of tasks between the main loop and the worker threads, as steps that may interleave at will.

    One step is one access to something shared: a slot, a status word, a list under the lock.  A run is any sequence
    of enabled steps of the main loop and of any number of workers. */
module ThreadPool {
  import opened Collections

  /** `ThreadStatus`; TS_OVER belongs to the destructor. */
  datatype Status = Null | Idle | Busy

  /** Where a worker stands in `onThread`. */
  datatype WorkerPc =
    | Starting          // before the loop
    | Polling           // about to read its status
    | Checking          // saw TS_BUSY, about to read isDel
    | Running           // inside onTask
    | Finishing         // wants the lock to hand its task over
    | Locked            // holds the lock
    | Pushed            // has handed over, still holds the lock
    | Unlocked          // about to set TS_IDLE

  datatype Worker = Worker(status: Status, tdata: Option<nat>, pc: WorkerPc)

  /** Where the main loop stands in `handleEvents`. */
  datatype MainPc =
    | Outside
    | Assigning              // at the head of the first loop
    | Slotted(w: nat)        // has written th->tdata
    | Published(w: nat)      // has written th->status
    | WantsLock
    | Draining(done: nat)    // holds the lock, at the head of the second loop
    | Retiring(done: nat)    // has run onMain or skipped it, about to pop and delete

  datatype Owner = MainLoop | ByWorker(w: nat)

  /** Where a task is.  `where` below is bookkeeping of the model; the invariant ties it to the program's own lists. */
  datatype Place = Waiting | Held(w: nat) | Finished | Retired

  datatype State = State(
    workers: seq<Worker>,
    waitTasks: seq<nat>,          // mWaitTasks, by task id
    mainTasks: seq<nat>,          // mMainTasks
    taskId: nat,                  // mTaskId
    deleted: set<nat>,            // tasks with isDel set
    main: MainPc,
    lock: Option<Owner>,          // mMutex
    where: map<nat, Place>,
    given: seq<nat>,           // history: tasks given to a worker, in order
    succeeded: set<nat>,          // history: tasks whose onTask returned 0
    onMain: seq<nat>)             // history: tasks whose onMain was called, in order

  datatype Step =
    | AddTask | DelTask(id: nat)
    | Enter | WriteSlot(w: nat) | WriteBusy(w: nat) | PopWaiting | EndAssign
    | LockMain | RunOnMain | SkipOnMain | Retire | EndDrain
    | Start(w: nat) | SeeBusy(w: nat) | SeeDeleted(w: nat) | BeginTask(w: nat) | EndTask(w: nat, ok: bool)
    | LockWorker(w: nat) | Push(w: nat) | Unlock(w: nat) | GoIdle(w: nat)

  function Init(n: nat): State {
    State(seq(n, _ => Worker(Null, None, Starting)), [], [], 0, {}, Outside, None, map[], [], {}, [])
  }

  predicate At(s: State, w: nat, pc: WorkerPc) {
    w < |s.workers| && s.workers[w].pc == pc
  }

  /** The main thread may call `add` and `del` between its events and from inside `onMain`. */
  predicate MainFree(s: State) {
    s.main == Outside || s.main.Retiring?
  }

  /** The slot names a task that still exists. */
  predicate LiveSlot(s: State, w: nat) {
    && w < |s.workers| && s.workers[w].tdata.Some?
    && s.workers[w].tdata.value in s.where && s.where[s.workers[w].tdata.value] != Retired
  }

  /** No slot before `w` names the task, so `del` looks at slot `w` as well. */
  predicate Visited(s: State, id: nat, w: nat) {
    w < |s.workers| && forall v :: 0 <= v < w ==> s.workers[v].tdata != Some(id)
  }

  /** `del` reads the tasks in the slots one after the other, up to the one it looks for. An empty slot, and one that
      names a task already deleted from memory, must not be among those. */
  predicate DelSafe(s: State, id: nat) {
    forall w: nat :: w < |s.workers| && Visited(s, id, w) ==> LiveSlot(s, w)
  }

  /** `del` finds the task in a slot or in the waiting list. */
  predicate Named(s: State, id: nat) {
    id in s.waitTasks || exists w :: 0 <= w < |s.workers| && s.workers[w].tdata == Some(id)
  }

  predicate Enabled(s: State, step: Step) {
    match step
    case AddTask => MainFree(s)
    case DelTask(id) => MainFree(s) && DelSafe(s, id)
    case Enter => s.main == Outside
    case WriteSlot(w) => s.main == Assigning && s.waitTasks != [] && w < |s.workers| && s.workers[w].status == Idle
    case WriteBusy(w) => s.main == Slotted(w) && w < |s.workers|
    case PopWaiting => s.main.Published? && s.waitTasks != []
    case EndAssign => s.main == Assigning
    case LockMain => s.main == WantsLock && s.lock == None
    case RunOnMain => s.main.Draining? && s.main.done < 3 && s.mainTasks != [] && s.mainTasks[0] !in s.deleted
    case SkipOnMain => s.main.Draining? && s.main.done < 3 && s.mainTasks != [] && s.mainTasks[0] in s.deleted
    case Retire => s.main.Retiring? && s.mainTasks != []
    case EndDrain => s.main.Draining? && (s.main.done > 0 || s.mainTasks == [])
    case Start(w) => At(s, w, Starting)
    case SeeBusy(w) => At(s, w, Polling) && s.workers[w].status == Busy
    case SeeDeleted(w) => At(s, w, Checking) && s.workers[w].tdata.Some? && s.workers[w].tdata.value in s.deleted
    case BeginTask(w) => At(s, w, Checking) && s.workers[w].tdata.Some? && s.workers[w].tdata.value !in s.deleted
    case EndTask(w, ok) => At(s, w, Running) && s.workers[w].tdata.Some?
    case LockWorker(w) => At(s, w, Finishing) && s.lock == None
    case Push(w) => At(s, w, Locked) && s.workers[w].tdata.Some?
    case Unlock(w) => At(s, w, Pushed)
    case GoIdle(w) => At(s, w, Unlocked)
  }

  function Goto(s: State, w: nat, pc: WorkerPc): State
    requires w < |s.workers|
  {
    s.(workers := s.workers[w := s.workers[w].(pc := pc)])
  }

  function Apply(s: State, step: Step): State
    requires Enabled(s, step)
  {
    match step
    case AddTask =>
      var id := s.taskId + 1;
      s.(taskId := id, waitTasks := s.waitTasks + [id], where := s.where[id := Waiting])
    case DelTask(id) => if Named(s, id) then s.(deleted := s.deleted + {id}) else s
    case Enter => s.(main := Assigning)
    case WriteSlot(w) =>
      s.(workers := s.workers[w := s.workers[w].(tdata := Some(s.waitTasks[0]))], main := Slotted(w))
    case WriteBusy(w) =>
      var t := s.workers[w].tdata;
      s.(workers := s.workers[w := s.workers[w].(status := Busy)], main := Published(w),
         where := if t.Some? then s.where[t.value := Held(w)] else s.where,
         given := if t.Some? then s.given + [t.value] else s.given)
    case PopWaiting => s.(waitTasks := s.waitTasks[1..], main := Assigning)
    case EndAssign => s.(main := WantsLock)
    case LockMain => s.(lock := Some(MainLoop), main := Draining(0))
    case RunOnMain => s.(onMain := s.onMain + [s.mainTasks[0]], main := Retiring(s.main.done))
    case SkipOnMain => s.(main := Retiring(s.main.done))
    case Retire =>
      s.(where := s.where[s.mainTasks[0] := Retired], mainTasks := s.mainTasks[1..], main := Draining(s.main.done + 1))
    case EndDrain => s.(lock := None, main := Outside)
    case Start(w) => s.(workers := s.workers[w := s.workers[w].(status := Idle, pc := Polling)])
    case SeeBusy(w) => Goto(s, w, Checking)
    case SeeDeleted(w) => Goto(s, w, Finishing)
    case BeginTask(w) => Goto(s, w, Running)
    case EndTask(w, ok) =>
      if ok then Goto(s, w, Finishing).(succeeded := s.succeeded + {s.workers[w].tdata.value})
      else Goto(s, w, Polling)
    case LockWorker(w) => Goto(s, w, Locked).(lock := Some(ByWorker(w)))
    case Push(w) =>
      var id := s.workers[w].tdata.value;
      Goto(s, w, Pushed).(mainTasks := s.mainTasks + [id], where := s.where[id := Finished])
    case Unlock(w) => Goto(s, w, Unlocked).(lock := None)
    case GoIdle(w) => s.(workers := s.workers[w := s.workers[w].(status := Idle, pc := Polling)])
  }

  ghost predicate Behaviour(states: seq<State>, steps: seq<Step>) {
    && |states| == |steps| + 1
    && forall i :: 0 <= i < |steps| ==> Enabled(states[i], steps[i]) && states[i + 1] == Apply(states[i], steps[i])
  }

  // ----- the invariant -----------------------------------------------------------------------

  /** The waiting list without the task that was just given to a worker but not yet popped. */
  function StillWaiting(s: State): seq<nat> {
    if s.main.Published? && s.waitTasks != [] then s.waitTasks[1..] else s.waitTasks
  }

  /** The worker has a task it has not handed over yet. */
  predicate Holding(th: Worker) {
    th.status == Busy && th.tdata.Some? && th.pc !in {Starting, Pushed, Unlocked}
  }

  function UpTo(n: nat): (q: seq<nat>)
    ensures |q| == n && forall i :: 0 <= i < n ==> q[i] == i + 1
  {
    seq(n, i => i + 1)
  }

  /** Tasks are given out in the order of their ids, none skipped: those given are 1, 2, ... and those waiting go on. */
  predicate InOrder(s: State) {
    s.given + StillWaiting(s) == UpTo(s.taskId)
  }

  /** The bookkeeping agrees with the lists and the slots. */
  ghost predicate PlacesAgree(s: State) {
    && (forall id: nat :: id in s.where <==> 1 <= id <= s.taskId)
    && (forall id: nat :: id in s.where ==> (s.where[id] == Waiting <==> id > |s.given|))
    && Distinct(s.mainTasks)
    && (forall id: nat :: id in s.mainTasks <==> id in s.where && s.where[id] == Finished)
    && (forall id: nat :: id in s.where && s.where[id].Held? ==> HeldBy(s.workers, id, s.where[id].w))
    && (forall w: nat :: w < |s.workers| && Holding(s.workers[w]) ==>
          s.workers[w].tdata.value in s.where && s.where[s.workers[w].tdata.value] == Held(w))
  }

  predicate HeldBy(workers: seq<Worker>, id: nat, w: nat) {
    w < |workers| && Holding(workers[w]) && workers[w].tdata == Some(id)
  }

  /** A worker's place in its loop is consistent with its status and slot. */
  predicate WorkerOk(th: Worker, succeeded: set<nat>, deleted: set<nat>) {
    match th.pc
    case Starting => th.status == Null
    case Polling => th.status == Idle || (th.status == Busy && th.tdata.Some? && th.tdata.value !in succeeded)
    case Checking => th.status == Busy && th.tdata.Some? && th.tdata.value !in succeeded
    case Running => th.status == Busy && th.tdata.Some? && th.tdata.value !in succeeded
    case Finishing => th.status == Busy && th.tdata.Some? && (th.tdata.value in succeeded || th.tdata.value in deleted)
    case Locked => th.status == Busy && th.tdata.Some? && (th.tdata.value in succeeded || th.tdata.value in deleted)
    case Pushed => th.status == Busy && th.tdata.Some?
    case Unlocked => th.status == Busy && th.tdata.Some?
  }

  /** The task in the slot, if any, was handed over. */
  predicate HandedOver(th: Worker, where: map<nat, Place>) {
    th.tdata.Some? ==> th.tdata.value in where && where[th.tdata.value] in {Finished, Retired}
  }

  ghost predicate WorkersOk(s: State) {
    && (forall w: nat :: w < |s.workers| ==> WorkerOk(s.workers[w], s.succeeded, s.deleted))
    && (forall w: nat :: w < |s.workers| && !Holding(s.workers[w]) && s.main != Slotted(w) ==>
          HandedOver(s.workers[w], s.where))
  }

  /** The main loop's place is consistent with the slot it is filling. */
  predicate MainOk(s: State) {
    match s.main
    case Slotted(w) =>
      w < |s.workers| && s.workers[w].status == Idle && s.waitTasks != [] && s.workers[w].tdata == Some(s.waitTasks[0])
    case Published(w) => s.waitTasks != []
    case Retiring(_) => s.mainTasks != []
    case _ => true
  }

  ghost predicate LockOk(s: State) {
    && (s.lock == Some(MainLoop) <==> s.main.Draining? || s.main.Retiring?)
    && (s.lock.Some? && s.lock.value.ByWorker? ==>
          s.lock.value.w < |s.workers| && s.workers[s.lock.value.w].pc in {Locked, Pushed})
    && (forall w: nat :: w < |s.workers| && s.workers[w].pc in {Locked, Pushed} ==> s.lock == Some(ByWorker(w)))
  }

  /** `onMain` ran at most once per task, only after success, and the task was at the end of its way. */
  ghost predicate CallsOk(s: State) {
    && Distinct(s.onMain)
    && (forall id :: id in s.onMain ==>
          && id in s.succeeded && id in s.where
          && (s.where[id] == Retired || (s.main.Retiring? && s.mainTasks != [] && id == s.mainTasks[0])))
    && (forall id :: id in s.mainTasks ==> id in s.succeeded || id in s.deleted)
    && (forall id :: id in s.succeeded ==> id in s.where && s.where[id] != Waiting)
  }

  ghost predicate Inv(s: State) {
    PlacesAgree(s) && InOrder(s) && MainOk(s) && LockOk(s) && CallsOk(s) && WorkersOk(s)
  }

  lemma InitInv(n: nat)
    ensures Inv(Init(n))
  {
  }

  lemma AddTaskKeeps(s: State)
    requires Inv(s) && Enabled(s, Step.AddTask)
    ensures Inv(Apply(s, Step.AddTask))
  {
    var t := Apply(s, Step.AddTask);
    assert UpTo(t.taskId) == UpTo(s.taskId) + [t.taskId];
    assert StillWaiting(t) == StillWaiting(s) + [t.taskId];
    assert |s.given| <= s.taskId by { assert |s.given + StillWaiting(s)| == s.taskId; }
  }

  lemma DelTaskKeeps(s: State, id: nat)
    requires Inv(s) && Enabled(s, Step.DelTask(id))
    ensures Inv(Apply(s, Step.DelTask(id)))
  {
  }

  lemma WriteSlotKeeps(s: State, w: nat)
    requires Inv(s) && Enabled(s, Step.WriteSlot(w))
    ensures Inv(Apply(s, Step.WriteSlot(w)))
  {
  }

  /** The head of the waiting list is the next task in order. */
  lemma NextInLine(s: State)
    requires Inv(s) && s.main.Slotted?
    ensures s.waitTasks[0] == |s.given| + 1 <= s.taskId
    ensures s.waitTasks[0] in s.where && s.where[s.waitTasks[0]] == Waiting
  {
    assert (s.given + s.waitTasks)[|s.given|] == s.waitTasks[0];
    assert |s.given + s.waitTasks| == s.taskId;
  }

  lemma WriteBusyPlaces(s: State, w: nat)
    requires Inv(s) && Enabled(s, WriteBusy(w))
    ensures PlacesAgree(Apply(s, WriteBusy(w))) && InOrder(Apply(s, WriteBusy(w)))
  {
    hide CallsOk, LockOk;
    NextInLine(s);
    var t := Apply(s, WriteBusy(w));
    assert t.given + StillWaiting(t) == s.given + StillWaiting(s);
  }

  lemma WriteBusyRest(s: State, w: nat)
    requires Inv(s) && Enabled(s, WriteBusy(w))
    ensures MainOk(Apply(s, WriteBusy(w))) && LockOk(Apply(s, WriteBusy(w))) && CallsOk(Apply(s, WriteBusy(w)))
  {
    NextInLine(s);
    hide InOrder;
  }

  lemma WriteBusyWorkers(s: State, w: nat)
    requires Inv(s) && Enabled(s, WriteBusy(w))
    ensures WorkersOk(Apply(s, WriteBusy(w)))
  {
    NextInLine(s);
    hide InOrder, LockOk;
  }

  lemma WriteBusyKeeps(s: State, w: nat)
    requires Inv(s) && Enabled(s, WriteBusy(w))
    ensures Inv(Apply(s, WriteBusy(w)))
  {
    hide PlacesAgree, InOrder, MainOk, LockOk, CallsOk, WorkersOk;
    WriteBusyPlaces(s, w);
    WriteBusyRest(s, w);
    WriteBusyWorkers(s, w);
  }

  lemma PopWaitingKeeps(s: State)
    requires Inv(s) && Enabled(s, Step.PopWaiting)
    ensures Inv(Apply(s, Step.PopWaiting))
  {
  }

  lemma RunOnMainKeeps(s: State)
    requires Inv(s) && Enabled(s, Step.RunOnMain)
    ensures Inv(Apply(s, Step.RunOnMain))
  {
  }

  lemma RetireKeeps(s: State)
    requires Inv(s) && Enabled(s, Step.Retire)
    ensures Inv(Apply(s, Step.Retire))
  {
    var id, rest := s.mainTasks[0], s.mainTasks[1..];
    assert forall i: nat :: i in s.mainTasks <==> i == id || i in rest;
    assert id !in rest;
  }

  lemma EnterKeeps(s: State)
    requires Inv(s) && Enabled(s, Step.Enter)
    ensures Inv(Apply(s, Step.Enter))
  {
  }

  lemma EndAssignKeeps(s: State)
    requires Inv(s) && Enabled(s, Step.EndAssign)
    ensures Inv(Apply(s, Step.EndAssign))
  {
  }

  lemma LockMainKeeps(s: State)
    requires Inv(s) && Enabled(s, Step.LockMain)
    ensures Inv(Apply(s, Step.LockMain))
  {
  }

  lemma SkipOnMainKeeps(s: State)
    requires Inv(s) && Enabled(s, Step.SkipOnMain)
    ensures Inv(Apply(s, Step.SkipOnMain))
  {
  }

  lemma EndDrainKeeps(s: State)
    requires Inv(s) && Enabled(s, Step.EndDrain)
    ensures Inv(Apply(s, Step.EndDrain))
  {
  }

  lemma StartKeeps(s: State, w: nat)
    requires Inv(s) && Enabled(s, Step.Start(w))
    ensures Inv(Apply(s, Step.Start(w)))
  {
  }

  lemma SeeBusyKeeps(s: State, w: nat)
    requires Inv(s) && Enabled(s, Step.SeeBusy(w))
    ensures Inv(Apply(s, Step.SeeBusy(w)))
  {
  }

  lemma SeeDeletedKeeps(s: State, w: nat)
    requires Inv(s) && Enabled(s, Step.SeeDeleted(w))
    ensures Inv(Apply(s, Step.SeeDeleted(w)))
  {
  }

  lemma BeginTaskKeeps(s: State, w: nat)
    requires Inv(s) && Enabled(s, Step.BeginTask(w))
    ensures Inv(Apply(s, Step.BeginTask(w)))
  {
  }

  lemma EndTaskPlaces(s: State, w: nat, ok: bool)
    requires Inv(s) && Enabled(s, EndTask(w, ok))
    ensures PlacesAgree(Apply(s, EndTask(w, ok))) && InOrder(Apply(s, EndTask(w, ok)))
  {
    hide CallsOk, LockOk, MainOk;
  }

  lemma EndTaskRest(s: State, w: nat, ok: bool)
    requires Inv(s) && Enabled(s, EndTask(w, ok))
    ensures MainOk(Apply(s, EndTask(w, ok))) && LockOk(Apply(s, EndTask(w, ok))) && CallsOk(Apply(s, EndTask(w, ok)))
  {
    hide InOrder;
  }

  lemma EndTaskWorkers(s: State, w: nat, ok: bool)
    requires Inv(s) && Enabled(s, EndTask(w, ok))
    ensures WorkersOk(Apply(s, EndTask(w, ok)))
  {
    hide CallsOk, LockOk, InOrder;
  }

  lemma EndTaskKeeps(s: State, w: nat, ok: bool)
    requires Inv(s) && Enabled(s, EndTask(w, ok))
    ensures Inv(Apply(s, EndTask(w, ok)))
  {
    hide PlacesAgree, InOrder, MainOk, LockOk, CallsOk, WorkersOk;
    EndTaskPlaces(s, w, ok);
    EndTaskRest(s, w, ok);
    EndTaskWorkers(s, w, ok);
  }

  lemma LockWorkerKeeps(s: State, w: nat)
    requires Inv(s) && Enabled(s, Step.LockWorker(w))
    ensures Inv(Apply(s, Step.LockWorker(w)))
  {
  }

  lemma PushPlaces(s: State, w: nat)
    requires Inv(s) && Enabled(s, Push(w))
    ensures PlacesAgree(Apply(s, Push(w))) && InOrder(Apply(s, Push(w)))
  {
    hide CallsOk, LockOk, MainOk;
  }

  lemma PushRest(s: State, w: nat)
    requires Inv(s) && Enabled(s, Push(w))
    ensures MainOk(Apply(s, Push(w))) && LockOk(Apply(s, Push(w))) && CallsOk(Apply(s, Push(w)))
  {
    hide InOrder;
  }

  lemma PushWorkers(s: State, w: nat)
    requires Inv(s) && Enabled(s, Push(w))
    ensures WorkersOk(Apply(s, Push(w)))
  {
    hide CallsOk, LockOk, InOrder;
  }

  lemma PushKeeps(s: State, w: nat)
    requires Inv(s) && Enabled(s, Push(w))
    ensures Inv(Apply(s, Push(w)))
  {
    hide PlacesAgree, InOrder, MainOk, LockOk, CallsOk, WorkersOk;
    PushPlaces(s, w);
    PushRest(s, w);
    PushWorkers(s, w);
  }

  lemma UnlockKeeps(s: State, w: nat)
    requires Inv(s) && Enabled(s, Step.Unlock(w))
    ensures Inv(Apply(s, Step.Unlock(w)))
  {
  }

  lemma GoIdleKeeps(s: State, w: nat)
    requires Inv(s) && Enabled(s, Step.GoIdle(w))
    ensures Inv(Apply(s, Step.GoIdle(w)))
  {
  }

  lemma {:induction false} StepKeeps(s: State, step: Step)
    requires Inv(s) && Enabled(s, step)
    ensures Inv(Apply(s, step))
  {
    hide PlacesAgree, InOrder, MainOk, LockOk, CallsOk, WorkersOk, Inv;
    match step
    case AddTask => AddTaskKeeps(s);
    case DelTask(id) => DelTaskKeeps(s, id);
    case Enter => EnterKeeps(s);
    case WriteSlot(w) => WriteSlotKeeps(s, w);
    case WriteBusy(w) => WriteBusyKeeps(s, w);
    case PopWaiting => PopWaitingKeeps(s);
    case EndAssign => EndAssignKeeps(s);
    case LockMain => LockMainKeeps(s);
    case RunOnMain => RunOnMainKeeps(s);
    case SkipOnMain => SkipOnMainKeeps(s);
    case Retire => RetireKeeps(s);
    case EndDrain => EndDrainKeeps(s);
    case Start(w) => StartKeeps(s, w);
    case SeeBusy(w) => SeeBusyKeeps(s, w);
    case SeeDeleted(w) => SeeDeletedKeeps(s, w);
    case BeginTask(w) => BeginTaskKeeps(s, w);
    case EndTask(w, ok) => EndTaskKeeps(s, w, ok);
    case LockWorker(w) => LockWorkerKeeps(s, w);
    case Push(w) => PushKeeps(s, w);
    case Unlock(w) => UnlockKeeps(s, w);
    case GoIdle(w) => GoIdleKeeps(s, w);
  }

  lemma {:induction false} EveryRun(n: nat, states: seq<State>, steps: seq<Step>, i: nat)
    requires Behaviour(states, steps) && states[0] == Init(n) && i < |states|
    ensures Inv(states[i])
    decreases i
  {
    hide Inv, Enabled;
    if i == 0 {
      InitInv(n);
    } else {
      EveryRun(n, states, steps, i - 1);
      OneStep(states, steps, i - 1);
      StepKeeps(states[i - 1], steps[i - 1]);
    }
  }

  lemma OneStep(states: seq<State>, steps: seq<Step>, i: nat)
    requires Behaviour(states, steps) && i < |steps|
    ensures Enabled(states[i], steps[i]) && states[i + 1] == Apply(states[i], steps[i])
  {
  }

  // ----- what every interleaving keeps -------------------------------------------------------

  /** Every task added is in exactly one place: still waiting, held by exactly one worker, finished, or retired. */
  lemma ExactlyOnePlace(n: nat, states: seq<State>, steps: seq<Step>, i: nat, id: nat)
    requires Behaviour(states, steps) && states[0] == Init(n) && i < |states| && 1 <= id <= states[i].taskId
    ensures var s := states[i];
            && id in s.where
            && (if id in StillWaiting(s) then 1 else 0)
               + (if exists w: nat :: HeldBy(s.workers, id, w) then 1 else 0)
               + (if id in s.mainTasks then 1 else 0)
               + (if s.where[id] == Retired then 1 else 0) == 1
            && (forall v: nat, w: nat :: HeldBy(s.workers, id, v) && HeldBy(s.workers, id, w) ==> v == w)
            && Distinct(s.mainTasks) && Distinct(StillWaiting(s))
  {
    EveryRun(n, states, steps, i);
    var s := states[i];
    WaitingIsSuffix(s);
    if s.where[id].Held? { assert HeldBy(s.workers, id, s.where[id].w); }
    forall w: nat | HeldBy(s.workers, id, w) ensures s.where[id] == Held(w) {
      assert Holding(s.workers[w]);
    }
  }

  /** The waiting list holds the ids after those given out, in order. */
  lemma WaitingIsSuffix(s: State)
    requires Inv(s)
    ensures s.given == UpTo(|s.given|)
    ensures |s.given| + |StillWaiting(s)| == s.taskId
    ensures forall i :: 0 <= i < |StillWaiting(s)| ==> StillWaiting(s)[i] == |s.given| + i + 1
    ensures forall id: nat :: id in StillWaiting(s) <==> |s.given| < id <= s.taskId
  {
    var q := StillWaiting(s);
    assert |s.given + q| == s.taskId;
    assert forall i :: 0 <= i < |q| ==> q[i] == (s.given + q)[|s.given| + i];
    assert forall i :: 0 <= i < |s.given| ==> s.given[i] == (s.given + q)[i];
    forall id: nat | |s.given| < id <= s.taskId ensures id in q {
      assert q[id - 1 - |s.given|] == id;
    }
  }

  /** Tasks reach workers in the order in which they were added, none twice, none skipped. */
  lemma GivenInOrder(n: nat, states: seq<State>, steps: seq<Step>, i: nat)
    requires Behaviour(states, steps) && states[0] == Init(n) && i < |states|
    ensures states[i].given == UpTo(|states[i].given|) && |states[i].given| <= states[i].taskId
  {
    EveryRun(n, states, steps, i);
    WaitingIsSuffix(states[i]);
  }

  /** `onMain` is called at most once for a task, and only after its `onTask` returned 0 and while it is not deleted. */
  lemma OnMainIsEarned(n: nat, states: seq<State>, steps: seq<Step>, i: nat)
    requires Behaviour(states, steps) && states[0] == Init(n) && i < |steps| && steps[i] == RunOnMain
    ensures var s := states[i];
            && s.mainTasks != []
            && var id := s.mainTasks[0];
               && id !in s.onMain && id in s.succeeded && id !in s.deleted
               && states[i + 1].onMain == s.onMain + [id]
  {
    EveryRun(n, states, steps, i);
    OneStep(states, steps, i);
    var s := states[i];
    assert s.mainTasks[0] in s.mainTasks;
  }

  /** Only `RunOnMain` calls `onMain`; deletion is never undone. */
  lemma StepMonotone(s: State, step: Step)
    requires Enabled(s, step)
    ensures s.deleted <= Apply(s, step).deleted
    ensures Apply(s, step).onMain == s.onMain ||
            (s.mainTasks != [] && s.mainTasks[0] !in s.deleted && Apply(s, step).onMain == s.onMain + [s.mainTasks[0]])
  {
  }

  /** A task that is marked deleted before its `onMain` was called will never see the call, on any continuation. */
  lemma {:induction false} DeletedNeverCalled(states: seq<State>, steps: seq<Step>, i: nat, j: nat, id: nat)
    requires Behaviour(states, steps) && i <= j < |states|
    requires id in states[i].deleted && id !in states[i].onMain
    ensures id in states[j].deleted && id !in states[j].onMain
    decreases j
  {
    hide Enabled, Apply;
    if i < j {
      DeletedNeverCalled(states, steps, i, j - 1, id);
      OneStep(states, steps, j - 1);
      StepMonotone(states[j - 1], steps[j - 1]);
    }
  }

  /** A worker's slot is overwritten only after the task in it was handed to the main loop. */
  lemma SlotIsFreeWhenWritten(n: nat, states: seq<State>, steps: seq<Step>, i: nat, w: nat)
    requires Behaviour(states, steps) && states[0] == Init(n) && i < |steps| && steps[i] == WriteSlot(w)
    ensures w < |states[i].workers| && HandedOver(states[i].workers[w], states[i].where)
  {
    EveryRun(n, states, steps, i);
    OneStep(states, steps, i);
  }

  /** A worker runs a task only while it alone has it, while it still exists, and never again after it returned 0. */
  lemma RunsOwnLiveTask(n: nat, states: seq<State>, steps: seq<Step>, i: nat, w: nat)
    requires Behaviour(states, steps) && states[0] == Init(n) && i < |steps| && steps[i] == BeginTask(w)
    ensures var s := states[i];
            && w < |s.workers| && s.workers[w].tdata.Some?
            && var id := s.workers[w].tdata.value;
               && id in s.where && s.where[id] == Held(w) && id !in s.succeeded && id !in s.deleted
               && forall v: nat :: HeldBy(s.workers, id, v) ==> v == w
  {
    EveryRun(n, states, steps, i);
    OneStep(states, steps, i);
    var s := states[i];
    WorkerIsOk(s, w);
    assert Holding(s.workers[w]);
    forall v: nat | HeldBy(s.workers, s.workers[w].tdata.value, v) ensures v == w {
      assert Holding(s.workers[v]);
    }
  }

  /** The finished list is only touched under the lock, and the lock has one owner at a time. */
  lemma ListIsLocked(n: nat, states: seq<State>, steps: seq<Step>, i: nat)
    requires Behaviour(states, steps) && states[0] == Init(n) && i < |steps|
    requires states[i + 1].mainTasks != states[i].mainTasks
    ensures match steps[i]
            case Push(w) => states[i].lock == Some(ByWorker(w))
            case Retire => states[i].lock == Some(MainLoop)
            case _ => false
  {
    EveryRun(n, states, steps, i);
    OneStep(states, steps, i);
  }

  /** Nobody waits for ever on the lock: whoever has it has a step to take. */
  lemma LockHolderCanMove(n: nat, states: seq<State>, steps: seq<Step>, i: nat) returns (next: Step)
    requires Behaviour(states, steps) && states[0] == Init(n) && i < |states| && states[i].lock.Some?
    ensures Enabled(states[i], next)
    ensures match states[i].lock.value
            case MainLoop => next in {RunOnMain, SkipOnMain, Retire, EndDrain}
            case ByWorker(w) => next in {Push(w), Unlock(w)}
  {
    EveryRun(n, states, steps, i);
    var s := states[i];
    match s.lock.value
    case ByWorker(w) =>
      assert WorkerOk(s.workers[w], s.succeeded, s.deleted);
      next := if s.workers[w].pc == Locked then Push(w) else Unlock(w);
    case MainLoop =>
      if s.main.Retiring? { next := Retire; }
      else if s.main.done > 0 || s.mainTasks == [] { next := EndDrain; }
      else if s.mainTasks[0] in s.deleted { next := SkipOnMain; }
      else { next := RunOnMain; }
  }

  // ----- the order of the calls, told by the steps -------------------------------------------

  /** The tasks handed over in the first `i` steps, in this order: those in the slots of the workers that pushed. */
  function HandedOrder(states: seq<State>, steps: seq<Step>, i: nat): seq<nat>
    requires i <= |steps| < |states|
  {
    if i == 0 then []
    else
      var before := HandedOrder(states, steps, i - 1);
      match steps[i - 1]
      case Push(w) =>
        if w < |states[i - 1].workers| && states[i - 1].workers[w].tdata.Some?
        then before + [states[i - 1].workers[w].tdata.value] else before
      case _ => before
  }

  /** The task that was not retired in the first state and is in the second. */
  predicate GoesInto(s: State, t: State, id: nat) {
    id in s.where && s.where[id] != Retired && id in t.where && t.where[id] == Retired
  }

  /** `gone` lists the tasks retired in the first `i` steps, in the order of their retirement. */
  ghost predicate RetiredSoFar(states: seq<State>, steps: seq<Step>, i: nat, gone: seq<nat>)
    requires i <= |steps| < |states|
  {
    if i == 0 then gone == []
    else if steps[i - 1] != Retire then RetiredSoFar(states, steps, i - 1, gone)
    else
      gone != [] && GoesInto(states[i - 1], states[i], gone[|gone| - 1])
      && RetiredSoFar(states, steps, i - 1, gone[..|gone| - 1])
  }

  lemma QueueStep(s: State, step: Step)
    requires Inv(s) && Enabled(s, step)
    ensures var t := Apply(s, step);
            match step
            case Push(w) =>
              && w < |s.workers| && s.workers[w].tdata.Some?
              && t.mainTasks == s.mainTasks + [s.workers[w].tdata.value]
            case Retire =>
              s.mainTasks != [] && t.mainTasks == s.mainTasks[1..] && GoesInto(s, t, s.mainTasks[0])
            case _ => t.mainTasks == s.mainTasks
  {
    hide InOrder, LockOk, CallsOk, WorkersOk;
    if step == Retire { assert s.mainTasks[0] in s.mainTasks; }
  }

  /** Those of the list that are in the set, in the order of the list. */
  function Only(q: seq<nat>, keep: set<nat>): seq<nat> {
    if q == [] then [] else Only(q[..|q| - 1], keep) + if q[|q| - 1] in keep then [q[|q| - 1]] else []
  }

  lemma {:induction false} OnlyAdds(q: seq<nat>, r: seq<nat>, keep: set<nat>)
    ensures Only(q + r, keep) == Only(q, keep) + Only(r, keep)
    decreases r
  {
    if r == [] {
      assert q + r == q;
    } else {
      assert (q + r)[..|q + r| - 1] == q + r[..|r| - 1];
      OnlyAdds(q, r[..|r| - 1], keep);
    }
  }

  lemma {:induction false} OnlySame(q: seq<nat>, keep: set<nat>, more: set<nat>)
    requires forall id :: id in q ==> (id in keep <==> id in more)
    ensures Only(q, keep) == Only(q, more)
    decreases q
  {
    if q != [] {
      assert q[|q| - 1] in q;
      OnlySame(q[..|q| - 1], keep, more);
    }
  }

  function SetOf(q: seq<nat>): set<nat> { set id | id in q }

  /** What each step adds to the calls on the main thread. */
  lemma CallStep(s: State, step: Step)
    requires Inv(s) && Enabled(s, step)
    ensures var t := Apply(s, step);
            match step
            case RunOnMain =>
              s.mainTasks != [] && s.mainTasks[0] !in s.onMain && t.onMain == s.onMain + [s.mainTasks[0]]
            case _ => t.onMain == s.onMain
  {
    if step == RunOnMain { NotCalledYet(s); }
    hide Inv;
  }

  /** The calls so far: the tasks in `gone` that were called, in this order, and maybe the one about to be retired. */
  predicate CalledSoFar(s: State, gone: seq<nat>) {
    && (forall id :: id in gone ==> id in s.where && s.where[id] == Retired)
    && s.onMain == Only(gone, SetOf(s.onMain)) + Current(s)
  }

  function Current(s: State): seq<nat> {
    if s.main.Retiring? && s.mainTasks != [] && s.mainTasks[0] in s.onMain then [s.mainTasks[0]] else []
  }

  lemma NoneCalled(n: nat)
    ensures CalledSoFar(Init(n), [])
  {
  }

  lemma RetiredStays(s: State, step: Step, id: nat)
    requires Inv(s) && Enabled(s, step) && id in s.where && s.where[id] == Retired
    ensures var t := Apply(s, step); id in t.where && t.where[id] == Retired
  {
    hide LockOk, CallsOk;
    if step.WriteBusy? { NextInLine(s); }
  }

  /** What is on the finished list was not called, unless it is the one about to be retired. */
  lemma ListedNotCalled(s: State, i: nat)
    requires Inv(s) && i < |s.mainTasks| && s.mainTasks[i] in s.onMain
    ensures i == 0 && s.main.Retiring?
  {
    hide InOrder, LockOk, WorkersOk, MainOk;
    assert s.mainTasks[i] in s.mainTasks;
  }

  lemma CallsGoOn(s: State, step: Step, gone: seq<nat>)
    requires Inv(s) && Enabled(s, step) && CalledSoFar(s, gone)
    ensures CalledSoFar(Apply(s, step), if step == Retire && s.mainTasks != [] then gone + [s.mainTasks[0]] else gone)
  {
    hide Inv, Enabled, Apply, Only;
    var t := Apply(s, step);
    forall id | id in gone ensures id in t.where && t.where[id] == Retired {
      RetiredStays(s, step, id);
    }
    CallStep(s, step);
    QueueStep(s, step);
    if step == RunOnMain {
      CalledNow(s, gone);
    } else {
      CurrentStep(s, step);
      if step == Retire {
        OnlyAdds(gone, [s.mainTasks[0]], SetOf(s.onMain));
        OnlyOne(s.mainTasks[0], SetOf(s.onMain));
        RetiringNow(s);
      }
    }
  }

  lemma RetiringNow(s: State)
    requires Enabled(s, Step.Retire)
    ensures s.main.Retiring? && s.mainTasks != []
  {
  }

  lemma OnlyOne(id: nat, keep: set<nat>)
    ensures Only([id], keep) == if id in keep then [id] else []
  {
    assert [id][..0] == [];
  }

  lemma CurrentStep(s: State, step: Step)
    requires Inv(s) && Enabled(s, step) && step != RunOnMain
    ensures Current(Apply(s, step)) == if step == Retire then [] else Current(s)
  {
    if step == SkipOnMain { NotCalledYet(s); }
    hide Inv;
  }

  lemma CalledNow(s: State, gone: seq<nat>)
    requires Inv(s) && Enabled(s, RunOnMain) && CalledSoFar(s, gone)
    ensures Apply(s, RunOnMain).onMain
              == Only(gone, SetOf(Apply(s, RunOnMain).onMain)) + Current(Apply(s, RunOnMain))
  {
    var id := s.mainTasks[0];
    assert id in s.mainTasks;
    assert s.where[id] == Finished;
    hide Inv;
    var t := Apply(s, RunOnMain);
    OnlySame(gone, SetOf(s.onMain), SetOf(t.onMain));
    assert Current(t) == [id];
  }

  lemma {:induction false} OnlyNone(q: seq<nat>, keep: set<nat>)
    requires forall id :: id in q ==> id !in keep
    ensures Only(q, keep) == []
    decreases q
  {
    if q != [] { OnlyNone(q[..|q| - 1], keep); }
  }

  /** In every run `onMain` is called in the order in which the workers handed their tasks over; tasks that were passed
      over and are retired were marked deleted. */
  lemma CallsKeepOrder(n: nat, states: seq<State>, steps: seq<Step>, i: nat)
    requires Behaviour(states, steps) && states[0] == Init(n) && i < |states|
    ensures var s, order := states[i], HandedOrder(states, steps, i);
            && s.onMain == Only(order, SetOf(s.onMain))
            && (forall id :: id in order && id !in s.onMain && id !in s.mainTasks ==> id in s.deleted)
  {
    hide Inv, Enabled, Apply, Only;
    var gone := FirstInFirstOut(n, states, steps, i);
    EveryRun(n, states, steps, i);
    NoneIsDropped(n, states, steps, i);
    OnlyAdds(gone, states[i].mainTasks, SetOf(states[i].onMain));
    ListedCalls(states[i]);
  }

  lemma ListedCalls(s: State)
    requires Inv(s)
    ensures Only(s.mainTasks, SetOf(s.onMain)) == Current(s)
  {
    hide Inv;
    var keep := SetOf(s.onMain);
    if s.mainTasks != [] {
      var rest := s.mainTasks[1..];
      forall id | id in rest ensures id !in keep {
        var j :| 0 <= j < |rest| && rest[j] == id;
        if id in s.onMain { ListedNotCalled(s, j + 1); }
      }
      OnlyNone(rest, keep);
      OnlyOne(s.mainTasks[0], keep);
      assert s.mainTasks == [s.mainTasks[0]] + rest;
      OnlyAdds([s.mainTasks[0]], rest, keep);
      if s.mainTasks[0] in keep { ListedNotCalled(s, 0); }
    }
  }

  // ----- the other marks, told by the steps --------------------------------------------------

  /** A task has succeeded if and only if a worker that had it in its slot has returned 0 from it. */
  lemma {:induction false} SucceededIff(n: nat, states: seq<State>, steps: seq<Step>, i: nat, id: nat)
    requires Behaviour(states, steps) && states[0] == Init(n) && i < |states|
    ensures id in states[i].succeeded <==> exists j: nat :: j < i && SucceedsAt(states[j], steps[j], id)
    decreases i
  {
    hide Enabled, Apply, SucceedsAt;
    if i > 0 {
      SucceededIff(n, states, steps, i - 1, id);
      OneStep(states, steps, i - 1);
      MarkStep(states[i - 1], steps[i - 1], id);
    }
  }

  predicate SucceedsAt(s: State, step: Step, id: nat) {
    step.EndTask? && step.ok && step.w < |s.workers| && s.workers[step.w].tdata == Some(id)
  }

  predicate DeletedAt(s: State, step: Step, id: nat) {
    step == DelTask(id) && (id in s.waitTasks || exists w :: 0 <= w < |s.workers| && s.workers[w].tdata == Some(id))
  }

  lemma MarkStep(s: State, step: Step, id: nat)
    requires Enabled(s, step)
    ensures id in Apply(s, step).succeeded <==> id in s.succeeded || SucceedsAt(s, step, id)
    ensures id in Apply(s, step).deleted <==> id in s.deleted || DeletedAt(s, step, id)
  {
  }

  /** A task is marked deleted if and only if `del` was called for it while the waiting list or a slot named it. */
  lemma {:induction false} DeletedIff(n: nat, states: seq<State>, steps: seq<Step>, i: nat, id: nat)
    requires Behaviour(states, steps) && states[0] == Init(n) && i < |states|
    ensures id in states[i].deleted <==> exists j: nat :: j < i && DeletedAt(states[j], steps[j], id)
    decreases i
  {
    hide Enabled, Apply, DeletedAt;
    if i > 0 {
      DeletedIff(n, states, steps, i - 1, id);
      OneStep(states, steps, i - 1);
      MarkStep(states[i - 1], steps[i - 1], id);
    }
  }

  /** A task that fails stays with its worker, which will try it again: nothing else changes. */
  lemma FailedTaskStays(n: nat, states: seq<State>, steps: seq<Step>, i: nat, w: nat)
    requires Behaviour(states, steps) && states[0] == Init(n) && i < |steps| && steps[i] == EndTask(w, false)
    ensures var s, t := states[i], states[i + 1];
            && w < |s.workers| && s.workers[w].tdata.Some?
            && HeldBy(t.workers, s.workers[w].tdata.value, w) && Enabled(t, SeeBusy(w))
            && t == s.(workers := t.workers)
            && forall v :: 0 <= v < |s.workers| && v != w ==> t.workers[v] == s.workers[v]
  {
    EveryRun(n, states, steps, i);
    OneStep(states, steps, i);
    WorkerIsOk(states[i], w);
  }

  /** The number of tasks retired since the main loop last took the lock. */
  function InThisDrain(steps: seq<Step>, i: nat): nat
    requires i <= |steps|
  {
    if i == 0 || steps[i - 1] == LockMain then 0
    else InThisDrain(steps, i - 1) + if steps[i - 1] == Retire then 1 else 0
  }

  /** In one go the main loop retires three tasks at most, and one at least if there is one. */
  lemma {:induction false} ThreeAtMost(n: nat, states: seq<State>, steps: seq<Step>, i: nat)
    requires Behaviour(states, steps) && states[0] == Init(n) && i < |states|
    ensures InThisDrain(steps, i) <= 3
    ensures states[i].main.Draining? ==> states[i].main.done == InThisDrain(steps, i)
    ensures states[i].main.Retiring? ==> states[i].main.done == InThisDrain(steps, i) < 3
    ensures i < |steps| && steps[i] == EndDrain ==> InThisDrain(steps, i) > 0 || states[i].mainTasks == []
    decreases i
  {
    if i < |steps| { OneStep(states, steps, i); }
    if i > 0 {
      ThreeAtMost(n, states, steps, i - 1);
      OneStep(states, steps, i - 1);
    }
  }

  lemma NotCalledYet(s: State)
    requires Inv(s) && !s.main.Retiring? && s.mainTasks != []
    ensures s.mainTasks[0] !in s.onMain
  {
    assert s.mainTasks[0] in s.mainTasks;
  }

  /** First in, first out: in every run, the tasks handed over so far are, in this order, those retired so far and those
      on the finished list. */
  lemma {:induction false} FirstInFirstOut(n: nat, states: seq<State>, steps: seq<Step>, i: nat)
    returns (gone: seq<nat>)
    requires Behaviour(states, steps) && states[0] == Init(n) && i < |states|
    ensures RetiredSoFar(states, steps, i, gone) && HandedOrder(states, steps, i) == gone + states[i].mainTasks
    ensures CalledSoFar(states[i], gone)
    decreases i
  {
    hide Inv, Enabled, Apply, CalledSoFar;
    if i == 0 {
      gone := [];
      NoneCalled(n);
    } else {
      var before := FirstInFirstOut(n, states, steps, i - 1);
      EveryRun(n, states, steps, i - 1);
      OneStep(states, steps, i - 1);
      QueueStep(states[i - 1], steps[i - 1]);
      CallsGoOn(states[i - 1], steps[i - 1], before);
      gone := before;
      if steps[i - 1] == Retire {
        gone := before + [states[i - 1].mainTasks[0]];
        assert gone[..|gone| - 1] == before;
      }
    }
  }

  // ----- when `del` is safe, and what it does ------------------------------------------------

  /** Between the main loop's own steps, a slot names a living task if and only if its worker has not handed the task
      over yet, or the task is on the finished list. */
  lemma SlotIsLiveIff(n: nat, states: seq<State>, steps: seq<Step>, i: nat, w: nat)
    requires Behaviour(states, steps) && states[0] == Init(n) && i < |states| && MainFree(states[i])
    requires w < |states[i].workers|
    ensures var s, th := states[i], states[i].workers[w];
            LiveSlot(s, w) <==> Holding(th) || (th.tdata.Some? && th.tdata.value in s.mainTasks)
  {
    EveryRun(n, states, steps, i);
    var s, th := states[i], states[i].workers[w];
    hide InOrder, LockOk, CallsOk;
    if Holding(th) { assert s.where[th.tdata.value] == Held(w); } else { assert HandedOver(th, s.where); }
  }

  /** So `del` is safe if and only if that holds of every slot it looks at; it is not while a worker among them has
      never had a task, or has handed over one that is retired already. */
  lemma DelSafeIff(n: nat, states: seq<State>, steps: seq<Step>, i: nat, id: nat)
    requires Behaviour(states, steps) && states[0] == Init(n) && i < |states| && MainFree(states[i])
    ensures var s := states[i];
            Enabled(s, DelTask(id)) <==>
              forall w: nat :: Visited(s, id, w) ==>
                Holding(s.workers[w]) || (s.workers[w].tdata.Some? && s.workers[w].tdata.value in s.mainTasks)
  {
    hide Holding, LiveSlot;
    var s := states[i];
    forall w: nat | w < |s.workers|
      ensures LiveSlot(s, w)
              <==> Holding(s.workers[w]) || (s.workers[w].tdata.Some? && s.workers[w].tdata.value in s.mainTasks)
    {
      SlotIsLiveIff(n, states, steps, i, w);
    }
  }

  /** As long as no worker was given a task, no call of `del` is safe, whatever waits: every slot is empty. */
  lemma DelTooEarly(n: nat, states: seq<State>, steps: seq<Step>, i: nat, id: nat)
    requires Behaviour(states, steps) && states[0] == Init(n) && i < |states| && n > 0
    requires MainFree(states[i]) && states[i].given == []
    ensures !Enabled(states[i], DelTask(id))
  {
    EveryRun(n, states, steps, i);
    CrewStays(n, states, steps, i);
    SlotIsLiveIff(n, states, steps, i, 0);
    assert Visited(states[i], id, 0);
  }

  /** A safe `del` marks every task that is waiting or held by a worker, and no other; a task that is retired is left
      alone. */
  lemma DelMarks(n: nat, states: seq<State>, steps: seq<Step>, i: nat, id: nat)
    requires Behaviour(states, steps) && states[0] == Init(n) && i < |steps| && steps[i] == DelTask(id)
    ensures var s, t := states[i], states[i + 1];
            && (id in s.where && (s.where[id] == Waiting || s.where[id].Held?) ==> t == s.(deleted := s.deleted + {id}))
            && (id !in s.where || s.where[id] == Retired ==> t == s)
  {
    EveryRun(n, states, steps, i);
    OneStep(states, steps, i);
    WaitingIsSuffix(states[i]);
    if id in states[i].where {
      assert states[i].where[id].Held? ==> HeldBy(states[i].workers, id, states[i].where[id].w);
    }
    if Named(states[i], id) { NamedIsLive(states[i], id); }
  }

  lemma NamedIsLive(s: State, id: nat)
    requires Inv(s) && MainFree(s) && DelSafe(s, id) && Named(s, id)
    ensures id in s.where && s.where[id] != Retired
  {
    hide LockOk, CallsOk, WorkersOk;
    WaitingIsSuffix(s);
    if id !in s.waitTasks {
      var w :| 0 <= w < |s.workers| && s.workers[w].tdata == Some(id);
      FirstHit(s, id, w);
    }
  }

  lemma {:induction false} FirstHit(s: State, id: nat, w: nat)
    requires w < |s.workers| && s.workers[w].tdata == Some(id) && DelSafe(s, id)
    ensures id in s.where && s.where[id] != Retired
    decreases w
  {
    if Visited(s, id, w) {
      assert LiveSlot(s, w);
    } else {
      var v :| 0 <= v < w && s.workers[v].tdata == Some(id);
      FirstHit(s, id, v);
    }
  }

  // ----- every task can be brought to its end ------------------------------------------------

  /** A retired task was called on the main thread, or marked deleted; so was the one about to be retired. */
  ghost predicate Served(s: State) {
    && (forall id :: id in s.where && s.where[id] == Retired ==> id in s.onMain || id in s.deleted)
    && (s.main.Retiring? && s.mainTasks != [] ==> s.mainTasks[0] in s.onMain || s.mainTasks[0] in s.deleted)
  }

  lemma StepServes(s: State, step: Step)
    requires Inv(s) && Enabled(s, step) && Served(s)
    ensures Served(Apply(s, step))
  {
    hide InOrder, LockOk, CallsOk, WorkersOk;
  }

  /** In every reachable state, a retired task had its `onMain` called or was marked deleted: none is dropped. */
  lemma {:induction false} NoneIsDropped(n: nat, states: seq<State>, steps: seq<Step>, i: nat)
    requires Behaviour(states, steps) && states[0] == Init(n) && i < |states|
    ensures Served(states[i])
    decreases i
  {
    hide Inv, Enabled, Served;
    if i == 0 {
      ServedAtStart(n);
    } else {
      NoneIsDropped(n, states, steps, i - 1);
      EveryRun(n, states, steps, i - 1);
      OneStep(states, steps, i - 1);
      StepServes(states[i - 1], steps[i - 1]);
    }
  }

  lemma ServedAtStart(n: nat)
    ensures Served(Init(n))
  {
  }

  /** The steps a worker has to take until it is idle. */
  function Rank(th: Worker): nat {
    match th.pc
    case Starting => 9
    case Polling => if th.status == Busy then 8 else 0
    case Checking => 7
    case Running => 6
    case Finishing => 5
    case Locked => 4
    case Pushed => 3
    case Unlocked => 2
  }

  function Work(workers: seq<Worker>): nat {
    if workers == [] then 0 else Rank(workers[0]) + Work(workers[1..])
  }

  lemma {:induction false} WorkChanges(workers: seq<Worker>, w: nat, th: Worker)
    requires w < |workers|
    ensures Work(workers[w := th]) == Work(workers) - Rank(workers[w]) + Rank(th)
    decreases w
  {
    hide Rank;
    var after := workers[w := th];
    if w == 0 {
      assert after[1..] == workers[1..];
    } else {
      assert after[1..] == workers[1..][w - 1 := th];
      WorkChanges(workers[1..], w - 1, th);
    }
  }

  lemma {:induction false} WorkLeft(workers: seq<Worker>)
    ensures Work(workers) > 0 <==> exists w: nat :: w < |workers| && Rank(workers[w]) > 0
    decreases workers
  {
    hide Rank;
    if workers != [] {
      var more := workers[1..];
      WorkLeft(more);
      if Work(more) > 0 {
        var w: nat :| w < |more| && Rank(more[w]) > 0;
        assert workers[w + 1] == more[w];
      }
      if w: nat :| w < |workers| && Rank(workers[w]) > 0 {
        assert w > 0 ==> more[w - 1] == workers[w];
      }
    }
  }

  /** How far the main loop is from giving out or retiring the next task. */
  function Distance(s: State): nat {
    match s.main
    case Outside => 6
    case Assigning => 5
    case Slotted(_) => 4
    case Published(_) => 7
    case WantsLock => if s.mainTasks != [] then 3 else 9
    case Draining(done) => if s.mainTasks != [] && done < 3 then 2 else 8
    case Retiring(_) => 1
  }

  /** Closer to the end: fewer tasks waiting, or less work in hand, or fewer tasks finished, or a shorter way to go. */
  predicate Closer(t: State, s: State) {
    var a, b, c := |StillWaiting(t)|, Work(t.workers), |t.mainTasks|;
    var a', b', c' := |StillWaiting(s)|, Work(s.workers), |s.mainTasks|;
    a < a' || (a == a' && (b < b' || (b == b' && (c < c' || (c == c' && Distance(t) < Distance(s))))))
  }

  /** A step that neither adds nor marks a task. */
  predicate Inner(step: Step) { !step.AddTask? && !step.DelTask? }

  predicate AllRetired(s: State) {
    forall id :: id in s.where ==> s.where[id] == Retired
  }

  lemma HolderMoves(s: State) returns (step: Step)
    requires Inv(s) && s.lock.Some?
    ensures Inner(step) && Enabled(s, step) && Closer(Apply(s, step), s)
  {
    hide Inv;
    MainIsOk(s);
    match s.lock.value
    case ByWorker(w) =>
      var th := s.workers[w];
      WorkerIsOk(s, w);
      step := if th.pc == Locked then Push(w) else Unlock(w);
      WorkChanges(s.workers, w, th.(pc := if th.pc == Locked then Pushed else Unlocked));
    case MainLoop =>
      if s.main.Retiring? { step := Retire; }
      else if s.main.done >= 3 || s.mainTasks == [] { step := EndDrain; }
      else if s.mainTasks[0] in s.deleted { step := SkipOnMain; }
      else { step := RunOnMain; }
  }

  /** The next step of a worker that is not idle and does not hold the lock. */
  function WorkerStep(s: State, w: nat): Step
    requires w < |s.workers| && (s.workers[w].tdata.Some? || s.workers[w].pc == Starting)
  {
    match s.workers[w].pc
    case Starting => Start(w)
    case Polling => SeeBusy(w)
    case Checking => if s.workers[w].tdata.value in s.deleted then SeeDeleted(w) else BeginTask(w)
    case Running => EndTask(w, true)
    case Finishing => LockWorker(w)
    case Locked => Push(w)
    case Pushed => Unlock(w)
    case Unlocked => GoIdle(w)
  }

  lemma WorkerMoves(s: State, w: nat) returns (step: Step)
    requires Inv(s) && s.lock == None && w < |s.workers| && Rank(s.workers[w]) > 0
    ensures Inner(step) && Enabled(s, step) && Closer(Apply(s, step), s)
  {
    hide Inv;
    WorkerIsOk(s, w);
    step := WorkerStep(s, w);
    var t := Apply(s, step);
    assert t.workers == s.workers[w := t.workers[w]] && Rank(t.workers[w]) < Rank(s.workers[w]);
    hide Enabled, Apply;
    WorkChanges(s.workers, w, t.workers[w]);
  }

  lemma WorkerIsOk(s: State, w: nat)
    requires Inv(s) && w < |s.workers|
    ensures WorkerOk(s.workers[w], s.succeeded, s.deleted)
    ensures s.workers[w].pc in {Locked, Pushed} ==> s.lock == Some(ByWorker(w))
    ensures s.lock == Some(ByWorker(w)) ==> s.workers[w].pc in {Locked, Pushed}
  {
  }

  lemma MainIsOk(s: State)
    requires Inv(s)
    ensures MainOk(s) && (s.lock == Some(MainLoop) <==> s.main.Draining? || s.main.Retiring?)
    ensures s.lock.Some? && s.lock.value.ByWorker? ==> s.lock.value.w < |s.workers|
  {
  }

  /** With all workers idle, a task that is not retired waits or is finished. */
  lemma WaitsOrFinished(s: State)
    requires Inv(s) && Work(s.workers) == 0 && !AllRetired(s)
    ensures StillWaiting(s) != [] || s.mainTasks != []
  {
    WaitingIsSuffix(s);
    hide MainOk, LockOk, CallsOk, WorkersOk, InOrder;
    var id :| id in s.where && s.where[id] != Retired;
    if s.where[id].Held? {
      WorkLeft(s.workers);
      var w := s.where[id].w;
      assert HeldBy(s.workers, id, w);
      assert Rank(s.workers[w]) > 0;
    } else if s.where[id] == Finished {
      assert id in s.mainTasks;
    } else {
      assert id in StillWaiting(s);
    }
  }

  lemma MainMoves(s: State) returns (step: Step)
    requires Inv(s) && s.lock == None && Work(s.workers) == 0 && |s.workers| > 0 && !AllRetired(s)
    ensures Inner(step) && Enabled(s, step) && Closer(Apply(s, step), s)
  {
    WaitsOrFinished(s);
    WorkLeft(s.workers);
    assert Rank(s.workers[0]) == 0;
    WorkerIsOk(s, 0);
    MainIsOk(s);
    hide Inv, AllRetired;
    match s.main
    case Outside => step := Enter;
    case Assigning =>
      if s.waitTasks == [] {
        step := EndAssign;
      } else {
        step := WriteSlot(0);
        WorkChanges(s.workers, 0, s.workers[0].(tdata := Some(s.waitTasks[0])));
      }
    case Slotted(w) => step := WriteBusy(w);
    case Published(_) => step := PopWaiting;
    case WantsLock => step := LockMain;
  }

  lemma NextStep(s: State) returns (step: Step)
    requires Inv(s) && |s.workers| > 0 && !AllRetired(s)
    ensures Inner(step) && Enabled(s, step) && Closer(Apply(s, step), s)
  {
    hide Inv, Enabled, Apply, Closer, AllRetired;
    if s.lock.Some? {
      step := HolderMoves(s);
    } else if Work(s.workers) > 0 {
      WorkLeft(s.workers);
      var w: nat :| w < |s.workers| && Rank(s.workers[w]) > 0;
      step := WorkerMoves(s, w);
    } else {
      step := MainMoves(s);
    }
  }

  lemma InnerKeeps(s: State, step: Step)
    requires Inner(step) && Enabled(s, step)
    ensures var t := Apply(s, step);
            |t.workers| == |s.workers| && t.taskId == s.taskId && t.deleted == s.deleted
  {
  }

  lemma {:induction false} EverythingEnds(s: State) returns (states: seq<State>, steps: seq<Step>)
    requires Inv(s) && Served(s) && |s.workers| > 0
    ensures Behaviour(states, steps) && states[0] == s && forall step :: step in steps ==> Inner(step)
    ensures var t := states[|steps|];
            Inv(t) && Served(t) && AllRetired(t) && t.taskId == s.taskId && t.deleted == s.deleted
    decreases |StillWaiting(s)|, Work(s.workers), |s.mainTasks|, Distance(s)
  {
    hide Inv, Served, Enabled, Apply, AllRetired, Inner;
    if AllRetired(s) {
      states, steps := [s], [];
    } else {
      var step := NextStep(s);
      var t := Apply(s, step);
      InnerKeeps(s, step);
      StepKeeps(s, step);
      StepServes(s, step);
      var later, more := EverythingEnds(t);
      states, steps := [s] + later, [step] + more;
      Prepended(s, step, later, more);
    }
  }

  lemma Prepended(s: State, step: Step, later: seq<State>, more: seq<Step>)
    requires Behaviour(later, more) && Enabled(s, step) && later[0] == Apply(s, step)
    ensures Behaviour([s] + later, [step] + more) && ([s] + later)[|more| + 1] == later[|more|]
  {
    hide Enabled, Apply;
    var states, steps := [s] + later, [step] + more;
    forall i | 0 <= i < |steps| ensures Enabled(states[i], steps[i]) && states[i + 1] == Apply(states[i], steps[i]) {
      if i > 0 { OneStep(later, more, i - 1); }
    }
  }

  /** Nobody is ever stuck: from every reachable state, without another task being added, there is a way to retire all
      tasks; at its end every task has had its `onMain` called or was marked deleted. */
  lemma EveryTaskCanEnd(n: nat, states: seq<State>, steps: seq<Step>, i: nat)
      returns (later: seq<State>, more: seq<Step>)
    requires Behaviour(states, steps) && states[0] == Init(n) && i < |states| && n > 0
    ensures Behaviour(later, more) && later[0] == states[i] && forall step :: step in more ==> Inner(step)
    ensures var t := later[|more|];
            && AllRetired(t)
            && forall id :: 1 <= id <= states[i].taskId ==> id in t.where && (id in t.onMain || id in states[i].deleted)
  {
    hide InOrder, LockOk, CallsOk, WorkersOk, MainOk, Enabled;
    EveryRun(n, states, steps, i);
    NoneIsDropped(n, states, steps, i);
    CrewStays(n, states, steps, i);
    later, more := EverythingEnds(states[i]);
  }

  lemma {:induction false} CrewStays(n: nat, states: seq<State>, steps: seq<Step>, i: nat)
    requires Behaviour(states, steps) && states[0] == Init(n) && i < |states|
    ensures |states[i].workers| == n
    decreases i
  {
    hide Enabled, Apply;
    if i > 0 {
      CrewStays(n, states, steps, i - 1);
      OneStep(states, steps, i - 1);
      SameCrew(states[i - 1], steps[i - 1]);
    }
  }

  lemma SameCrew(s: State, step: Step)
    requires Enabled(s, step)
    ensures |Apply(s, step).workers| == |s.workers|
  {
  }

  // ----- the order of the last two steps -----------------------------------------------------

  /** The order "push, then go idle" is what keeps tasks from being lost. Suppose that a worker announced itself idle
      before handing its task over: then the main loop can take its slot if and only if it is assigning and a task
      waits, and if it does, no list and no slot names the worker's task any more. */
  lemma IdleBeforePushLoses(s: State, w: nat)
    requires Inv(s) && At(s, w, Finishing)
    ensures s.workers[w].tdata.Some?
    ensures var early, id := s.(workers := s.workers[w := s.workers[w].(status := Idle)]), s.workers[w].tdata.value;
            && (Enabled(early, WriteSlot(w)) <==> s.main == Assigning && s.waitTasks != [])
            && (Enabled(early, WriteSlot(w)) ==>
                  var t := Apply(early, WriteSlot(w));
                  && id !in t.waitTasks && id !in t.mainTasks
                  && forall v :: 0 <= v < |t.workers| ==> t.workers[v].tdata != Some(id))
  {
    assert WorkerOk(s.workers[w], s.succeeded, s.deleted);
    assert Holding(s.workers[w]);
    WaitingIsSuffix(s);
  }
}
