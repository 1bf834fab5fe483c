/** How threads that schedule bottom halves wake an event loop that is about to block: the
    `notify_me` / `notified` / event-notifier protocol, as atomic steps that interleave freely. */
module AioNotify {

  /** A bottom half. `wasIdle` records whether qemu_bh_schedule_idle had a hand in it since
      qemu_bh_schedule last found it unscheduled. */
  datatype BottomHalf = BottomHalf(scheduled: bool, idle: bool, deleted: bool, wasIdle: bool)

  /** Where a thread stands inside qemu_bh_schedule, qemu_bh_schedule_idle, qemu_bh_delete or aio_notify. */
  datatype ThreadPc =
    | Resting
    | Scheduling(bh: nat)      // idle cleared, about to exchange `scheduled`
    | SchedulingIdle(bh: nat)  // idle set, about to set `scheduled`
    | Deleting(bh: nat)        // scheduled cleared, about to set `deleted`
    | ReadingNotifyMe          // in aio_notify, before the test
    | SettingEvent             // test passed, before event_notifier_set
    | SettingNotified          // event set, before the store to `notified`

  /** A blocking aio_poll counts 2 in `notify_me`, the GSource prepare/check pair counts 1. */
  datatype Source = AioPoll | GSource

  function Weight(src: Source): nat {
    match src
    case AioPoll => 2
    case GSource => 1
  }

  /** The flag of the bottom half under the scan that is read next. */
  datatype Flag = Deleted | Scheduled | Idle

  /** Where the polling thread stands. List positions count down, since new bottom halves are
      put in front: `Scanning(src, n, t, f)` has still to pass the bottom halves below n, and is at
      flag f of the highest of them. */
  datatype PollerPc =
    | Dispatching                               // outside, running callbacks
    | TakingBh(bh: nat)                         // found alive, about to exchange `scheduled`
    | RunningBh(bh: nat)                        // `scheduled` was set, about to clear `idle`
    | Scanning(src: Source, left: nat, idleSeen: bool, flag: Flag)
    | Waiting(src: Source, canBlock: bool)      // in poll(); canBlock when the timeout is not 0
    | Accepting                                 // woken, about to exchange `notified`
    | ClearingEvent                             // `notified` was set, about to clear the notifier

  datatype State = State(
    notifyMe: nat,
    notified: bool,
    event: bool,
    bhs: seq<BottomHalf>,
    threads: seq<ThreadPc>,
    poller: PollerPc)

  datatype Step =
    | NewBh
    | StartSchedule(t: nat, bh: nat)
    | StartScheduleIdle(t: nat, bh: nat)
    | Cancel(t: nat, bh: nat)
    | StartDelete(t: nat, bh: nat)
    | StartNotify(t: nat)
    | Advance(t: nat)
    | FindBh(bh: nat)
    | TakeBh
    | RunBh
    | StartPoll(src: Source)
    | PollWithoutBlocking
    | Visit
    | EndScan(deadlinePassed: bool)
    | Wake
    | Accept
    | ClearEvent

  predicate Init(s: State) {
    && s.notifyMe == 0 && !s.notified && !s.event && s.bhs == []
    && s.poller == Dispatching
    && forall t | 0 <= t < |s.threads| :: s.threads[t] == Resting
  }

  predicate AtRest(s: State, t: nat) {
    t < |s.threads| && s.threads[t] == Resting
  }

  function Go(s: State, t: nat, pc: ThreadPc): State
    requires t < |s.threads|
  {
    s.(threads := s.threads[t := pc])
  }

  function SetBh(s: State, b: nat, bh: BottomHalf): State
    requires b < |s.bhs|
  {
    s.(bhs := s.bhs[b := bh])
  }

  /** The next atomic step of a thread that is inside an operation. */
  function Advanced(s: State, t: nat): State
    requires t < |s.threads|
  {
    match s.threads[t]
    case Resting => s
    case Scheduling(b) =>
      if b >= |s.bhs| then s
      else
        var pc := if s.bhs[b].scheduled then Resting else ReadingNotifyMe;
        var wasIdle := s.bhs[b].wasIdle && (s.bhs[b].scheduled || s.bhs[b].idle);
        Go(SetBh(s, b, s.bhs[b].(scheduled := true, wasIdle := wasIdle)), t, pc)
    case SchedulingIdle(b) =>
      if b >= |s.bhs| then s
      else Go(SetBh(s, b, s.bhs[b].(scheduled := true, wasIdle := true)), t, Resting)
    case Deleting(b) =>
      if b >= |s.bhs| then s
      else Go(SetBh(s, b, s.bhs[b].(deleted := true)), t, Resting)
    case ReadingNotifyMe => Go(s, t, if s.notifyMe != 0 then SettingEvent else Resting)
    case SettingEvent => Go(s.(event := true), t, SettingNotified)
    case SettingNotified => Go(s.(notified := true), t, Resting)
  }

  /** aio_compute_timeout reads one flag of the bottom half under the scan. */
  function Visited(pc: PollerPc, bh: BottomHalf): PollerPc
    requires pc.Scanning? && pc.left > 0
  {
    match pc.flag
    case Deleted => if bh.deleted then Pass(pc, pc.idleSeen) else pc.(flag := Scheduled)
    case Scheduled => if bh.scheduled then pc.(flag := Idle) else Pass(pc, pc.idleSeen)
    case Idle => if bh.idle then Pass(pc, true) else Waiting(pc.src, false)
  }

  function Pass(pc: PollerPc, idleSeen: bool): PollerPc
    requires pc.Scanning? && pc.left > 0
  {
    Scanning(pc.src, pc.left - 1, idleSeen, Deleted)
  }

  predicate Next(s: State, step: Step, s': State) {
    match step
    case NewBh => s' == s.(bhs := s.bhs + [BottomHalf(false, false, false, false)])
    case StartSchedule(t, b) =>
      && AtRest(s, t) && b < |s.bhs|
      && s' == Go(SetBh(s, b, s.bhs[b].(idle := false)), t, Scheduling(b))
    case StartScheduleIdle(t, b) =>
      && AtRest(s, t) && b < |s.bhs|
      && s' == Go(SetBh(s, b, s.bhs[b].(idle := true, wasIdle := true)), t, SchedulingIdle(b))
    case Cancel(t, b) =>
      AtRest(s, t) && b < |s.bhs| && s' == SetBh(s, b, s.bhs[b].(scheduled := false))
    case StartDelete(t, b) =>
      && AtRest(s, t) && b < |s.bhs|
      && s' == Go(SetBh(s, b, s.bhs[b].(scheduled := false)), t, Deleting(b))
    case StartNotify(t) => AtRest(s, t) && s' == Go(s, t, ReadingNotifyMe)
    case Advance(t) => t < |s.threads| && s' == Advanced(s, t)
    case FindBh(b) =>
      && s.poller == Dispatching && b < |s.bhs| && !s.bhs[b].deleted
      && s' == s.(poller := TakingBh(b))
    case TakeBh =>
      && s.poller.TakingBh? && s.poller.bh < |s.bhs|
      && var b := s.poller.bh;
      s' == SetBh(s.(poller := if s.bhs[b].scheduled then RunningBh(b) else Dispatching), b, s.bhs[b].(scheduled := false))
    case RunBh =>
      && s.poller.RunningBh? && s.poller.bh < |s.bhs|
      && s' == SetBh(s.(poller := Dispatching), s.poller.bh, s.bhs[s.poller.bh].(idle := false))
    case StartPoll(src) =>
      && s.poller == Dispatching
      && s' == s.(notifyMe := s.notifyMe + Weight(src), poller := Scanning(src, |s.bhs|, false, Deleted))
    case PollWithoutBlocking =>
      s.poller == Dispatching && s' == s.(poller := Accepting)
    case Visit =>
      && s.poller.Scanning? && s.poller.left > 0 && s.poller.left <= |s.bhs|
      && s' == s.(poller := Visited(s.poller, s.bhs[s.poller.left - 1]))
    case EndScan(deadlinePassed) =>
      && s.poller.Scanning? && s.poller.left == 0
      && s' == s.(poller := Waiting(s.poller.src, !deadlinePassed))
    case Wake =>
      && s.poller.Waiting? && s.notifyMe >= Weight(s.poller.src)
      && s' == s.(notifyMe := s.notifyMe - Weight(s.poller.src), poller := Accepting)
    case Accept =>
      && s.poller == Accepting
      && s' == s.(notified := false, poller := if s.notified then ClearingEvent else Dispatching)
    case ClearEvent =>
      s.poller == ClearingEvent && s' == s.(event := false, poller := Dispatching)
  }

  // ---------------------------------------------------------------------------------------

  /** Live, scheduled, and not scheduled as idle since qemu_bh_schedule last found it unscheduled: a
      bottom half that was idle and has run, or was cancelled, and is scheduled again is back. */
  predicate Pending(s: State, b: nat) {
    b < |s.bhs| && s.bhs[b].scheduled && !s.bhs[b].deleted && !s.bhs[b].wasIdle
  }

  /** The poller will not look at `b` again before it blocks. */
  predicate Passed(s: State, b: nat) {
    match s.poller
    case Scanning(_, left, _, _) => b >= left
    case Waiting(_, canBlock) => canBlock
    case _ => false
  }

  /** A thread that will set the event notifier unless nobody wants to be notified. */
  predicate WillSetEvent(pc: ThreadPc) {
    pc == ReadingNotifyMe || pc == SettingEvent
  }

  predicate IsSettingNotified(pc: ThreadPc) {
    pc == SettingNotified
  }

  predicate Committed(s: State) {
    Someone(s.threads, WillSetEvent)
  }

  predicate NotifyMeCounts(s: State) {
    s.notifyMe == match s.poller
                  case Scanning(src, _, _, _) => Weight(src)
                  case Waiting(src, _) => Weight(src)
                  case _ => 0
  }

  /** The event notifier is set only together with `notified`, between the two writes of a
      notifying thread, or while it is being accepted. */
  predicate EventAccounted(s: State) {
    s.event ==> s.notified || s.poller == ClearingEvent
                || Someone(s.threads, IsSettingNotified)
  }

  predicate WakeupPending(s: State) {
    forall b: nat | b < |s.bhs| && Pending(s, b) && Passed(s, b) :: s.event || Committed(s)
  }

  predicate IdleIsMarked(s: State) {
    forall b | 0 <= b < |s.bhs| && s.bhs[b].idle :: s.bhs[b].wasIdle
  }

  predicate ScanInList(s: State) {
    s.poller.Scanning? ==> s.poller.left <= |s.bhs|
  }

  predicate Inv(s: State) {
    NotifyMeCounts(s) && EventAccounted(s) && WakeupPending(s) && IdleIsMarked(s) && ScanInList(s)
  }

  lemma InitInv(s: State)
    requires Init(s)
    ensures Inv(s)
  {
  }

  predicate Someone(threads: seq<ThreadPc>, f: ThreadPc -> bool) {
    exists t :: 0 <= t < |threads| && f(threads[t])
  }

  /** Moving one thread keeps what the others stand for, and adds what it stands for now. */
  lemma OthersStay(threads: seq<ThreadPc>, t: nat, pc: ThreadPc, f: ThreadPc -> bool)
    requires t < |threads|
    ensures Someone(threads, f) && !f(threads[t]) ==> Someone(threads[t := pc], f)
    ensures f(pc) ==> Someone(threads[t := pc], f)
  {
    if f(pc) {
      assert f(threads[t := pc][t]);
    } else if Someone(threads, f) && !f(threads[t]) {
      var u :| 0 <= u < |threads| && f(threads[u]);
      assert f(threads[t := pc][u]);
    }
  }

  lemma StepCounts(s: State, step: Step, s': State)
    requires NotifyMeCounts(s) && ScanInList(s) && Next(s, step, s')
    ensures NotifyMeCounts(s') && ScanInList(s')
  {
    hide Advanced;
    if step.Advance? {
      AdvanceCounts(s, step.t);
    }
  }

  lemma AdvanceCounts(s: State, t: nat)
    requires t < |s.threads|
    ensures var s' := Advanced(s, t); s'.notifyMe == s.notifyMe && s'.poller == s.poller && |s'.bhs| == |s.bhs|
  {
  }

  /** The thread that a step moves, if it moves one. */
  function Mover(s: State, step: Step): nat {
    match step
    case StartSchedule(t, _) => t
    case StartScheduleIdle(t, _) => t
    case StartDelete(t, _) => t
    case StartNotify(t) => t
    case Advance(t) => t
    case _ => |s.threads|
  }

  lemma OneThreadMoves(s: State, step: Step, s': State)
    requires Next(s, step, s')
    ensures var t := Mover(s, step);
      if t < |s.threads| then s'.threads == s.threads[t := s'.threads[t]] else s'.threads == s.threads
  {
  }

  lemma AdvanceIdleFlags(s: State, t: nat)
    requires IdleIsMarked(s) && t < |s.threads|
    ensures IdleIsMarked(Advanced(s, t))
  {
  }

  lemma StepIdleFlags(s: State, step: Step, s': State)
    requires IdleIsMarked(s) && Next(s, step, s')
    ensures IdleIsMarked(s')
  {
    hide Advanced;
    if step.Advance? {
      AdvanceIdleFlags(s, step.t);
    }
  }

  lemma StepEvent(s: State, step: Step, s': State)
    requires EventAccounted(s) && Next(s, step, s')
    ensures EventAccounted(s')
  {
    var t := Mover(s, step);
    OneThreadMoves(s, step, s');
    if t < |s.threads| {
      OthersStay(s.threads, t, s'.threads[t], IsSettingNotified);
    }
  }

  /** A bottom half that a step makes pending is the one whose `scheduled` flag a thread has just
      exchanged, and that thread goes on to notify. */
  lemma PendingIsCommitted(s: State, step: Step, s': State, b: nat)
    requires Next(s, step, s') && Pending(s', b) && !Pending(s, b)
    ensures Mover(s, step) < |s.threads| && s'.threads[Mover(s, step)] == ReadingNotifyMe
  {
    hide Advanced;
    if step.Advance? {
      AdvancePending(s, step.t, b);
    }
  }

  lemma AdvancePending(s: State, t: nat, b: nat)
    requires t < |s.threads| && Pending(Advanced(s, t), b) && !Pending(s, b)
    ensures Advanced(s, t).threads[t] == ReadingNotifyMe
  {
  }

  /** A bottom half is passed by the scan only when it is not pending. */
  lemma PassedWasChecked(s: State, step: Step, s': State, b: nat)
    requires Inv(s) && Next(s, step, s') && Passed(s', b) && Pending(s', b)
    ensures Passed(s, b)
  {
    hide Advanced;
    if step.Advance? {
      AdvanceCounts(s, step.t);
    }
  }

  lemma StepWakeup(s: State, step: Step, s': State)
    requires Inv(s) && Next(s, step, s')
    ensures WakeupPending(s')
  {
    var t := Mover(s, step);
    if t < |s.threads| {
      OneThreadMoves(s, step, s');
      OthersStay(s.threads, t, s'.threads[t], WillSetEvent);
    }
    forall b: nat | b < |s'.bhs| && Pending(s', b) && Passed(s', b)
      ensures s'.event || Committed(s')
    {
      PassedWasChecked(s, step, s', b);
      if !Pending(s, b) {
        PendingIsCommitted(s, step, s', b);
      } else {
        CommitmentKept(s, step, s', b);
      }
    }
  }

  lemma CommitmentKept(s: State, step: Step, s': State, b: nat)
    requires NotifyMeCounts(s) && Next(s, step, s') && Passed(s, b) && Passed(s', b)
    requires s.event || Committed(s)
    ensures s'.event || Committed(s')
  {
    var t := Mover(s, step);
    OneThreadMoves(s, step, s');
    if t < |s.threads| {
      OthersStay(s.threads, t, s'.threads[t], WillSetEvent);
    }
  }

  lemma StepInv(s: State, step: Step, s': State)
    requires Inv(s) && Next(s, step, s')
    ensures Inv(s')
  {
    StepCounts(s, step, s');
    StepIdleFlags(s, step, s');
    StepEvent(s, step, s');
    StepWakeup(s, step, s');
  }

  // ---------------------------------------------------------------------------------------

  predicate IsRun(states: seq<State>, steps: seq<Step>) {
    && |states| == |steps| + 1
    && Init(states[0])
    && forall i | 0 <= i < |steps| :: Next(states[i], steps[i], states[i + 1])
  }

  lemma {:induction false} RunInv(states: seq<State>, steps: seq<Step>, i: nat)
    requires IsRun(states, steps) && i < |states|
    ensures Inv(states[i])
  {
    if i == 0 {
      InitInv(states[0]);
    } else {
      RunInv(states, steps, i - 1);
      StepInv(states[i - 1], steps[i - 1], states[i]);
    }
  }

  /** In every interleaving, whenever the poller may be blocked while a live bottom half is scheduled
      that was not scheduled as idle since qemu_bh_schedule last found it unscheduled, the event
      notifier is set or a thread is about to set it; and a set notifier is always accounted for. */
  lemma NoLostWakeup(states: seq<State>, steps: seq<Step>, i: nat, b: nat)
    requires IsRun(states, steps) && i < |states|
    ensures states[i].poller.Waiting? && states[i].poller.canBlock && Pending(states[i], b) ==>
              states[i].event || Committed(states[i])
    ensures EventAccounted(states[i])
  {
    RunInv(states, steps, i);
  }

  /** While the poller waits, a committed thread sets the event within its own next two steps. */
  lemma CommittedSetsEvent(s: State, t: nat)
    requires NotifyMeCounts(s) && s.poller.Waiting? && t < |s.threads| && WillSetEvent(s.threads[t])
    ensures var s1 := Advanced(s, t); s1.event || Advanced(s1, t).event
  {
  }

  /** Nothing but the poller's own accept takes the event away again. */
  lemma EventStays(s: State, step: Step, s': State)
    requires Next(s, step, s') && s.event && s.poller.Waiting?
    ensures s'.event
  {
  }

  /** A run in which a bottom half is scheduled as idle before it is scheduled. */
  function IdleFirstState(i: nat): State {
    var created := State(0, false, false, [BottomHalf(false, false, false, false)], [Resting], Dispatching);
    var idle := State(0, false, false, [BottomHalf(true, true, false, true)], [Resting], Dispatching);
    if i == 0 then created.(bhs := [])
    else if i == 1 then created
    else if i == 2 then created.(bhs := [BottomHalf(false, true, false, true)], threads := [SchedulingIdle(0)])
    else if i == 3 then idle
    else if i == 4 then idle.(notifyMe := 2, poller := Scanning(AioPoll, 1, false, Deleted))
    else if i == 5 then idle.(notifyMe := 2, poller := Scanning(AioPoll, 1, false, Scheduled))
    else if i == 6 then idle.(notifyMe := 2, poller := Scanning(AioPoll, 1, false, Idle))
    else if i == 7 then idle.(notifyMe := 2, poller := Scanning(AioPoll, 0, true, Deleted))
    else if i == 8 then idle.(notifyMe := 2, poller := Waiting(AioPoll, true))
    else State(2, false, false, [BottomHalf(true, false, false, true)],
               [if i == 9 then Scheduling(0) else Resting], Waiting(AioPoll, true))
  }

  function IdleFirstStep(i: nat): Step {
    if i == 0 then NewBh
    else if i == 1 then StartScheduleIdle(0, 0)
    else if i == 3 then StartPoll(AioPoll)
    else if 4 <= i <= 6 then Visit
    else if i == 7 then EndScan(false)
    else if i == 8 then StartSchedule(0, 0)
    else Advance(0)
  }

  lemma IdleFirstNext(i: nat)
    requires i < 10
    ensures Next(IdleFirstState(i), IdleFirstStep(i), IdleFirstState(i + 1))
  {
    if i == 0 {
    } else if i == 1 {
    } else if i == 2 {
    } else if i == 3 {
    } else if i == 4 {
    } else if i == 5 {
    } else if i == 6 {
    } else if i == 7 {
    } else if i == 8 {
    } else {
    }
  }

  /** A blocked poller that nobody will notify of the one bottom half, which is scheduled and not idle. */
  predicate LeftAlone(s: State) {
    && s.poller == Waiting(AioPoll, true) && !s.event && !Committed(s)
    && |s.bhs| == 1 && s.bhs[0].scheduled && !s.bhs[0].deleted && !s.bhs[0].idle
  }

  /** A bottom half scheduled as idle first is not covered: a later qemu_bh_schedule finds
      `scheduled` set and notifies nobody, and the poller stays blocked on its idle timeout. */
  lemma IdleFirstIsNotNotified() returns (states: seq<State>, steps: seq<Step>)
    ensures IsRun(states, steps) && LeftAlone(states[|states| - 1])
  {
    states := seq(11, i requires 0 <= i => IdleFirstState(i));
    steps := seq(10, i requires 0 <= i => IdleFirstStep(i));
    forall i | 0 <= i < |steps|
      ensures Next(states[i], steps[i], states[i + 1])
    {
      IdleFirstNext(i);
    }
  }

  /** A run in which a bottom half is scheduled while nobody polls, and then as idle. */
  function IdleLaterState(i: nat): State {
    var created := State(0, false, false, [BottomHalf(false, false, false, false)], [Resting], Dispatching);
    var ready := created.(bhs := [BottomHalf(true, false, false, false)]);
    var idle := State(2, false, false, [BottomHalf(true, true, false, true)], [Resting], Waiting(AioPoll, true));
    if i == 0 then created.(bhs := [])
    else if i == 1 then created
    else if i == 2 then created.(threads := [Scheduling(0)])
    else if i == 3 then ready.(threads := [ReadingNotifyMe])
    else if i == 4 then ready
    else if i == 5 then idle.(notifyMe := 0, threads := [SchedulingIdle(0)], poller := Dispatching)
    else if i == 6 then idle.(notifyMe := 0, poller := Dispatching)
    else if i == 7 then idle.(poller := Scanning(AioPoll, 1, false, Deleted))
    else if i == 8 then idle.(poller := Scanning(AioPoll, 1, false, Scheduled))
    else if i == 9 then idle.(poller := Scanning(AioPoll, 1, false, Idle))
    else if i == 10 then idle.(poller := Scanning(AioPoll, 0, true, Deleted))
    else if i == 11 then idle
    else idle.(bhs := [BottomHalf(true, false, false, true)], threads := [if i == 12 then Scheduling(0) else Resting])
  }

  function IdleLaterStep(i: nat): Step {
    if i == 0 then NewBh
    else if i == 1 || i == 11 then StartSchedule(0, 0)
    else if i == 4 then StartScheduleIdle(0, 0)
    else if i == 6 then StartPoll(AioPoll)
    else if 7 <= i <= 9 then Visit
    else if i == 10 then EndScan(false)
    else Advance(0)
  }

  lemma IdleLaterNext(i: nat)
    requires i < 13
    ensures Next(IdleLaterState(i), IdleLaterStep(i), IdleLaterState(i + 1))
  {
    hide IdleLaterState, IdleLaterStep, Next;
    if i < 7 {
      IdleLaterStart(i);
    } else {
      IdleLaterEnd(i);
    }
  }

  lemma IdleLaterStart(i: nat)
    requires i < 7
    ensures Next(IdleLaterState(i), IdleLaterStep(i), IdleLaterState(i + 1))
  {
    if i == 0 {
    } else if i == 1 {
    } else if i == 2 {
    } else if i == 3 {
    } else if i == 4 {
    } else if i == 5 {
    } else {
    }
  }

  lemma IdleLaterEnd(i: nat)
    requires 7 <= i < 13
    ensures Next(IdleLaterState(i), IdleLaterStep(i), IdleLaterState(i + 1))
  {
    if i == 7 {
    } else if i == 8 {
    } else if i == 9 {
    } else if i == 10 {
    } else if i == 11 {
    } else {
    }
  }

  /** Nor is one that is scheduled as idle after qemu_bh_schedule found it unscheduled. */
  lemma IdleLaterIsNotNotified() returns (states: seq<State>, steps: seq<Step>)
    ensures IsRun(states, steps) && LeftAlone(states[|states| - 1])
  {
    LastLeftAlone();
    hide IdleLaterState, IdleLaterStep, Next, LeftAlone;
    states := seq(14, i requires 0 <= i => IdleLaterState(i));
    steps := seq(13, i requires 0 <= i => IdleLaterStep(i));
    forall i | 0 <= i < |steps|
      ensures Next(states[i], steps[i], states[i + 1])
    {
      IdleLaterNext(i);
    }
  }

  lemma LastLeftAlone()
    ensures Init(IdleLaterState(0)) && LeftAlone(IdleLaterState(13))
  {
  }
}
