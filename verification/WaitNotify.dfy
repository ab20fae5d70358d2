/** The wait/notify pair of kernel threads and the module exit that stops them, one
    shared access at a time. */
module WaitNotify {

  /** The waiter: the stop test, wait_event_interruptible's first test, its loop of
      prepare, test and schedule, and the clearing of the flag. */
  datatype WaiterPc = WTop | WFirst | WPrepare | WCheck | WSchedule | WClear | WExited

  datatype NotifierPc = NTop | NSet | NWake | NSleep | NExited

  /** Module exit: kthread_stop on the waiter, then kthread_stop on the notifier; or, for
      comparison, the other way round. */
  datatype ExitPc = XIdle | XWakeWaiter | XJoinWaiter | XStopNotifier | XJoinNotifier | XDone

  datatype State = State(
    waiterFirst: bool,         // the order of the two stops
    flag: bool,
    asleep: bool,              // the waiter is queued and not to be scheduled
    stopWaiter: bool,
    stopNotifier: bool,
    waiter: WaiterPc,
    notifier: NotifierPc,
    leave: ExitPc,
    notified: nat,             // history: how often the flag was raised
    returned: nat)             // history: how often the wait was over

  datatype Thread = Waiter | Notifier | Exit

  function Initial(waiterFirst: bool): State
  {
    State(waiterFirst, false, false, false, false, WTop, NTop, XIdle, 0, 0)
  }

  function WaiterStep(s: State): State
  {
    match s.waiter
    case WTop => s.(waiter := if s.stopWaiter then WExited else WFirst)
    case WFirst => if s.flag then s.(waiter := WClear, returned := s.returned + 1) else s.(waiter := WPrepare)
    case WPrepare => s.(asleep := true, waiter := WCheck)
    case WCheck =>
      if s.flag then s.(asleep := false, waiter := WClear, returned := s.returned + 1)
      else s.(waiter := WSchedule)
    case WSchedule => if s.asleep then s else s.(waiter := WPrepare)
    case WClear => s.(flag := false, waiter := WTop)
    case WExited => s
  }

  function NotifierStep(s: State): State
  {
    match s.notifier
    case NTop => s.(notifier := if s.stopNotifier then NExited else NSet)
    case NSet => s.(flag := true, notified := s.notified + 1, notifier := NWake)
    case NWake => s.(asleep := false, notifier := NSleep)
    case NSleep => s.(notifier := NTop)
    case NExited => s
  }

  function ExitStep(s: State): State
  {
    match s.leave
    case XIdle =>
      if s.waiterFirst then s.(stopWaiter := true, leave := XWakeWaiter)
      else s.(stopNotifier := true, leave := XJoinNotifier)
    case XWakeWaiter => s.(asleep := false, leave := XJoinWaiter)
    case XJoinWaiter =>
      if !s.waiter.WExited? then s else s.(leave := if s.waiterFirst then XStopNotifier else XDone)
    case XStopNotifier => s.(stopNotifier := true, leave := XJoinNotifier)
    case XJoinNotifier =>
      if !s.notifier.NExited? then s
      else if s.waiterFirst then s.(leave := XDone)
      else s.(stopWaiter := true, leave := XWakeWaiter)
    case XDone => s
  }

  /** One step of a thread; a blocked one stays where it is. */
  function Next(s: State, t: Thread): State
  {
    match t
    case Waiter => WaiterStep(s)
    case Notifier => NotifierStep(s)
    case Exit => ExitStep(s)
  }

  function Run(s: State, schedule: seq<Thread>): State
    decreases |schedule|
  {
    if schedule == [] then s else Run(Next(s, schedule[0]), schedule[1..])
  }

  // ----- invariant -----

  predicate Safe(s: State)
  {
    && s.waiterFirst
    // The stop flags follow the exit, which waits for the waiter before it stops the notifier.
    && (s.stopWaiter <==> !s.leave.XIdle?)
    && (s.stopNotifier <==> s.leave.XJoinNotifier? || s.leave.XDone?)
    && (s.waiter.WExited? ==> s.stopWaiter)
    && (s.notifier.NExited? ==> s.stopNotifier)
    && (s.leave.XStopNotifier? || s.stopNotifier ==> s.waiter.WExited?)
    && (s.leave.XDone? ==> s.notifier.NExited?)
    // No wake-up is lost: a sleeper that missed the flag is about to be woken.
    && (s.waiter.WSchedule? && s.asleep && s.flag ==> s.notifier.NWake?)
    // Each return uses up a notification of its own.
    && s.returned + (if s.flag && !s.waiter.WClear? then 1 else 0) <= s.notified
  }

  lemma SafeStep(s: State, t: Thread)
    requires Safe(s)
    ensures Safe(Next(s, t))
  {
  }

  lemma {:induction false} SafeRun(s: State, schedule: seq<Thread>)
    requires Safe(s)
    ensures Safe(Run(s, schedule))
    decreases |schedule|
  {
    if schedule != [] {
      SafeStep(s, schedule[0]);
      SafeRun(Next(s, schedule[0]), schedule[1..]);
    }
  }

  /** In every run the waiter returns at most as often as it was notified. */
  lemma ReturnsNeverOutnumberNotifications(schedule: seq<Thread>)
    ensures Run(Initial(true), schedule).returned <= Run(Initial(true), schedule).notified
  {
    SafeRun(Initial(true), schedule);
  }

  /** While the waiter has not exited, the notifier has not been asked to stop and runs:
      a sleeping waiter always has somebody to wake it. */
  lemma WaiterNeverAbandoned(schedule: seq<Thread>)
    ensures var s := Run(Initial(true), schedule);
      !s.waiter.WExited? ==> !s.stopNotifier && !s.notifier.NExited?
  {
    SafeRun(Initial(true), schedule);
  }

  // ----- termination of the exit -----

  predicate Waits(s: State)
  {
    s.waiter.WFirst? || s.waiter.WPrepare? || s.waiter.WCheck? || s.waiter.WSchedule?
  }

  /** Steps of the notifier until the flag is raised. */
  function UntilRaised(pc: NotifierPc): nat
  {
    match pc case NSet => 1 case NTop => 2 case NSleep => 3 case NWake => 4 case NExited => 5
  }

  /** What is left of the shutdown; only one thread at a time can bring it down. */
  function Rank(s: State): nat
  {
    if !s.waiter.WExited? then
      8 + (if Waits(s) && !s.flag then 6 + UntilRaised(s.notifier)
           else match s.waiter
             case WTop => 1
             case WClear => 2
             case WFirst => 3
             case WCheck => 3
             case WPrepare => 4
             case WSchedule => (if s.asleep then 6 else 5)
             case WExited => 0)
    else if !s.stopNotifier then
      5 + (match s.leave case XStopNotifier => 1 case XJoinWaiter => 2 case _ => 3)
    else if !s.notifier.NExited? then
      1 + (match s.notifier case NTop => 1 case NSleep => 2 case NWake => 3 case _ => 4)
    else if s.leave.XDone? then 0 else 1
  }

  /** The thread whose next step brings the rank down. */
  function Helpful(s: State): Thread
  {
    if !s.waiter.WExited? then
      if Waits(s) && (!s.flag || (s.waiter.WSchedule? && s.asleep)) then Notifier else Waiter
    else if !s.stopNotifier then Exit
    else if !s.notifier.NExited? then Notifier
    else Exit
  }

  /** Once exit has begun no step raises the rank, and the helpful thread stays helpful
      until it takes its step, which lowers it. */
  lemma Progress(s: State, t: Thread)
    requires Safe(s) && s.stopWaiter && Rank(s) > 0
    ensures var u := Next(s, t);
      && u.stopWaiter && Rank(u) <= Rank(s)
      && (t == Helpful(s) ==> Rank(u) < Rank(s))
      && (Rank(u) == Rank(s) ==> Helpful(u) == Helpful(s))
  {
  }

  /** Every thread gets its turn. */
  predicate Fair(round: seq<Thread>) { Waiter in round && Notifier in round && Exit in round }

  lemma {:induction false} NeverRises(s: State, schedule: seq<Thread>)
    requires Safe(s) && s.stopWaiter
    ensures Rank(Run(s, schedule)) <= Rank(s) && Run(s, schedule).stopWaiter && Safe(Run(s, schedule))
    decreases |schedule|
  {
    if schedule != [] {
      SafeStep(s, schedule[0]);
      if Rank(s) > 0 { Progress(s, schedule[0]); } else { DoneStays(s, schedule[0]); }
      NeverRises(Next(s, schedule[0]), schedule[1..]);
    }
  }

  lemma DoneStays(s: State, t: Thread)
    requires Safe(s) && s.stopWaiter && Rank(s) == 0
    ensures Rank(Next(s, t)) == 0 && Next(s, t).stopWaiter
  {
  }

  lemma {:induction false} RoundHelps(s: State, round: seq<Thread>)
    requires Safe(s) && s.stopWaiter && Rank(s) > 0 && Helpful(s) in round
    ensures Rank(Run(s, round)) < Rank(s)
    decreases |round|
  {
    var u := Next(s, round[0]);
    SafeStep(s, round[0]);
    Progress(s, round[0]);
    NeverRises(u, round[1..]);
    if Rank(u) == Rank(s) {
      assert Helpful(s) in round[1..];
      RoundHelps(u, round[1..]);
    }
  }

  function Rounds(s: State, rounds: seq<seq<Thread>>): State
    decreases |rounds|
  {
    if rounds == [] then s else Rounds(Run(s, rounds[0]), rounds[1..])
  }

  /** Shutdown terminates: from any safe state in which exit has begun, as many fair rounds
      as its rank end with both threads gone and exit returned. */
  lemma {:induction false} ShutdownTerminates(s: State, rounds: seq<seq<Thread>>)
    requires Safe(s) && s.stopWaiter
    requires |rounds| >= Rank(s) && forall i :: 0 <= i < |rounds| ==> Fair(rounds[i])
    ensures var t := Rounds(s, rounds); t.leave.XDone? && t.waiter.WExited? && t.notifier.NExited?
    decreases |rounds|
  {
    if rounds != [] {
      NeverRises(s, rounds[0]);
      assert Fair(rounds[0]);
      if Rank(s) > 0 { RoundHelps(s, rounds[0]); }
      ShutdownTerminates(Run(s, rounds[0]), rounds[1..]);
    }
  }

  /** So eighteen fair rounds after the exit began, from every reachable state, suffice. */
  lemma EveryShutdownTerminates(schedule: seq<Thread>, rounds: seq<seq<Thread>>)
    requires Run(Initial(true), schedule).stopWaiter
    requires |rounds| >= 18 && forall i :: 0 <= i < |rounds| ==> Fair(rounds[i])
    ensures Rounds(Run(Initial(true), schedule), rounds).leave.XDone?
  {
    SafeRun(Initial(true), schedule);
    ShutdownTerminates(Run(Initial(true), schedule), rounds);
  }

  // ----- the other order of the stops -----

  /** Nobody is left to raise the flag that the waiter waits for. */
  predicate Hangs(s: State) { s.notifier.NExited? && !s.flag && Waits(s) }

  lemma {:induction false} HangsForEver(s: State, schedule: seq<Thread>)
    requires Hangs(s)
    ensures Hangs(Run(s, schedule))
    decreases |schedule|
  {
    if schedule != [] {
      HangsForEver(Next(s, schedule[0]), schedule[1..]);
    }
  }

  lemma RunCons(s: State, t: Thread, rest: seq<Thread>)
    ensures Run(s, [t] + rest) == Run(Next(s, t), rest)
  {
    assert ([t] + rest)[1..] == rest;
  }

  function WaiterTurns(n: nat): seq<Thread> { if n == 0 then [] else [Waiter] + WaiterTurns(n - 1) }

  /** Steps of the waiter until it exits, once asked to stop and not hanging. */
  function UntilExited(pc: WaiterPc): nat
  {
    match pc
    case WExited => 0
    case WTop => 1
    case WClear => 2
    case WFirst => 3
    case WCheck => 3
    case WPrepare => 4
    case WSchedule => 5
  }

  lemma {:induction false} WaiterLeaves(s: State, n: nat)
    requires s.stopWaiter && !(Waits(s) && !s.flag) && !(s.waiter.WSchedule? && s.asleep)
    requires UntilExited(s.waiter) <= n
    ensures Run(s, WaiterTurns(n)).waiter.WExited?
    decreases n
  {
    if n > 0 {
      RunCons(s, Waiter, WaiterTurns(n - 1));
      WaiterLeaves(WaiterStep(s), n - 1);
    }
  }

  /** Had the notifier been stopped first: once it is gone, the waiter can still exit if and
      only if it does not stand before a lowered flag; otherwise no schedule lets it. */
  lemma OtherOrderExactly(s: State)
    requires !s.waiterFirst && s.leave.XJoinNotifier? && s.notifier.NExited?
    ensures (exists schedule :: Run(s, schedule).waiter.WExited?) <==> !Hangs(s)
  {
    if Hangs(s) {
      forall schedule ensures !Run(s, schedule).waiter.WExited? { HangsForEver(s, schedule); }
    } else {
      var asked := Next(Next(s, Exit), Exit);
      RunCons(s, Exit, [Exit] + WaiterTurns(5));
      RunCons(Next(s, Exit), Exit, WaiterTurns(5));
      WaiterLeaves(asked, 5);
      assert Run(s, [Exit] + ([Exit] + WaiterTurns(5))).waiter.WExited?;
    }
  }

  /** And it can come to that: the waiter begins to wait, the notifier is stopped before it
      raises the flag, and the exit never returns. */
  lemma OtherOrderHangs(opening: seq<Thread>, schedule: seq<Thread>)
    requires opening == [Waiter, Waiter, Exit, Notifier]
    ensures var s := Run(Initial(false), opening);
      && Hangs(s) && s.leave.XJoinNotifier?
      && !Run(s, schedule).leave.XDone?
  {
    var s1 := Next(Initial(false), Waiter);
    var s2 := Next(s1, Waiter);
    var s3 := Next(s2, Exit);
    RunCons(Initial(false), Waiter, [Waiter, Exit, Notifier]);
    RunCons(s1, Waiter, [Exit, Notifier]);
    RunCons(s2, Exit, [Notifier]);
    RunCons(s3, Notifier, []);
    assert opening == [Waiter] + [Waiter, Exit, Notifier];
    NeverDone(Next(s3, Notifier), schedule);
  }

  lemma {:induction false} NeverDone(s: State, schedule: seq<Thread>)
    requires Hangs(s) && !s.waiterFirst && !s.leave.XDone? && !s.leave.XStopNotifier?
    ensures !Run(s, schedule).leave.XDone?
    decreases |schedule|
  {
    if schedule != [] {
      HangsForEver(s, [schedule[0]]);
      NeverDone(Next(s, schedule[0]), schedule[1..]);
    }
  }
}
