/** Any number of clients, the daemon and its two bounded queues, stepped one queue
    operation or one completed handler at a time. */
module MessageQueues {
  import opened Wrappers
  import opened Numerals
  import opened Commands
  import opened FanSpec
  import opened FanRuns

  const CAPACITY := 10

  type ClientId = nat

  datatype Request = Request(client: ClientId, cmd: Command)

  /** A reply message, with the number of the request it answers. */
  datatype Answer = Answer(request: nat, text: string)

  datatype Phase =
    | Sending(cmd: Command)
    | Waiting
    | Finished(received: Option<Answer>)

  /** A reply message a client took from the queue. */
  datatype Delivery = Delivery(client: ClientId, answer: Answer)

  datatype System = System(
    clients: map<ClientId, Phase>,
    incoming: seq<Request>,
    outgoing: seq<Answer>,
    replying: Option<Answer>,      // the daemon is blocked in, or about to do, mq_send
    start: Fan,
    fan: Fan,
    log: seq<Event>,               // history: completed handlers
    sent: seq<Request>,            // history: requests, numbered by position
    handled: seq<nat>,             // history: where in the log each request was handled
    taken: seq<Delivery>)          // history: replies, in the order they were taken

  datatype Action =
    | Arrive(client: ClientId, cmd: Command)
    | Send(client: ClientId)
    | Receive
    | SendReply
    | Take(client: ClientId)
    | Other(event: Event)          // buttons, cache refresh, timers, kernel

  function Initial(start: Fan): System
  {
    System(map[], [], [], None, start, start, [], [], [], [])
  }

  predicate InPhase(s: System, id: ClientId, sending: bool)
  {
    id in s.clients && (if sending then s.clients[id].Sending? else s.clients[id].Waiting?)
  }

  predicate Enabled(s: System, a: Action)
  {
    match a
    case Arrive(id, cmd) => id !in s.clients && !cmd.Unknown?
    case Send(id) => InPhase(s, id, true) && |s.incoming| < CAPACITY
    case Receive => s.replying.None? && !s.fan.stopped && s.incoming != []
    case SendReply => s.replying.Some? && |s.outgoing| < CAPACITY
    case Take(id) => InPhase(s, id, false) && s.outgoing != []
    case Other(event) => !event.Message?
  }

  /** The steps the protocol itself takes, without new clients or outside events. */
  predicate Internal(a: Action) { !a.Arrive? && !a.Other? }

  /** One step. A step that is not enabled changes nothing. */
  function Do(s: System, a: Action): System
  {
    if !Enabled(s, a) then s else
    match a
    case Arrive(id, cmd) => s.(clients := s.clients[id := Sending(cmd)])
    case Send(id) =>
      var cmd := s.clients[id].cmd;
      s.(clients := s.clients[id := if ExpectsReply(cmd) then Waiting else Finished(None)],
         incoming := s.incoming + [Request(id, cmd)],
         sent := s.sent + [Request(id, cmd)])
    case Receive => Process(s)
    case SendReply => s.(outgoing := s.outgoing + [s.replying.value], replying := None)
    case Take(id) =>
      s.(clients := s.clients[id := Finished(Some(s.outgoing[0]))],
         outgoing := s.outgoing[1..],
         taken := s.taken + [Delivery(id, s.outgoing[0])])
    case Other(event) => s.(fan := Handle(s.fan, event), log := s.log + [event])
  }

  /** The daemon handles the oldest request, up to the point of sending its reply. */
  function Process(s: System): System
    requires s.incoming != []
  {
    var cmd := s.incoming[0].cmd;
    var reply := Reply(s.fan, cmd);
    s.(incoming := s.incoming[1..],
       replying := if reply.Some? then Some(Answer(|s.handled|, reply.value)) else None,
       fan := Handle(s.fan, Message(cmd)),
       log := s.log + [Message(cmd)],
       handled := s.handled + [|s.log|])
  }

  function Play(s: System, actions: seq<Action>): System
  {
    if actions == [] then s
    else Do(Play(s, actions[..|actions| - 1]), actions[|actions| - 1])
  }

  // ----- conservation -----

  function WaitingClients(s: System): set<ClientId>
  {
    set id | id in s.clients && s.clients[id].Waiting?
  }

  function SendingClients(s: System): set<ClientId>
  {
    set id | id in s.clients && s.clients[id].Sending?
  }

  /** The requests in a queue that will be answered. */
  function Expecting(q: seq<Request>): (n: nat)
    ensures n <= |q|
  {
    if q == [] then 0 else (if ExpectsReply(q[0].cmd) then 1 else 0) + Expecting(q[1..])
  }

  lemma {:induction false} ExpectingAppend(q: seq<Request>, r: Request)
    ensures Expecting(q + [r]) == Expecting(q) + if ExpectsReply(r.cmd) then 1 else 0
  {
    if q == [] {
      assert (q + [r])[1..] == [];
    } else {
      assert (q + [r])[1..] == q[1..] + [r];
      ExpectingAppend(q[1..], r);
    }
  }

  function Pending(s: System): nat
  {
    |s.outgoing| + (if s.replying.Some? then 1 else 0) + Expecting(s.incoming)
  }

  predicate Conserved(s: System)
  {
    && |WaitingClients(s)| == Pending(s)
    && |s.incoming| <= CAPACITY && |s.outgoing| <= CAPACITY
  }

  lemma SendConserves(s: System, id: ClientId)
    requires Conserved(s) && Enabled(s, Send(id))
    ensures Conserved(Do(s, Send(id)))
  {
    var t := Do(s, Send(id));
    ExpectingAppend(s.incoming, Request(id, s.clients[id].cmd));
    assert WaitingClients(t) == WaitingClients(s) + if t.clients[id].Waiting? then {id} else {};
  }

  lemma TakeConserves(s: System, id: ClientId)
    requires Conserved(s) && Enabled(s, Take(id))
    ensures Conserved(Do(s, Take(id)))
  {
    assert WaitingClients(Do(s, Take(id))) == WaitingClients(s) - {id};
  }

  lemma ConservationStep(s: System, a: Action)
    requires Conserved(s)
    ensures Conserved(Do(s, a))
  {
    if Enabled(s, a) {
      match a
      case Send(id) => SendConserves(s, id);
      case Take(id) => TakeConserves(s, id);
      case _ => assert WaitingClients(Do(s, a)) == WaitingClients(s);
    }
  }

  /** In every run, as many clients wait as replies and answerable requests are on their way. */
  lemma {:induction false} Conservation(start: Fan, actions: seq<Action>)
    ensures Conserved(Play(Initial(start), actions))
  {
    if actions != [] {
      Conservation(start, actions[..|actions| - 1]);
      ConservationStep(Play(Initial(start), actions[..|actions| - 1]), actions[|actions| - 1]);
    } else {
      assert WaitingClients(Initial(start)) == {};
    }
  }

  // ----- deadlock freedom and completion -----

  predicate Settled(s: System)
  {
    WaitingClients(s) == {} && SendingClients(s) == {} && s.incoming == [] && s.replying.None?
  }

  ghost predicate Stuck(s: System)
  {
    forall a :: Internal(a) ==> !Enabled(s, a)
  }

  /** While anything is outstanding and the daemon was not told to stop, some step is enabled. */
  lemma NoDeadlock(s: System)
    requires Conserved(s) && !s.fan.stopped
    ensures Stuck(s) <==> Settled(s)
  {
    if Stuck(s) {
      StuckMeansEmpty(s);
      assert |WaitingClients(s)| == 0;
      forall id | id in s.clients ensures !s.clients[id].Sending? {
        assert !Enabled(s, Send(id));
      }
    }
    if Settled(s) {
      assert s.outgoing == [];
      forall a | Internal(a) ensures !Enabled(s, a) {
        match a
        case Send(id) => assert id !in SendingClients(s);
        case Take(id) => assert id !in WaitingClients(s);
        case _ =>
      }
    }
  }

  lemma StuckMeansEmpty(s: System)
    requires Conserved(s) && Stuck(s)
    ensures s.outgoing == [] && s.replying.None? && (s.incoming == [] || s.fan.stopped)
  {
    if s.outgoing != [] {
      var id :| id in WaitingClients(s);
      assert Enabled(s, Take(id));
    }
    assert !Enabled(s, SendReply);
    assert !Enabled(s, Receive);
  }

  /** Work left: four units per unsent request, three per queued one, two for the reply
      being sent, one per queued reply. */
  function Work(s: System): nat
  {
    4 * |SendingClients(s)| + 3 * |s.incoming| + (if s.replying.Some? then 2 else 0) + |s.outgoing|
  }

  /** Only a send takes a client out of those with a request to send. */
  lemma SendingStep(s: System, a: Action)
    requires Enabled(s, a) && !a.Arrive?
    ensures SendingClients(Do(s, a)) == SendingClients(s) - if a.Send? then {a.client} else {}
  {
  }

  lemma WorkStep(s: System, a: Action)
    requires Enabled(s, a) && !a.Arrive?
    ensures if a.Other? then Work(Do(s, a)) == Work(s) else Work(Do(s, a)) < Work(s)
  {
    SendingStep(s, a);
    assert a.Send? ==> a.client in SendingClients(s);
  }

  function InternalSteps(actions: seq<Action>): nat
  {
    if actions == [] then 0
    else InternalSteps(actions[..|actions| - 1]) + if Internal(actions[|actions| - 1]) then 1 else 0
  }

  /** Without new clients, whatever happens outside, the protocol has at most Work steps to take. */
  lemma {:induction false} BoundedWork(s: System, actions: seq<Action>)
    requires forall i :: 0 <= i < |actions| ==> !actions[i].Arrive? && Enabled(Play(s, actions[..i]), actions[i])
    ensures InternalSteps(actions) + Work(Play(s, actions)) <= Work(s)
  {
    if actions != [] {
      var before, last := actions[..|actions| - 1], actions[|actions| - 1];
      assert forall i :: 0 <= i < |before| ==> before[..i] == actions[..i] && before[i] == actions[i];
      BoundedWork(s, before);
      assert Enabled(Play(s, before), last);
      WorkStep(Play(s, before), last);
    }
  }

  predicate NeverStops(s: System)
  {
    && !s.fan.stopped
    && (forall i :: 0 <= i < |s.incoming| ==> s.incoming[i].cmd != Stop)
    && (forall id :: id in s.clients && s.clients[id].Sending? ==> s.clients[id].cmd != Stop)
  }

  lemma NeverStopsStep(s: System, a: Action)
    requires NeverStops(s) && !(a.Arrive? && a.cmd == Stop)
    ensures NeverStops(Do(s, a))
  {
  }

  lemma {:induction false} NoStopSent(start: Fan, actions: seq<Action>)
    requires !start.stopped && forall i :: 0 <= i < |actions| && actions[i].Arrive? ==> actions[i].cmd != Stop
    ensures NeverStops(Play(Initial(start), actions))
  {
    if actions != [] {
      NoStopSent(start, actions[..|actions| - 1]);
      NeverStopsStep(Play(Initial(start), actions[..|actions| - 1]), actions[|actions| - 1]);
    }
  }

  /** In every run without a stop command, the protocol can step exactly until no client
      waits, none has a request to send and none is queued. */
  lemma DeadlockFreedom(start: Fan, actions: seq<Action>)
    requires !start.stopped && forall i :: 0 <= i < |actions| && actions[i].Arrive? ==> actions[i].cmd != Stop
    ensures var s := Play(Initial(start), actions); Stuck(s) <==> Settled(s)
  {
    Conservation(start, actions);
    NoStopSent(start, actions);
    NoDeadlock(Play(Initial(start), actions));
  }

  lemma PlayStep(s: System, actions: seq<Action>, a: Action)
    ensures Play(s, actions + [a]) == Do(Play(s, actions), a)
  {
    assert (actions + [a])[..|actions|] == actions;
  }

  lemma {:induction false} PlayConcat(s: System, xs: seq<Action>, ys: seq<Action>)
    ensures Play(s, xs + ys) == Play(Play(s, xs), ys)
    decreases |ys|
  {
    if ys == [] {
      assert xs + ys == xs;
    } else {
      assert (xs + ys)[..|xs + ys| - 1] == xs + ys[..|ys| - 1];
      PlayConcat(s, xs, ys[..|ys| - 1]);
    }
  }

  lemma {:induction false} AllInternal(actions: seq<Action>)
    requires forall i :: 0 <= i < |actions| ==> Internal(actions[i])
    ensures InternalSteps(actions) == |actions|
  {
    if actions != [] { AllInternal(actions[..|actions| - 1]); }
  }

  /** Completion: after any run without a stop command, let the protocol take its own steps
      in any order. It takes at most Work of them, and it comes to a halt exactly when every
      client is served. */
  lemma Completion(start: Fan, run: seq<Action>, steps: seq<Action>)
    requires !start.stopped && forall i :: 0 <= i < |run| && run[i].Arrive? ==> run[i].cmd != Stop
    requires var s := Play(Initial(start), run);
      forall i :: 0 <= i < |steps| ==> Internal(steps[i]) && Enabled(Play(s, steps[..i]), steps[i])
    ensures var s := Play(Initial(start), run);
      |steps| <= Work(s) && (Stuck(Play(s, steps)) <==> Settled(Play(s, steps)))
  {
    BoundedWork(Play(Initial(start), run), steps);
    AllInternal(steps);
    PlayConcat(Initial(start), run, steps);
    DeadlockFreedom(start, run + steps);
  }

  // ----- order and honesty of the answers -----

  /** Requests are handled in the order they were sent, each where the log says. */
  ghost predicate InOrder(s: System)
  {
    && |s.handled| <= |s.sent| && s.incoming == s.sent[|s.handled|..]
    && (forall i, j :: 0 <= i < j < |s.handled| ==> s.handled[i] < s.handled[j])
    && (forall i :: 0 <= i < |s.handled| ==>
          s.handled[i] < |s.log| && s.log[s.handled[i]] == Message(s.sent[i].cmd))
    && (forall p :: 0 <= p < |s.log| && s.log[p].Message? ==> p in s.handled)
  }

  lemma ReceiveInOrder(s: System)
    requires InOrder(s) && Enabled(s, Receive)
    ensures InOrder(Do(s, Receive))
  {
    var t := Do(s, Receive);
    assert t.handled[|s.handled|] == |s.log| && t.log[|s.log|] == Message(s.sent[|s.handled|].cmd);
    assert forall p :: p in s.handled ==> p in t.handled;
  }

  lemma InOrderStep(s: System, a: Action)
    requires InOrder(s)
    ensures InOrder(Do(s, a))
  {
    if a.Receive? {
      if Enabled(s, a) { ReceiveInOrder(s); }
    } else if a.Other? {
      assert Do(s, a).log[..|s.log|] == s.log;
    }
  }

  /** The answer is the daemon's reply, in the state it was in, to the request it names. */
  predicate Honest(s: System, a: Answer)
  {
    && a.request < |s.handled| && a.request < |s.sent| && s.handled[a.request] <= |s.log|
    && Reply(Run(s.start, s.log[..s.handled[a.request]]), s.sent[a.request].cmd) == Some(a.text)
  }

  ghost predicate Known(s: System, a: Answer)
  {
    || a in s.outgoing
    || s.replying == Some(a)
    || exists id :: id in s.clients && s.clients[id] == Finished(Some(a))
  }

  predicate Extends(s: System, t: System)
  {
    s.start == t.start && s.handled <= t.handled && s.sent <= t.sent && s.log <= t.log
  }

  lemma HonestPersists(s: System, t: System, a: Answer)
    requires Extends(s, t) && Honest(s, a)
    ensures Honest(t, a)
  {
    assert t.log[..s.handled[a.request]] == s.log[..s.handled[a.request]];
  }

  ghost predicate AllHonest(s: System)
  {
    && s.fan == Run(s.start, s.log)
    && forall a :: Known(s, a) ==> Honest(s, a)
  }

  lemma FanFollowsLog(s: System, a: Action)
    requires s.fan == Run(s.start, s.log)
    ensures Do(s, a).fan == Run(s.start, Do(s, a).log) && Extends(s, Do(s, a))
  {
    if Enabled(s, a) {
      match a
      case Receive => RunStep(s.start, s.log, Message(s.incoming[0].cmd));
      case Other(event) => RunStep(s.start, s.log, event);
      case _ =>
    }
  }

  lemma NewAnswer(s: System, answer: Answer)
    requires InOrder(s) && s.fan == Run(s.start, s.log)
    requires Enabled(s, Receive) && Process(s).replying == Some(answer)
    ensures Honest(Process(s), answer)
  {
    assert s.sent[|s.handled|] == s.incoming[0];
    assert Process(s).log[..|s.log|] == s.log;
  }

  lemma KnownBefore(s: System, a: Action, answer: Answer)
    requires Known(Do(s, a), answer)
    ensures Known(s, answer) || (a == Receive && Enabled(s, a) && Process(s).replying == Some(answer))
  {
  }

  lemma AllHonestStep(s: System, a: Action)
    requires InOrder(s) && AllHonest(s)
    ensures AllHonest(Do(s, a))
  {
    var t := Do(s, a);
    FanFollowsLog(s, a);
    forall answer | Known(t, answer) ensures Honest(t, answer) {
      KnownBefore(s, a, answer);
      if Known(s, answer) { HonestPersists(s, t, answer); } else { NewAnswer(s, answer); }
    }
  }

  lemma {:induction false} AnswersAreHonest(start: Fan, actions: seq<Action>)
    ensures InOrder(Play(Initial(start), actions)) && AllHonest(Play(Initial(start), actions))
  {
    if actions != [] {
      AnswersAreHonest(start, actions[..|actions| - 1]);
      InOrderStep(Play(Initial(start), actions[..|actions| - 1]), actions[|actions| - 1]);
      AllHonestStep(Play(Initial(start), actions[..|actions| - 1]), actions[|actions| - 1]);
    }
  }

  /** Whatever the clients do and however late the daemon is: the answer to a get-mode
      reads as the last mode sent before it, unless K3 was pressed in between. */
  lemma GetModeReadsLastSetMode(start: Fan, actions: seq<Action>, a: Answer, j: nat, v: int)
    requires var s := Play(Initial(start), actions);
      && Known(s, a)
      && j < a.request < |s.sent| && a.request < |s.handled|
      && s.sent[a.request].cmd == GetMode
      && s.sent[j].cmd == SetMode(v) && 0 <= v <= 1
      && (forall i :: j < i < a.request ==> !s.sent[i].cmd.SetMode?)
      && (forall p :: 0 <= p < |s.log| && s.handled[j] < p < s.handled[a.request] ==> s.log[p] != Key3(true))
    ensures ScanInt(a.text) == Some(v)
  {
    var s := Play(Initial(start), actions);
    AnswersAreHonest(start, actions);
    OnlyGetsBetween(s, a, j);
    StartUnchanged(Initial(start), actions);
    ReadYourWrites(start, s.log[..s.handled[a.request]], s.handled[j], v);
  }

  /** Between the two requests the log holds no mode command. */
  lemma OnlyGetsBetween(s: System, a: Answer, j: nat)
    requires InOrder(s) && j < a.request < |s.handled|
    requires forall i :: j < i < a.request ==> !s.sent[i].cmd.SetMode?
    requires forall p :: 0 <= p < |s.log| && s.handled[j] < p < s.handled[a.request] ==> s.log[p] != Key3(true)
    ensures forall p :: s.handled[j] < p < s.handled[a.request] ==> !IsModeCommand(s.log[p])
  {
    forall p | s.handled[j] < p < s.handled[a.request] ensures !IsModeCommand(s.log[p]) {
      if s.log[p].Message? {
        var i :| 0 <= i < |s.handled| && s.handled[i] == p;
        assert j < i < a.request;
      }
    }
  }

  lemma {:induction false} StartUnchanged(s: System, actions: seq<Action>)
    ensures Play(s, actions).start == s.start
  {
    if actions != [] { StartUnchanged(s, actions[..|actions| - 1]); }
  }

  // ----- whose answer a client receives -----

  /** The numbers of the requests that get an answer, in ascending order. */
  function Answerable(sent: seq<Request>): (numbers: seq<nat>)
    ensures |numbers| <= |sent|
    ensures forall k :: 0 <= k < |numbers| ==> numbers[k] < |sent| && ExpectsReply(sent[numbers[k]].cmd)
    ensures forall j, k :: 0 <= j < k < |numbers| ==> numbers[j] < numbers[k]
  {
    if sent == [] then []
    else Answerable(sent[..|sent| - 1]) + if ExpectsReply(sent[|sent| - 1].cmd) then [|sent| - 1] else []
  }

  lemma {:induction false} AnswerablePrefix(sent: seq<Request>, n: nat)
    requires n <= |sent|
    ensures Answerable(sent[..n]) <= Answerable(sent)
    decreases |sent|
  {
    if n == |sent| {
      assert sent[..n] == sent;
    } else {
      assert sent[..|sent| - 1][..n] == sent[..n];
      AnswerablePrefix(sent[..|sent| - 1], n);
    }
  }

  /** Every answer given so far, oldest first: taken, queued, being sent. */
  function Answers(s: System): seq<Answer>
  {
    seq(|s.taken|, k requires 0 <= k < |s.taken| => s.taken[k].answer)
    + s.outgoing + if s.replying.Some? then [s.replying.value] else []
  }

  function Numbers(answers: seq<Answer>): seq<nat>
  {
    seq(|answers|, k requires 0 <= k < |answers| => answers[k].request)
  }

  /** The answers belong, in order, to the answerable requests handled so far. */
  predicate InSequence(s: System)
  {
    |s.handled| <= |s.sent| && Numbers(Answers(s)) == Answerable(s.sent[..|s.handled|])
  }

  lemma ReceiveInSequence(s: System)
    requires InOrder(s) && InSequence(s) && Enabled(s, Receive)
    ensures InSequence(Do(s, Receive))
  {
    var t, n := Do(s, Receive), |s.handled|;
    assert s.sent[..n + 1][..n] == s.sent[..n] && s.sent[n] == s.incoming[0];
    assert Answers(t) == Answers(s) + if t.replying.Some? then [t.replying.value] else [];
    assert Numbers(Answers(t)) == Numbers(Answers(s)) + if t.replying.Some? then [n] else [];
  }

  lemma InSequenceStep(s: System, a: Action)
    requires InOrder(s) && InSequence(s)
    ensures InSequence(Do(s, a))
  {
    var t := Do(s, a);
    if Enabled(s, a) {
      match a
      case Receive => ReceiveInSequence(s);
      case Send(_) => assert t.sent[..|t.handled|] == s.sent[..|s.handled|];
      case SendReply => assert Answers(t) == Answers(s);
      case Take(_) => assert Answers(t) == Answers(s);
      case _ =>
    }
  }

  lemma {:induction false} AlwaysInSequence(start: Fan, actions: seq<Action>)
    ensures InSequence(Play(Initial(start), actions))
  {
    if actions != [] {
      var before := actions[..|actions| - 1];
      AlwaysInSequence(start, before);
      AnswersAreHonest(start, before);
      InSequenceStep(Play(Initial(start), before), actions[|actions| - 1]);
    }
  }

  /** First come, first served: in every run the k-th reply taken, by whomever, answers the
      k-th answerable request sent. */
  lemma RepliesInSendingOrder(start: Fan, actions: seq<Action>, k: nat)
    requires k < |Play(Initial(start), actions).taken|
    ensures var s := Play(Initial(start), actions);
      k < |Answerable(s.sent)| && s.taken[k].answer.request == Answerable(s.sent)[k]
  {
    var s := Play(Initial(start), actions);
    AlwaysInSequence(start, actions);
    AnswerablePrefix(s.sent, |s.handled|);
    assert Answers(s)[k] == s.taken[k].answer;
    assert Numbers(Answers(s))[k] == s.taken[k].answer.request;
  }

  function Owner(s: System, a: Answer): (id: ClientId)
    requires a.request < |s.sent|
  {
    s.sent[a.request].client
  }

  /** The k-th reply taken answers its receiver's own request. */
  predicate OwnReply(s: System, k: nat)
    requires k < |s.taken|
  {
    s.taken[k].answer.request < |s.sent| && Owner(s, s.taken[k].answer) == s.taken[k].client
  }

  /** Hence the client of the k-th take receives its own answer if and only if it sent the
      k-th answerable request. */
  lemma OwnReplyExactly(start: Fan, actions: seq<Action>, k: nat)
    requires k < |Play(Initial(start), actions).taken|
    ensures var s := Play(Initial(start), actions);
      k < |Answerable(s.sent)|
      && (OwnReply(s, k) <==> s.sent[Answerable(s.sent)[k]].client == s.taken[k].client)
  {
    RepliesInSendingOrder(start, actions, k);
  }

  /** The same as a condition before the step: a client about to take a reply gets its own
      if and only if its request is the next answerable one in the order of sending. */
  lemma NextTakeExactly(start: Fan, actions: seq<Action>, id: ClientId)
    requires Enabled(Play(Initial(start), actions), Take(id))
    ensures var s := Play(Initial(start), actions);
      var t := Do(s, Take(id));
      |s.taken| < |Answerable(s.sent)|
      && (OwnReply(t, |s.taken|) <==> s.sent[Answerable(s.sent)[|s.taken|]].client == id)
  {
    PlayStep(Initial(start), actions, Take(id));
    OwnReplyExactly(start, actions + [Take(id)], |Play(Initial(start), actions).taken|);
  }

  /** Each client sends at most one request; an answerable one leaves it waiting until it
      takes a reply, and that reply is what it holds then. */
  ghost predicate Accounted(s: System)
  {
    && (forall i, j :: 0 <= i < j < |s.sent| ==> s.sent[i].client != s.sent[j].client)
    && (forall i :: 0 <= i < |s.sent| ==> s.sent[i].client in s.clients && !s.clients[s.sent[i].client].Sending?)
    && (forall i :: 0 <= i < |s.sent| && ExpectsReply(s.sent[i].cmd) && s.clients[s.sent[i].client].Finished? ==>
          exists k :: 0 <= k < |s.taken| && s.taken[k].client == s.sent[i].client)
    && (forall id :: id in s.clients && s.clients[id].Finished? && s.clients[id].received.Some? ==>
          exists k :: 0 <= k < |s.taken| && s.taken[k] == Delivery(id, s.clients[id].received.value))
  }

  lemma SendAccounted(s: System, id: ClientId)
    requires Accounted(s) && Enabled(s, Send(id))
    ensures Accounted(Do(s, Send(id)))
  {
  }

  lemma TakeAccounted(s: System, id: ClientId)
    requires Accounted(s) && Enabled(s, Take(id))
    ensures Accounted(Do(s, Take(id)))
  {
    var t := Do(s, Take(id));
    assert t.taken[|s.taken|] == Delivery(id, s.outgoing[0]);
    assert forall k :: 0 <= k < |s.taken| ==> t.taken[k] == s.taken[k];
  }

  lemma {:induction false} AlwaysAccounted(start: Fan, actions: seq<Action>)
    ensures Accounted(Play(Initial(start), actions))
  {
    if actions != [] {
      var s := Play(Initial(start), actions[..|actions| - 1]);
      AlwaysAccounted(start, actions[..|actions| - 1]);
      match actions[|actions| - 1]
      case Send(id) => if Enabled(s, Send(id)) { SendAccounted(s, id); }
      case Take(id) => if Enabled(s, Take(id)) { TakeAccounted(s, id); }
      case _ =>
    }
  }

  /** A client only starts when no other one is active. */
  predicate OneAtATime(s: System, actions: seq<Action>)
  {
    forall i :: 0 <= i < |actions| && actions[i].Arrive? ==>
      var before := Play(s, actions[..i]);
      WaitingClients(before) == {} && SendingClients(before) == {}
  }

  predicate OneActive(s: System)
  {
    forall x, y :: x in s.clients && y in s.clients && !s.clients[x].Finished? && !s.clients[y].Finished? ==> x == y
  }

  lemma OneActiveStep(s: System, a: Action)
    requires OneActive(s) && (a.Arrive? ==> WaitingClients(s) == {} && SendingClients(s) == {})
    ensures OneActive(Do(s, a))
  {
    if a.Arrive? {
      assert forall x :: x in s.clients && !s.clients[x].Finished? ==> x in WaitingClients(s) + SendingClients(s);
    }
  }

  lemma {:induction false} AlwaysOneActive(start: Fan, actions: seq<Action>)
    requires OneAtATime(Initial(start), actions)
    ensures OneActive(Play(Initial(start), actions))
  {
    if actions != [] {
      var before := actions[..|actions| - 1];
      assert forall i :: 0 <= i < |before| ==> before[..i] == actions[..i] && before[i] == actions[i];
      AlwaysOneActive(start, before);
      OneActiveStep(Play(Initial(start), before), actions[|actions| - 1]);
    }
  }

  /** With one active client, whose predecessors all got their own reply, the next
      answerable request in the order of sending is its own. */
  lemma OnlyClientIsNext(s: System, id: ClientId)
    requires OneActive(s) && Accounted(s) && InPhase(s, id, false) && |s.taken| < |Answerable(s.sent)|
    requires forall k :: 0 <= k < |s.taken| ==> OwnReply(s, k) && s.taken[k].answer.request == Answerable(s.sent)[k]
    ensures s.sent[Answerable(s.sent)[|s.taken|]].client == id
  {
    var next := Answerable(s.sent)[|s.taken|];
    var c := s.sent[next].client;
    forall k | 0 <= k < |s.taken| ensures s.taken[k].client != c {
      assert OwnReply(s, k);
      assert Answerable(s.sent)[k] < next;
    }
    assert !s.clients[c].Finished?;
  }

  predicate AllOwnReplies(s: System)
  {
    forall k :: 0 <= k < |s.taken| ==> OwnReply(s, k)
  }

  lemma OwnRepliesStay(s: System, a: Action)
    requires AllOwnReplies(s)
    requires var t := Do(s, a); |t.taken| > |s.taken| ==> OwnReply(t, |s.taken|)
    ensures AllOwnReplies(Do(s, a))
  {
    var t := Do(s, a);
    forall k | 0 <= k < |t.taken| ensures OwnReply(t, k) {
      if k < |s.taken| { assert OwnReply(s, k); }
    }
  }

  /** So whoever takes a reply in such a run gets its own. */
  lemma TakesOwnReply(start: Fan, actions: seq<Action>, id: ClientId)
    requires OneAtATime(Initial(start), actions) && AllOwnReplies(Play(Initial(start), actions))
    requires Enabled(Play(Initial(start), actions), Take(id))
    ensures var s := Play(Initial(start), actions); OwnReply(Do(s, Take(id)), |s.taken|)
  {
    var s := Play(Initial(start), actions);
    AlwaysOneActive(start, actions);
    AlwaysAccounted(start, actions);
    forall k | 0 <= k < |s.taken|
      ensures k < |Answerable(s.sent)| && s.taken[k].answer.request == Answerable(s.sent)[k] && OwnReply(s, k)
    {
      RepliesInSendingOrder(start, actions, k);
    }
    NextTakeExactly(start, actions, id);
    OnlyClientIsNext(s, id);
  }

  /** When clients run one after another, every reply a client receives answers its own request. */
  lemma {:induction false} RepliesMatch(start: Fan, actions: seq<Action>)
    requires OneAtATime(Initial(start), actions)
    ensures AllOwnReplies(Play(Initial(start), actions))
    decreases |actions|
  {
    if actions != [] {
      var before, last := actions[..|actions| - 1], actions[|actions| - 1];
      assert forall i :: 0 <= i < |before| ==> before[..i] == actions[..i] && before[i] == actions[i];
      RepliesMatch(start, before);
      if last.Take? && Enabled(Play(Initial(start), before), last) {
        TakesOwnReply(start, before, last.client);
      }
      OwnRepliesStay(Play(Initial(start), before), last);
    }
  }

  /** What a client holds at the end of such a run is the answer to its own request. */
  lemma ReceivedIsOwn(start: Fan, actions: seq<Action>, id: ClientId)
    requires OneAtATime(Initial(start), actions)
    requires var s := Play(Initial(start), actions);
      id in s.clients && s.clients[id].Finished? && s.clients[id].received.Some?
    ensures var s := Play(Initial(start), actions);
      var a := s.clients[id].received.value;
      a.request < |s.sent| && Owner(s, a) == id
  {
    var s := Play(Initial(start), actions);
    AlwaysAccounted(start, actions);
    RepliesMatch(start, actions);
    var k :| 0 <= k < |s.taken| && s.taken[k] == Delivery(id, s.clients[id].received.value);
    assert OwnReply(s, k);
  }

  /** With two clients at once, the later one can receive the earlier one's answer. */
  lemma ConcurrentRepliesCross(start: Fan, both: seq<Action>)
    requires !start.stopped && both == [Arrive(0, GetFreq), Arrive(1, GetMode), Send(0), Send(1)]
    ensures var s := Play(Initial(start), both + [Receive] + [SendReply] + [Take(1)]);
      s.taken != [] && s.taken[0].client == 1 && !OwnReply(s, 0)
  {
    BothSent(start, both);
    PlayStep(Initial(start), both, Receive);
    PlayStep(Initial(start), both + [Receive], SendReply);
    PlayStep(Initial(start), both + [Receive] + [SendReply], Take(1));
    NextTakeExactly(start, both + [Receive] + [SendReply], 1);
    var sent := [Request(0, GetFreq), Request(1, GetMode)];
    assert sent[..1] == [sent[0]] && sent[..1][..0] == [];
  }

  lemma BothSent(start: Fan, both: seq<Action>)
    requires both == [Arrive(0, GetFreq), Arrive(1, GetMode), Send(0), Send(1)]
    ensures Play(Initial(start), both) == Initial(start).(
      clients := map[0 := Waiting, 1 := Waiting],
      incoming := [Request(0, GetFreq), Request(1, GetMode)],
      sent := [Request(0, GetFreq), Request(1, GetMode)])
  {
    PlayStep(Initial(start), [], both[0]);
    PlayStep(Initial(start), both[..1], both[1]);
    PlayStep(Initial(start), both[..2], both[2]);
    PlayStep(Initial(start), both[..3], both[3]);
    assert [] + [both[0]] == both[..1] && both[..1] + [both[1]] == both[..2];
    assert both[..2] + [both[2]] == both[..3] && both[..3] + [both[3]] == both;
  }

  // ----- after a stop -----

  /** What was sent behind the first stop command. */
  function AfterStop(sent: seq<Request>): seq<Request>
    decreases |sent|
  {
    if sent == [] then []
    else if sent[0].cmd == Stop then sent[1..]
    else AfterStop(sent[1..])
  }

  lemma {:induction false} AfterStopSplits(sent: seq<Request>, n: nat)
    requires n <= |sent|
    requires forall i :: 0 <= i < n - 1 ==> sent[i].cmd != Stop
    ensures n > 0 && sent[n - 1].cmd == Stop ==> AfterStop(sent) == sent[n..]
    ensures n == |sent| && !(n > 0 && sent[n - 1].cmd == Stop) ==> AfterStop(sent) == []
    decreases |sent|
  {
    if n > 1 || (n == 1 && sent[0].cmd != Stop) {
      AfterStopSplits(sent[1..], n - 1);
    }
  }

  /** The daemon has stopped exactly when the last request it handled was the first stop. */
  predicate StopsOnce(s: System)
  {
    && |s.handled| <= |s.sent|
    && (forall i :: 0 <= i < |s.handled| - 1 ==> s.sent[i].cmd != Stop)
    && (s.fan.stopped <==> s.handled != [] && s.sent[|s.handled| - 1].cmd == Stop)
  }

  lemma StoppedStep(s: Fan, e: Event)
    ensures Handle(s, e).stopped <==> s.stopped || e == Message(Stop)
  {
  }

  lemma StopsOnceStep(s: System, a: Action)
    requires InOrder(s) && StopsOnce(s)
    ensures StopsOnce(Do(s, a))
  {
    if Enabled(s, a) {
      match a
      case Receive =>
        assert s.sent[|s.handled|] == s.incoming[0];
        StoppedStep(s.fan, Message(s.incoming[0].cmd));
      case Other(event) => StoppedStep(s.fan, event);
      case _ =>
    }
  }

  lemma {:induction false} AlwaysStopsOnce(start: Fan, actions: seq<Action>)
    requires !start.stopped
    ensures StopsOnce(Play(Initial(start), actions))
  {
    if actions != [] {
      var before := actions[..|actions| - 1];
      AlwaysStopsOnce(start, before);
      AnswersAreHonest(start, before);
      StopsOnceStep(Play(Initial(start), before), actions[|actions| - 1]);
    }
  }

  /** Every client has sent its request or still has to. */
  predicate Counted(s: System)
  {
    |SendingClients(s)| + |s.sent| == |s.clients|
  }

  lemma CountedStep(s: System, a: Action)
    requires Counted(s)
    ensures Counted(Do(s, a))
  {
    if Enabled(s, a) {
      if a.Arrive? {
        assert SendingClients(Do(s, a)) == SendingClients(s) + {a.client};
      } else {
        SendingStep(s, a);
        assert a.Send? ==> a.client in SendingClients(s);
      }
    }
  }

  lemma {:induction false} AlwaysCounted(start: Fan, actions: seq<Action>)
    ensures Counted(Play(Initial(start), actions))
  {
    if actions == [] {
      assert SendingClients(Initial(start)) == {};
    } else {
      AlwaysCounted(start, actions[..|actions| - 1]);
      CountedStep(Play(Initial(start), actions[..|actions| - 1]), actions[|actions| - 1]);
    }
  }

  lemma StuckSenders(s: System)
    requires Stuck(s) && SendingClients(s) != {}
    ensures |s.incoming| >= CAPACITY
  {
    var id :| id in SendingClients(s);
    assert !Enabled(s, Send(id));
  }

  /** Exactly whom a stop strands: in every run that cannot go on, as many clients wait for a
      reply as answerable requests were sent behind the first stop, and as many are blocked
      in sending as neither the handled requests nor the full queue make up for. */
  lemma StrandedClients(start: Fan, actions: seq<Action>)
    requires !start.stopped && Stuck(Play(Initial(start), actions))
    ensures var s := Play(Initial(start), actions);
      && |WaitingClients(s)| == Expecting(AfterStop(s.sent))
      && |SendingClients(s)| == Excess(|s.clients|, |s.handled| + CAPACITY)
  {
    var s := Play(Initial(start), actions);
    Conservation(start, actions);
    AnswersAreHonest(start, actions);
    AlwaysStopsOnce(start, actions);
    AlwaysCounted(start, actions);
    StuckMeansEmpty(s);
    AfterStopSplits(s.sent, |s.handled|);
    if SendingClients(s) != {} { StuckSenders(s); }
  }

  /** By how much n is above a bound. */
  function Excess(n: nat, bound: nat): nat { if n > bound then n - bound else 0 }

  predicate AllFinished(s: System)
  {
    forall id :: id in s.clients ==> s.clients[id].Finished?
  }

  /** So everybody is served if and only if no answerable request stands behind a stop and
      the clients beyond the handled requests fit in the queue. */
  lemma NobodyStrandedExactly(start: Fan, actions: seq<Action>)
    requires !start.stopped && Stuck(Play(Initial(start), actions))
    ensures var s := Play(Initial(start), actions);
      AllFinished(s)
      <==> (forall i, j :: 0 <= i < j < |s.sent| && s.sent[i].cmd == Stop ==> !ExpectsReply(s.sent[j].cmd))
           && |s.clients| <= |s.handled| + CAPACITY
  {
    var s := Play(Initial(start), actions);
    StrandedClients(start, actions);
    NoneBehindStop(s.sent);
    assert WaitingClients(s) == {} <==> |WaitingClients(s)| == 0;
    assert SendingClients(s) == {} <==> |SendingClients(s)| == 0;
    FinishedOrActive(s);
  }

  lemma FinishedOrActive(s: System)
    ensures AllFinished(s) <==> WaitingClients(s) == {} && SendingClients(s) == {}
  {
    if WaitingClients(s) == {} && SendingClients(s) == {} {
      forall id | id in s.clients ensures s.clients[id].Finished? {
        assert id !in WaitingClients(s) && id !in SendingClients(s);
      }
    }
  }

  /** The daemon has stopped and has no reply left to give. */
  predicate GoneSilent(s: System)
  {
    s.fan.stopped && s.outgoing == [] && s.replying.None?
  }

  /** Nothing can follow that would serve them: who waits goes on waiting, and behind a full
      queue who sends goes on sending. */
  lemma {:induction false} StrandedForEver(s: System, actions: seq<Action>)
    requires GoneSilent(s)
    ensures var t := Play(s, actions);
      && GoneSilent(t) && |s.incoming| <= |t.incoming|
      && WaitingClients(s) <= WaitingClients(t)
      && (|s.incoming| >= CAPACITY ==> SendingClients(s) <= SendingClients(t))
  {
    if actions != [] {
      StrandedForEver(s, actions[..|actions| - 1]);
      StrandedStep(Play(s, actions[..|actions| - 1]), actions[|actions| - 1]);
    }
  }

  lemma StrandedStep(s: System, a: Action)
    requires GoneSilent(s)
    ensures var t := Do(s, a);
      && GoneSilent(t) && |s.incoming| <= |t.incoming|
      && WaitingClients(s) <= WaitingClients(t)
      && (|s.incoming| >= CAPACITY ==> SendingClients(s) <= SendingClients(t))
  {
    if a.Other? { StoppedStep(s.fan, a.event); }
  }

  lemma {:induction false} NoneExpecting(q: seq<Request>)
    ensures Expecting(q) == 0 <==> forall i :: 0 <= i < |q| ==> !ExpectsReply(q[i].cmd)
    decreases |q|
  {
    if q != [] {
      NoneExpecting(q[1..]);
      assert forall i :: 1 <= i < |q| ==> q[i] == q[1..][i - 1];
      assert q[1..] == [] || q[1..][0] == q[1];
    }
  }

  lemma {:induction false} NoneBehindStop(sent: seq<Request>)
    ensures Expecting(AfterStop(sent)) == 0
       <==> forall i, j :: 0 <= i < j < |sent| && sent[i].cmd == Stop ==> !ExpectsReply(sent[j].cmd)
    decreases |sent|
  {
    if sent != [] {
      assert forall i :: 1 <= i < |sent| ==> sent[i] == sent[1..][i - 1];
      if sent[0].cmd == Stop {
        NoneExpecting(sent[1..]);
      } else {
        NoneBehindStop(sent[1..]);
      }
    }
  }

  /** Such a run: a client that asks behind the stop waits for ever. */
  lemma StopStrandsClients(start: Fan, stop: seq<Action>)
    requires !start.stopped && stop == [Arrive(0, Stop), Send(0), Receive]
    ensures var s := Play(Initial(start), stop + [Arrive(1, GetFreq)] + [Send(1)]);
      1 in WaitingClients(s) && Stuck(s)
  {
    DaemonStops(start, stop);
    PlayStep(Initial(start), stop, Arrive(1, GetFreq));
    PlayStep(Initial(start), stop + [Arrive(1, GetFreq)], Send(1));
  }

  lemma DaemonStops(start: Fan, stop: seq<Action>)
    requires !start.stopped && stop == [Arrive(0, Stop), Send(0), Receive]
    ensures var s := Play(Initial(start), stop);
      s.clients == map[0 := Finished(None)] && s.fan.stopped
      && s.incoming == [] && s.outgoing == [] && s.replying.None?
  {
    PlayStep(Initial(start), [], stop[0]);
    PlayStep(Initial(start), stop[..1], stop[1]);
    PlayStep(Initial(start), stop[..2], stop[2]);
    assert [] + [stop[0]] == stop[..1] && stop[..1] + [stop[1]] == stop[..2] && stop[..2] + [stop[2]] == stop;
  }

  /** Clients 1 to n each send a set-mode, which nobody answers. */
  function Fill(n: nat): seq<Action>
  {
    if n == 0 then [] else Fill(n - 1) + [Arrive(n, SetMode(0))] + [Send(n)]
  }

  /** n clients have come and sent what nobody will read. */
  predicate Filled(s: System, n: nat)
  {
    GoneSilent(s) && |s.incoming| == n && AllFinished(s) && forall id :: id in s.clients ==> id <= n
  }

  lemma FillStep(s: System, n: nat)
    requires 0 < n <= CAPACITY && Filled(s, n - 1)
    ensures Filled(Do(Do(s, Arrive(n, SetMode(0))), Send(n)), n)
  {
    assert n !in s.clients;
  }

  lemma {:induction false} FilledBehind(s: System, stop: seq<Action>, n: nat)
    requires Filled(Play(s, stop), 0) && n <= CAPACITY
    ensures Filled(Play(s, stop + Fill(n)), n)
  {
    if n == 0 {
      assert stop + Fill(0) == stop;
    } else {
      FilledBehind(s, stop, n - 1);
      OneMoreFill(s, stop, n);
      FillStep(Play(s, stop + Fill(n - 1)), n);
    }
  }

  lemma OneMoreFill(s: System, stop: seq<Action>, n: nat)
    requires n > 0
    ensures Play(s, stop + Fill(n)) == Do(Do(Play(s, stop + Fill(n - 1)), Arrive(n, SetMode(0))), Send(n))
  {
    var before := stop + Fill(n - 1);
    assert stop + Fill(n) == before + [Arrive(n, SetMode(0))] + [Send(n)];
    PlayStep(s, before, Arrive(n, SetMode(0)));
    PlayStep(s, before + [Arrive(n, SetMode(0))], Send(n));
  }

  /** Another such run: nobody waits for a reply, no answerable request was sent, and yet the
      eleventh client behind the stop is blocked in sending. */
  lemma StopBlocksSenders(start: Fan, stop: seq<Action>)
    requires !start.stopped && stop == [Arrive(0, Stop), Send(0), Receive]
    ensures var s := Play(Initial(start), stop + Fill(10) + [Arrive(11, GetFreq)]);
      && Stuck(s) && WaitingClients(s) == {} && SendingClients(s) == {11}
  {
    DaemonStops(start, stop);
    FilledBehind(Initial(start), stop, 10);
    PlayStep(Initial(start), stop + Fill(10), Arrive(11, GetFreq));
  }
}
