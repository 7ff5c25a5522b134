/**
  The preemptive lock of one (repository, pull request) key, as a state machine.

  Any number of clients contend for the key. A client is one call of
  `lockingOperation`: its main goroutine, the event handler started by
  `PostgresLock.Lock`, the watcher started once the lock is held, and the
  goroutine that runs the operation body. Each action below is one atomic step
  of one of these goroutines, of the database server, or of the outside world.
  */
module PreemptiveLock {
  import opened Wrappers

  type Id = nat

  // Where the main goroutine stands.
  datatype Pc =
    | Created    // session opened, nothing sent yet
    | Notified   // NOTIFY sent
    | Waiting    // listening, blocked in pg_advisory_lock
    | Delaying   // advisory lock granted, waiting out the lock delay
    | Preempted  // received a notification during the delay, about to release
    | Operating  // Lock returned; waiting for the body or for cancellation
    | Returning  // stop channel closed, about to release
    | Released   // Unlock done, context not yet cancelled by this goroutine
    | Done       // lockingOperation has returned
    | Errored    // Lock returned an error without releasing

  datatype Listener = NotYet | Open | Closed
  // Handing over a preemption, or, when nobody took it in time, unlocking on its own.
  datatype Handler = Off | Watching | Handing | Unlocking | Gone
  datatype Watcher = Absent | Armed | Got | Stopped | Finished
  datatype Body = NotSpawned | Spawned | Running | Ended

  datatype Client = Client(
    pc: Pc,
    sessionOpen: bool,
    listener: Listener,
    queue: seq<Id>,     // senders of the notifications delivered and not yet read
    handler: Handler,
    watcher: Watcher,
    body: Body,
    cancelled: bool,    // the operation's context
    handed: bool)       // a preemption was received from the channel

  datatype State = State(clients: map<Id, Client>, owner: Option<Id>)

  datatype Action =
    | Arrive | SendNotify | NotifyFails
    | Listen | ListenFails
    | Grant | GrantThenError | LockFails
    | ReceiveInLock | DelayElapses
    | BodyStarts | BodyEnds | OpReturns | OpSeesCancel
    | WatcherReceives | WatcherStops | WatcherCancels
    | Release | ReleaseFails | Return
    | HandlerReads | HandlerGivesUp | HandlerSeesClose | PreemptionTimesOut | ForceUnlock | ForceUnlockFails
    | SessionDies | ParentCancels

  datatype Event = Event(c: Id, a: Action)

  const INIT := State(map[], None)

  const NEWCOMER := Client(Created, true, NotYet, [], Off, Absent, NotSpawned, false, false)

  // A goroutine of the client is at the receive end of the preemption channel.
  predicate AtReceive(x: Client) {
    x.pc == Delaying || x.watcher == Armed
  }

  predicate LocalGuard(x: Client, free: bool, a: Action) {
    match a
    case Arrive => false
    case SendNotify => x.pc == Created && x.sessionOpen
    case NotifyFails => x.pc == Created
    case Listen => x.pc == Notified
    case ListenFails => x.pc == Notified
    case Grant => x.pc == Waiting && x.sessionOpen && free
    case GrantThenError => x.pc == Waiting && x.sessionOpen && free
    case LockFails => x.pc == Waiting
    case ReceiveInLock => x.pc == Delaying && x.handler == Handing
    case DelayElapses => x.pc == Delaying
    case BodyStarts => x.body == Spawned
    case BodyEnds => x.body == Running
    case OpReturns => x.pc == Operating && x.body == Ended
    case OpSeesCancel => x.pc == Operating && x.cancelled
    case WatcherReceives => x.watcher == Armed && x.handler == Handing
    case WatcherStops => x.watcher == Armed && x.pc in {Returning, Released, Done}
    case WatcherCancels => x.watcher in {Got, Stopped}
    case Release => x.pc in {Preempted, Returning}
    case ReleaseFails => x.pc in {Preempted, Returning}
    case Return => x.pc == Released
    case HandlerReads => x.handler == Watching && x.queue != []
    case HandlerGivesUp => x.handler == Watching
    case HandlerSeesClose => x.handler == Watching && x.listener == Closed
    case PreemptionTimesOut => x.handler == Handing && !AtReceive(x)
    // The unlock statement waits for the connection while that is blocked in pg_advisory_lock.
    case ForceUnlock => x.handler == Unlocking && x.pc != Waiting
    case ForceUnlockFails => x.handler == Unlocking && x.pc != Waiting
    case SessionDies => x.sessionOpen
    case ParentCancels => true
  }

  // Unlocking releases the advisory lock, and closing the connection behind it hands that back to
  // the pool. If the unlock statement fails, the pooled session keeps the lock. The connection can
  // be used once: a later unlock has no effect.
  function Unlocked(x: Client): Client {
    x.(sessionOpen := x.sessionOpen && x.listener == Closed, listener := Closed)
  }

  // The client's own part of a step.
  function Local(c: Id, x: Client, a: Action): Client {
    match a
    case Arrive => x
    case SendNotify => x.(pc := Notified)
    case NotifyFails => x.(pc := Errored, cancelled := true)
    case Listen => x.(pc := Waiting, listener := Open, handler := Watching)
    case ListenFails => x.(pc := Errored, cancelled := true)
    case Grant => x.(pc := Delaying)
    case GrantThenError => x.(pc := Errored, cancelled := true)
    case LockFails => x.(pc := Errored, cancelled := true)
    case ReceiveInLock => x.(pc := Preempted, handler := Gone, handed := true)
    case DelayElapses => x.(pc := Operating, watcher := Armed, body := Spawned)
    case BodyStarts => x.(body := Running)
    case BodyEnds => x.(body := Ended)
    case OpReturns => x.(pc := Returning)
    case OpSeesCancel => x.(pc := Returning)
    case WatcherReceives => x.(watcher := Got, handler := Gone, handed := true)
    case WatcherStops => x.(watcher := Stopped)
    case WatcherCancels => x.(watcher := Finished, cancelled := true)
    case Release => Unlocked(x).(pc := Released)
    case ReleaseFails => x.(pc := Released, listener := Closed)
    case Return => x.(pc := Done, cancelled := true)
    case HandlerReads =>
      if x.queue == [] then x
      else x.(queue := x.queue[1..], handler := if x.queue[0] == c then Watching else Handing)
    case HandlerGivesUp => x.(handler := Handing)
    case HandlerSeesClose => x.(handler := Gone)
    case PreemptionTimesOut => x.(handler := Unlocking)
    case ForceUnlock => Unlocked(x).(handler := Gone)
    case ForceUnlockFails => x.(handler := Gone, listener := Closed)
    case SessionDies => x.(sessionOpen := false)
    case ParentCancels => x.(cancelled := true)
  }

  // The advisory lock belongs to a session: it goes when the session releases it or ends.
  function NewOwner(owner: Option<Id>, c: Id, x: Client, a: Action): Option<Id> {
    match a
    case Grant => Some(c)
    case GrantThenError => Some(c)
    case Release => if owner == Some(c) && x.listener != Closed then None else owner
    case ForceUnlock => if owner == Some(c) && x.listener != Closed then None else owner
    case SessionDies => if owner == Some(c) then None else owner
    case _ => owner
  }

  // Postgres delivers a notification to every connection that is listening.
  function Deliver(x: Client, sender: Id): Client {
    if x.listener == Open then x.(queue := x.queue + [sender]) else x
  }

  predicate Guard(s: State, e: Event) {
    if e.a == Arrive then e.c !in s.clients
    else e.c in s.clients && LocalGuard(s.clients[e.c], s.owner == None, e.a)
  }

  function Next(s: State, e: Event): State
    requires Guard(s, e)
  {
    if e.a == Arrive then s.(clients := s.clients[e.c := NEWCOMER])
    else
      var moved := s.clients[e.c := Local(e.c, s.clients[e.c], e.a)];
      var heard := if e.a == SendNotify then map i | i in moved :: Deliver(moved[i], e.c) else moved;
      State(heard, NewOwner(s.owner, e.c, s.clients[e.c], e.a))
  }

  // What a step makes of one client.
  lemma NextAt(s: State, e: Event, c: Id)
    requires Guard(s, e) && c in Next(s, e).clients
    ensures if e == Event(c, Arrive) then Next(s, e).clients[c] == NEWCOMER
            else c in s.clients &&
                 var x := if e.c == c then Local(c, s.clients[c], e.a) else s.clients[c];
                 Next(s, e).clients[c] == if e.a == SendNotify then Deliver(x, e.c) else x
  {
  }

  // Runs: sequences of events, each enabled where it happens.

  predicate Run(es: seq<Event>)
    decreases |es|, 0
  {
    es == [] || (Run(es[..|es| - 1]) && Guard(After(es[..|es| - 1]), es[|es| - 1]))
  }

  function After(es: seq<Event>): State
    requires Run(es)
    decreases |es|, 1
  {
    if es == [] then INIT else Next(After(es[..|es| - 1]), es[|es| - 1])
  }

  lemma Extend(es: seq<Event>, e: Event)
    requires Run(es) && Guard(After(es), e)
    ensures Run(es + [e]) && After(es + [e]) == Next(After(es), e)
  {
    assert (es + [e])[..|es|] == es;
  }

  lemma {:induction false} PrefixRuns(es: seq<Event>, k: nat)
    requires Run(es) && k <= |es|
    ensures Run(es[..k])
  {
    if k == |es| {
      assert es[..k] == es;
    } else {
      PrefixRuns(es[..|es| - 1], k);
      assert es[..|es| - 1][..k] == es[..k];
    }
  }

  // The invariant.

  predicate Holding(pc: Pc) {
    pc in {Delaying, Preempted, Operating, Returning}
  }

  predicate Consistent(c: Id, x: Client) {
    && (x.pc in {Created, Notified} ==>
          x.listener == NotYet && x.handler == Off && x.queue == [] && !x.handed)
    && (x.listener == NotYet ==> x.pc in {Created, Notified, Errored} && x.handler == Off && !x.handed)
    && (x.handler == Off <==> x.listener == NotYet)
    && (x.pc in {Created, Notified, Waiting, Delaying, Preempted, Errored} ==>
          x.watcher == Absent && x.body == NotSpawned)
    && (x.pc in {Waiting, Delaying, Errored} ==> !x.handed)
    && (x.pc == Waiting ==> x.listener == Open)
    && (x.pc in {Delaying, Operating} && x.listener == Closed ==> x.handler == Gone && !x.handed)
    && (x.pc == Delaying && x.listener == Open ==> x.handler in {Watching, Handing, Unlocking})
    && (x.pc in {Operating, Returning} ==> x.watcher != Absent && x.body != NotSpawned)
    && (x.pc == Operating ==> x.watcher in {Armed, Got, Finished})
    && (x.watcher == Absent <==> x.body == NotSpawned)
    && (x.watcher == Armed && x.listener == Open ==> x.handler in {Watching, Handing, Unlocking})
    && (x.watcher == Got ==> x.handler == Gone)
    && (x.watcher == Finished ==> x.cancelled)
    && (x.pc == Operating && x.watcher == Finished ==> x.handler == Gone)
    && (x.pc in {Returning, Released, Done} && x.body != NotSpawned ==> x.body == Ended || x.cancelled)
    && (x.pc in {Released, Done} ==> x.listener == Closed)
    && (x.pc in {Errored, Done} ==> x.cancelled)
    && (x.handler == Gone ==> x.handed || x.listener == Closed)
    && (x.handed ==> x.handler == Gone)
    && (x.handed && x.pc in {Operating, Returning} ==> x.watcher in {Got, Finished})
    && (x.pc == Preempted ==> x.handed)
    && c !in x.queue
  }

  // The owner of the advisory lock has a live session, and a live session past the grant owns it.
  predicate OwnerAgrees(owner: Option<Id>, c: Id, x: Client) {
    && (Holding(x.pc) && x.sessionOpen ==> owner == Some(c))
    && (owner == Some(c) ==> x.sessionOpen)
  }

  predicate Inv(s: State) {
    && (forall c :: c in s.clients ==> Consistent(c, s.clients[c]) && OwnerAgrees(s.owner, c, s.clients[c]))
    && (s.owner.Some? ==> s.owner.value in s.clients)
  }

  // The steps, by where they are taken.

  predicate MainStep(a: Action) {
    a in {SendNotify, NotifyFails, Listen, ListenFails, Grant, GrantThenError, LockFails, ReceiveInLock, DelayElapses}
  }

  predicate EndStep(a: Action) {
    a in {OpReturns, OpSeesCancel, Return, BodyStarts, BodyEnds}
  }

  predicate HandlerStep(a: Action) {
    a in {HandlerReads, HandlerGivesUp, HandlerSeesClose, PreemptionTimesOut}
  }

  predicate UnlockStep(a: Action) {
    a in {Release, ReleaseFails, ForceUnlock, ForceUnlockFails}
  }

  predicate WatcherStep(a: Action) {
    a in {WatcherReceives, WatcherStops, WatcherCancels, SessionDies, ParentCancels}
  }

  ghost predicate StepsWell(c: Id, x: Client, owner: Option<Id>, a: Action) {
    Consistent(c, Local(c, x, a)) && OwnerAgrees(NewOwner(owner, c, x, a), c, Local(c, x, a))
  }

  ghost predicate StepsFrom(c: Id, x: Client, owner: Option<Id>, a: Action) {
    Consistent(c, x) && OwnerAgrees(owner, c, x) && LocalGuard(x, owner == None, a)
  }

  lemma MainStepConsistent(c: Id, x: Client, owner: Option<Id>, a: Action)
    requires StepsFrom(c, x, owner, a) && MainStep(a)
    ensures StepsWell(c, x, owner, a)
  {
  }

  lemma EndStepConsistent(c: Id, x: Client, owner: Option<Id>, a: Action)
    requires StepsFrom(c, x, owner, a) && EndStep(a)
    ensures StepsWell(c, x, owner, a)
  {
  }

  lemma HandlerStepConsistent(c: Id, x: Client, owner: Option<Id>, a: Action)
    requires StepsFrom(c, x, owner, a) && HandlerStep(a)
    ensures StepsWell(c, x, owner, a)
  {
  }

  lemma UnlockStepConsistent(c: Id, x: Client, owner: Option<Id>, a: Action)
    requires StepsFrom(c, x, owner, a) && UnlockStep(a)
    ensures StepsWell(c, x, owner, a)
  {
  }

  lemma WatcherStepConsistent(c: Id, x: Client, owner: Option<Id>, a: Action)
    requires StepsFrom(c, x, owner, a) && WatcherStep(a)
    ensures StepsWell(c, x, owner, a)
  {
  }

  lemma ConsistentStep(c: Id, x: Client, owner: Option<Id>, a: Action)
    requires StepsFrom(c, x, owner, a)
    ensures StepsWell(c, x, owner, a)
  {
    if MainStep(a) {
      MainStepConsistent(c, x, owner, a);
    } else if EndStep(a) {
      EndStepConsistent(c, x, owner, a);
    } else if HandlerStep(a) {
      HandlerStepConsistent(c, x, owner, a);
    } else if UnlockStep(a) {
      UnlockStepConsistent(c, x, owner, a);
    } else if WatcherStep(a) {
      WatcherStepConsistent(c, x, owner, a);
    }
  }

  // A step of one client takes nothing from another that holds a live session.
  lemma OthersStep(i: Id, y: Client, owner: Option<Id>, c: Id, x: Client, a: Action)
    requires i != c && Consistent(i, y) && OwnerAgrees(owner, i, y)
    requires Consistent(c, x) && OwnerAgrees(owner, c, x) && LocalGuard(x, owner == None, a)
    ensures OwnerAgrees(NewOwner(owner, c, x, a), i, y)
    ensures OwnerAgrees(owner, i, Deliver(y, c)) && Consistent(i, Deliver(y, c))
  {
  }

  lemma InvStep(s: State, e: Event)
    requires Inv(s) && Guard(s, e)
    ensures Inv(Next(s, e))
  {
    var t := Next(s, e);
    forall i | i in t.clients
      ensures Consistent(i, t.clients[i]) && OwnerAgrees(t.owner, i, t.clients[i])
    {
      if e.a != Arrive {
        ConsistentStep(e.c, s.clients[e.c], s.owner, e.a);
        if i != e.c {
          OthersStep(i, s.clients[i], s.owner, e.c, s.clients[e.c], e.a);
        }
      }
    }
  }

  lemma {:induction false} Reachable(es: seq<Event>)
    requires Run(es)
    ensures Inv(After(es))
  {
    if es != [] {
      Reachable(es[..|es| - 1]);
      InvStep(After(es[..|es| - 1]), es[|es| - 1]);
    }
  }

  // Mutual exclusion, up to cancellation and loss of the session.

  predicate Critical(s: State, c: Id) {
    && c in s.clients
    && s.clients[c].body == Running
    && s.clients[c].sessionOpen
    && !s.clients[c].cancelled
  }

  lemma MutualExclusion(es: seq<Event>, c: Id, d: Id)
    requires Run(es)
    requires Critical(After(es), c) && Critical(After(es), d)
    ensures c == d && After(es).owner == Some(c)
  {
    Reachable(es);
  }

  // A client whose session has ended neither notifies others nor takes or frees the lock any more.
  lemma DeadIsSilent(s: State, e: Event, d: Id)
    requires Inv(s) && Guard(s, e) && e.a != Arrive && !s.clients[e.c].sessionOpen && d != e.c
    ensures d in s.clients <==> d in Next(s, e).clients
    ensures d in s.clients ==> Next(s, e).clients[d] == s.clients[d]
    ensures Next(s, e).owner == s.owner
  {
    assert OwnerAgrees(s.owner, e.c, s.clients[e.c]);
  }

  // Preemption.

  predicate Listening(s: State, c: Id) {
    c in s.clients && s.clients[c].listener == Open
  }

  // A notification of another client is delivered and not yet read.
  predicate Pending(c: Id, x: Client) {
    exists i :: 0 <= i < |x.queue| && x.queue[i] != c
  }

  // Released, handed a preemption, or with one still on its way.
  predicate ObligedAt(c: Id, x: Client) {
    || x.listener == Closed
    || x.handed
    || x.handler in {Handing, Unlocking}
    || (x.handler == Watching && Pending(c, x))
  }

  predicate Obliged(s: State, c: Id) {
    c in s.clients && ObligedAt(c, s.clients[c])
  }

  lemma LocalStaysObliged(c: Id, x: Client, free: bool, a: Action)
    requires Consistent(c, x) && LocalGuard(x, free, a) && ObligedAt(c, x)
    ensures ObligedAt(c, Local(c, x, a))
  {
    if x.handler == Watching && Local(c, x, a).handler == Watching {
      assert Local(c, x, a).queue == x.queue;
    }
  }

  lemma DeliveredStaysObliged(c: Id, x: Client, sender: Id)
    requires ObligedAt(c, x)
    ensures ObligedAt(c, Deliver(x, sender))
  {
    if x.handler == Watching && Pending(c, x) {
      var i :| 0 <= i < |x.queue| && x.queue[i] != c;
      assert Deliver(x, sender).queue[i] == x.queue[i];
    }
  }

  lemma ObligationStays(s: State, e: Event, c: Id)
    requires Inv(s) && Guard(s, e) && Obliged(s, c)
    ensures Obliged(Next(s, e), c)
  {
    if e.a != Arrive {
      var x := if e.c == c then Local(c, s.clients[c], e.a) else s.clients[c];
      if e.c == c {
        LocalStaysObliged(c, s.clients[c], s.owner == None, e.a);
      }
      DeliveredStaysObliged(c, x, e.c);
    }
  }

  // A contender's notification obliges exactly the clients listening at that moment.
  lemma NotifyObligesListeners(es: seq<Event>, contender: Id, c: Id)
    requires Run(es) && Guard(After(es), Event(contender, SendNotify))
    requires c in After(es).clients && c != contender
    ensures Obliged(Next(After(es), Event(contender, SendNotify)), c)
            <==> Obliged(After(es), c) || Listening(After(es), c)
  {
    var s := After(es);
    Reachable(es);
    var x, y := s.clients[c], Next(s, Event(contender, SendNotify)).clients[c];
    if Obliged(s, c) {
      ObligationStays(s, Event(contender, SendNotify), c);
    } else if Listening(s, c) {
      assert y.queue[|x.queue|] == contender;
    }
  }

  // Preemption is never lost: once obliged, obliged in every later state of the run.
  lemma {:induction false} PreemptionNeverLost(es: seq<Event>, k: nat, c: Id)
    requires Run(es) && k < |es| && Run(es[..k])
    requires es[k].a == SendNotify && es[k].c != c && Listening(After(es[..k]), c)
    ensures Obliged(After(es), c)
  {
    var before := es[..|es| - 1];
    if k == |es| - 1 {
      NotifyObligesListeners(before, es[k].c, c);
    } else {
      assert before[..k] == es[..k];
      PreemptionNeverLost(before, k, c);
      Reachable(before);
      ObligationStays(After(before), es[|es| - 1], c);
    }
  }

  // Whoever holds the lock, or waits out its delay, when another client contends is preempted.
  lemma HolderIsPreempted(es: seq<Event>, k: nat, c: Id)
    requires Run(es) && k < |es| && Run(es[..k])
    requires es[k].a == SendNotify && es[k].c != c
    requires c in After(es[..k]).clients && After(es[..k]).clients[c].pc in {Delaying, Operating}
    ensures Obliged(After(es), c)
  {
    Reachable(es[..k]);
    if Listening(After(es[..k]), c) {
      PreemptionNeverLost(es, k, c);
    } else {
      StillObliged(es, k, c);
    }
  }

  // An obligation stays to the end of a run.
  lemma {:induction false} StillObliged(es: seq<Event>, k: nat, c: Id)
    requires Run(es) && k <= |es| && Run(es[..k]) && Obliged(After(es[..k]), c)
    ensures Obliged(After(es), c)
  {
    if k == |es| {
      assert es[..k] == es;
    } else {
      var before := es[..|es| - 1];
      assert before[..k] == es[..k];
      StillObliged(before, k, c);
      Reachable(before);
      ObligationStays(After(before), es[|es| - 1], c);
    }
  }

  predicate WillNotOperate(s: State, c: Id) {
    && c in s.clients
    && s.clients[c].body == NotSpawned
    && s.clients[c].pc in {Preempted, Released, Done}
  }

  // A lock handed a preemption before its delay ends never starts its operation.
  lemma {:induction false} PreemptedInDelayNeverOperates(es: seq<Event>, k: nat)
    requires Run(es) && k < |es| && es[k].a == ReceiveInLock
    ensures WillNotOperate(After(es), es[k].c)
  {
    var before := es[..|es| - 1];
    var s, e := After(before), es[|es| - 1];
    if k == |es| - 1 {
      Reachable(before);
    } else {
      PreemptedInDelayNeverOperates(before, k);
      assert before[k] == es[k];
      StillWillNot(s, e, es[k].c);
    }
    assert After(es) == Next(s, e);
  }

  lemma StillWillNot(s: State, e: Event, c: Id)
    requires Guard(s, e) && WillNotOperate(s, c)
    ensures WillNotOperate(Next(s, e), c)
  {
  }

  // A lock's own notification never reaches it: it is sent before the lock listens.
  lemma OwnNotificationNeverArrives(es: seq<Event>, c: Id)
    requires Run(es) && c in After(es).clients
    ensures c !in After(es).clients[c].queue
  {
    Reachable(es);
  }

  // An obliged client gets to the point where its lock is released by a bounded number of steps of
  // its own handler, watcher and main goroutine: neither the body nor any other client need move.

  predicate OwnStep(a: Action) {
    a in {LockFails, ReceiveInLock, OpSeesCancel, Release, ReleaseFails, WatcherReceives, WatcherCancels,
          HandlerReads, PreemptionTimesOut, ForceUnlock, ForceUnlockFails}
  }

  predicate LockGone(s: State, c: Id) {
    c in s.clients && s.clients[c].listener == Closed && !s.clients[c].sessionOpen && s.owner != Some(c)
  }

  // How many own steps are left, goroutine by goroutine.

  function MainLeft(pc: Pc): nat {
    match pc
    case Preempted => 1
    case Returning => 1
    case Released => 0
    case Done => 0
    case Errored => 0
    case _ => 2
  }

  function HandlerLeft(h: Handler): nat {
    match h
    case Gone => 0
    case Unlocking => 1
    case Handing => 2
    case _ => 3
  }

  function WatcherLeft(w: Watcher): nat {
    match w
    case Finished => 0
    case Got => 1
    case Stopped => 1
    case _ => 2
  }

  function Remaining(x: Client): (n: nat)
    ensures n <= 7
  {
    if x.listener == Closed then 0 else MainLeft(x.pc) + HandlerLeft(x.handler) + WatcherLeft(x.watcher)
  }

  // While an obliged client has not released, one of its own steps is enabled.
  lemma NextOwnStep(s: State, c: Id) returns (a: Action)
    requires Inv(s) && Obliged(s, c) && s.clients[c].listener != Closed
    ensures OwnStep(a) && !UnlockFails(a) && Guard(s, Event(c, a))
  {
    var x := s.clients[c];
    a := if x.pc in {Preempted, Returning} then Release
         else if x.handed then if x.watcher == Got then WatcherCancels else OpSeesCancel
         else if x.handler == Watching then HandlerReads
         else if x.handler == Unlocking then if x.pc == Waiting then LockFails else ForceUnlock
         else if x.pc == Delaying then ReceiveInLock
         else if x.watcher == Armed then WatcherReceives
         else PreemptionTimesOut;
  }

  // A step of its own brings an obliged client nearer to the release.
  lemma OwnStepNearer(c: Id, x: Client, free: bool, a: Action)
    requires Consistent(c, x) && LocalGuard(x, free, a) && OwnStep(a) && x.listener == Open
    ensures Remaining(Local(c, x, a)) < Remaining(x)
  {
  }

  // No other step of the client takes it farther away.
  lemma LocalNotFarther(c: Id, x: Client, free: bool, a: Action)
    requires Consistent(c, x) && LocalGuard(x, free, a) && x.listener != NotYet
    ensures Remaining(Local(c, x, a)) <= Remaining(x)
  {
  }

  lemma StepNearer(s: State, e: Event, c: Id)
    requires Inv(s) && Guard(s, e) && Obliged(s, c) && s.clients[c].listener != Closed
    ensures Remaining(Next(s, e).clients[c]) + (if e.c == c && OwnStep(e.a) then 1 else 0) <= Remaining(s.clients[c])
  {
    if e.a != Arrive && e.c == c {
      LocalNotFarther(c, s.clients[c], s.owner == None, e.a);
      if OwnStep(e.a) {
        OwnStepNearer(c, s.clients[c], s.owner == None, e.a);
      }
    }
  }

  // The own steps of a client in a run from its k-th event on.
  function OwnSteps(es: seq<Event>, k: nat, c: Id): nat
    requires k <= |es|
  {
    if k == |es| then 0
    else
      var last := es[|es| - 1];
      OwnSteps(es[..|es| - 1], k, c) + if last.c == c && OwnStep(last.a) then 1 else 0
  }

  // With n own steps made of m, at a state that an event follows.
  lemma StepCounts(s: State, e: Event, c: Id, n: nat, m: nat)
    requires Inv(s) && Guard(s, e) && Obliged(s, c)
    requires s.clients[c].listener != Closed ==> n + Remaining(s.clients[c]) <= m
    ensures Obliged(Next(s, e), c)
    ensures Next(s, e).clients[c].listener != Closed ==>
              n + (if e.c == c && OwnStep(e.a) then 1 else 0) + Remaining(Next(s, e).clients[c]) <= m
  {
    ObligationStays(s, e, c);
    if s.clients[c].listener != Closed {
      StepNearer(s, e, c);
    }
  }

  lemma {:induction false} OwnStepsLeft(es: seq<Event>, k: nat, c: Id)
    requires Run(es) && k <= |es| && Run(es[..k]) && Obliged(After(es[..k]), c)
    ensures Obliged(After(es), c)
    ensures After(es).clients[c].listener != Closed ==>
              OwnSteps(es, k, c) + Remaining(After(es).clients[c]) <= Remaining(After(es[..k]).clients[c])
    decreases |es|
  {
    if k == |es| {
      assert es[..k] == es;
    } else {
      var before := es[..|es| - 1];
      assert before[..k] == es[..k];
      OwnStepsLeft(before, k, c);
      Reachable(before);
      StepCounts(After(before), es[|es| - 1], c, OwnSteps(before, k, c), Remaining(After(es[..k]).clients[c]));
    }
  }

  predicate UnlockFails(a: Action) {
    a in {ReleaseFails, ForceUnlockFails}
  }

  ghost predicate NoUnlockFailed(es: seq<Event>, c: Id) {
    forall e :: e in es && e.c == c ==> !UnlockFails(e.a)
  }

  // Who has unlocked has no session, unless an unlock statement failed.
  lemma {:induction false} UnlockedHasNoSession(es: seq<Event>, c: Id)
    requires Run(es) && c in After(es).clients && NoUnlockFailed(es, c) && After(es).clients[c].listener == Closed
    ensures !After(es).clients[c].sessionOpen
  {
    var before, e := es[..|es| - 1], es[|es| - 1];
    var s := After(before);
    assert forall x :: x in before ==> x in es;
    assert e in es;
    NextAt(s, e, c);
    if c in s.clients {
      if s.clients[c].listener == Closed {
        UnlockedHasNoSession(before, c);
      }
      if e.c == c && e.a != Arrive {
        UnlockedLocal(c, s.clients[c], e.a);
      }
    }
  }

  lemma UnlockedLocal(c: Id, x: Client, a: Action)
    requires (x.listener == Closed ==> !x.sessionOpen) && !UnlockFails(a) && Local(c, x, a).listener == Closed
    ensures !Local(c, x, a).sessionOpen
  {
  }

  lemma GoneUnlessFailed(es: seq<Event>, c: Id)
    requires Run(es) && c in After(es).clients && After(es).clients[c].listener == Closed
    ensures LockGone(After(es), c) || !NoUnlockFailed(es, c)
  {
    if NoUnlockFailed(es, c) {
      UnlockedHasNoSession(es, c);
      Reachable(es);
    }
  }

  // In every run, whatever happens in between, a client that has been obliged has unlocked after
  // at most seven steps of its own; its lock is gone unless the unlock statement failed.
  lemma ReleasedAfterOwnSteps(es: seq<Event>, k: nat, c: Id)
    requires Run(es) && k <= |es| && Run(es[..k]) && Obliged(After(es[..k]), c)
    requires OwnSteps(es, k, c) >= 7
    ensures c in After(es).clients && After(es).clients[c].listener == Closed
    ensures LockGone(After(es), c) || !NoUnlockFailed(es, c)
  {
    OwnStepsLeft(es, k, c);
    Reachable(es);
    if After(es).clients[c].listener != Closed {
      var a := NextOwnStep(After(es), c);
      OwnStepNearer(c, After(es).clients[c], After(es).owner == None, a);
    }
    GoneUnlessFailed(es, c);
  }

  // Plays a list of events from a state, if each is enabled.
  function Play(s: State, es: seq<Event>): Option<State>
    decreases |es|
  {
    if es == [] then Some(s)
    else if Guard(s, es[0]) then Play(Next(s, es[0]), es[1..])
    else None
  }

  ghost predicate Reaches(es: seq<Event>, s: State) {
    Run(es) && After(es) == s
  }

  lemma PlayFirst(s: State, more: seq<Event>)
    requires Play(s, more).Some? && more != []
    ensures Guard(s, more[0]) && Play(Next(s, more[0]), more[1..]) == Play(s, more)
  {
  }

  lemma {:induction false} PlayIsRun(es: seq<Event>, s: State, more: seq<Event>)
    requires Reaches(es, s) && Play(s, more).Some?
    ensures Reaches(es + more, Play(s, more).value)
    decreases |more|
  {
    if more == [] {
      assert es + more == es;
    } else {
      var longer := es + [more[0]];
      PlayFirst(s, more);
      Extend(es, more[0]);
      PlayIsRun(longer, Next(s, more[0]), more[1..]);
      assert es + more == longer + more[1..];
    }
  }

  lemma OwnStepOn(s: State, c: Id) returns (a: Action, t: State)
    requires Inv(s) && Obliged(s, c) && s.clients[c].listener != Closed
    ensures OwnStep(a) && !UnlockFails(a) && Guard(s, Event(c, a)) && t == Next(s, Event(c, a))
    ensures Inv(t) && Obliged(t, c) && Remaining(t.clients[c]) < Remaining(s.clients[c])
  {
    a := NextOwnStep(s, c);
    t := Next(s, Event(c, a));
    InvStep(s, Event(c, a));
    ObligationStays(s, Event(c, a), c);
    StepNearer(s, Event(c, a), c);
  }

  lemma {:induction false} OwnStepsRelease(s: State, c: Id) returns (more: seq<Event>)
    requires Inv(s) && Obliged(s, c)
    ensures |more| <= Remaining(s.clients[c])
    ensures forall e :: e in more ==> e.c == c && OwnStep(e.a) && !UnlockFails(e.a)
    ensures Play(s, more).Some? && HasUnlocked(Play(s, more).value, c)
    decreases Remaining(s.clients[c])
  {
    if s.clients[c].listener == Closed {
      more := [];
    } else {
      var a, t := OwnStepOn(s, c);
      var rest := OwnStepsRelease(t, c);
      more := [Event(c, a)] + rest;
      assert more[1..] == rest;
    }
  }

  predicate HasUnlocked(s: State, c: Id) {
    c in s.clients && s.clients[c].listener == Closed
  }

  // And these steps suffice: by no more than seven of them, and nothing else, it can release,
  // unless an unlock statement has failed before.
  lemma ObligedCanRelease(es: seq<Event>, c: Id) returns (more: seq<Event>)
    requires Run(es) && Obliged(After(es), c)
    ensures |more| <= 7
    ensures forall e :: e in more ==> e.c == c && OwnStep(e.a)
    ensures Run(es + more) && HasUnlocked(After(es + more), c)
    ensures LockGone(After(es + more), c) || !NoUnlockFailed(es, c)
  {
    Reachable(es);
    more := OwnStepsRelease(After(es), c);
    PlayIsRun(es, After(es), more);
    GoneUnlessFailed(es + more, c);
  }

  // A lock also gives up by itself: when its time is over, its context done, or its session reported lost.

  lemma GivingUpObliges(es: seq<Event>, k: nat)
    requires Run(es) && k < |es| && es[k].a == HandlerGivesUp
    ensures Obliged(After(es), es[k].c)
  {
    var first := es[..k + 1];
    PrefixRuns(es, k + 1);
    assert first[..k] == es[..k] && first[k] == es[k];
    StillObliged(es, k + 1, es[k].c);
  }

  // Once it has given up, it has unlocked after at most seven steps of its own, like one that is preempted.
  lemma GivenUpIsReleased(es: seq<Event>, k: nat)
    requires Run(es) && k < |es| && es[k].a == HandlerGivesUp && OwnSteps(es, k + 1, es[k].c) >= 7
    ensures HasUnlocked(After(es), es[k].c)
    ensures LockGone(After(es), es[k].c) || !NoUnlockFailed(es, es[k].c)
  {
    PrefixRuns(es, k + 1);
    GivingUpObliges(es[..k + 1], k);
    ReleasedAfterOwnSteps(es, k + 1, es[k].c);
  }

  lemma GiveUp(es: seq<Event>, c: Id) returns (longer: seq<Event>)
    requires Run(es) && Listening(After(es), c) && !Obliged(After(es), c)
    ensures longer == es + [Event(c, HandlerGivesUp)] && Run(longer) && Obliged(After(longer), c)
    ensures NoUnlockFailed(longer, c) <==> NoUnlockFailed(es, c)
  {
    var e := Event(c, HandlerGivesUp);
    longer := es + [e];
    Reachable(es);
    Extend(es, e);
    GivingUpObliges(longer, |es|);
    assert forall x :: x in longer <==> x in es || x == e;
  }

  ghost predicate GivesUpBy(es: seq<Event>, longer: seq<Event>, c: Id) {
    && es <= longer && |longer| <= |es| + 8
    && forall i :: |es| <= i < |longer| ==> longer[i].c == c && (OwnStep(longer[i].a) || longer[i].a == HandlerGivesUp)
  }

  lemma GivesUpMore(es: seq<Event>, a: seq<Event>, more: seq<Event>, c: Id)
    requires GivesUpBy(es, a, c) && |a| <= |es| + 1 && |more| <= 7
    requires forall e :: e in more ==> e.c == c && OwnStep(e.a)
    ensures GivesUpBy(es, a + more, c)
  {
  }

  // Whatever a lock that listens has come to, and even if nobody contends for it, it can give up and release.
  lemma ListenerCanRelease(es: seq<Event>, c: Id) returns (longer: seq<Event>)
    requires Run(es) && Listening(After(es), c)
    ensures GivesUpBy(es, longer, c) && Run(longer) && HasUnlocked(After(longer), c)
    ensures LockGone(After(longer), c) || !NoUnlockFailed(es, c)
  {
    var first := es;
    if !Obliged(After(es), c) {
      first := GiveUp(es, c);
    }
    var more := ObligedCanRelease(first, c);
    GivesUpMore(es, first, more, c);
    longer := first + more;
  }

  // Nothing else obliges a client: in every run it is obliged exactly if it was told of a contender
  // while it listened, has given up, or has begun to unlock.

  predicate ByItself(a: Action) {
    a in {HandlerGivesUp, Release, ReleaseFails}
  }

  ghost predicate Reason(es: seq<Event>, k: nat, c: Id) {
    && k < |es| && Run(es[..k])
    && if es[k].c == c then ByItself(es[k].a) else es[k].a == SendNotify && Listening(After(es[..k]), c)
  }

  ghost predicate HasReason(es: seq<Event>, c: Id) {
    exists k :: Reason(es, k, c)
  }

  lemma LocalNewlyObliged(c: Id, x: Client, free: bool, a: Action)
    requires Consistent(c, x) && LocalGuard(x, free, a) && !ObligedAt(c, x) && ObligedAt(c, Local(c, x, a))
    ensures ByItself(a)
  {
    assert x.queue != [] ==> x.queue[0] in x.queue;
  }

  lemma NewlyObliged(s: State, e: Event, c: Id)
    requires Inv(s) && Guard(s, e) && !Obliged(s, c) && Obliged(Next(s, e), c)
    ensures if e.c == c then ByItself(e.a) else e.a == SendNotify && Listening(s, c)
  {
    if e.a != Arrive && e.c == c {
      LocalNewlyObliged(c, s.clients[c], s.owner == None, e.a);
    }
  }

  lemma ReasonObliges(es: seq<Event>, k: nat, c: Id)
    requires Run(es) && Reason(es, k, c)
    ensures Obliged(After(es), c)
  {
    if es[k].c != c {
      PreemptionNeverLost(es, k, c);
    } else {
      var first := es[..k + 1];
      PrefixRuns(es, k + 1);
      assert first[..k] == es[..k] && first[k] == es[k];
      StillObliged(es, k + 1, c);
    }
  }

  lemma ReasonStays(before: seq<Event>, e: Event, k: nat, c: Id)
    requires Reason(before, k, c)
    ensures Reason(before + [e], k, c)
  {
    assert (before + [e])[..k] == before[..k];
  }

  lemma {:induction false} ObligedIff(es: seq<Event>, c: Id)
    requires Run(es)
    ensures Obliged(After(es), c) <==> HasReason(es, c)
  {
    if k :| Reason(es, k, c) {
      ReasonObliges(es, k, c);
    }
    if es != [] && Obliged(After(es), c) {
      var before, e := es[..|es| - 1], es[|es| - 1];
      assert es == before + [e];
      ObligedIff(before, c);
      if Obliged(After(before), c) {
        var k :| Reason(before, k, c);
        ReasonStays(before, e, k, c);
      } else {
        Reachable(before);
        NewlyObliged(After(before), e, c);
        assert Reason(es, |before|, c);
      }
    }
  }

  // A preemption comes from a handler that has read a notification or has given up.

  ghost predicate HandlerMoved(es: seq<Event>, c: Id) {
    exists k :: 0 <= k < |es| && es[k].c == c && es[k].a in {HandlerReads, HandlerGivesUp}
  }

  predicate HandsOver(s: State, c: Id) {
    c in s.clients && (s.clients[c].handed || s.clients[c].handler in {Handing, Unlocking})
  }

  lemma NewlyHandsOver(s: State, e: Event, c: Id)
    requires Guard(s, e) && !HandsOver(s, c) && HandsOver(Next(s, e), c)
    ensures e.c == c && e.a in {HandlerReads, HandlerGivesUp}
  {
  }

  lemma {:induction false} HandsOverOnlyThen(es: seq<Event>, c: Id)
    requires Run(es) && HandsOver(After(es), c)
    ensures HandlerMoved(es, c)
  {
    var before := es[..|es| - 1];
    if HandsOver(After(before), c) {
      HandsOverOnlyThen(before, c);
      var k :| 0 <= k < |before| && before[k].c == c && before[k].a in {HandlerReads, HandlerGivesUp};
      assert es[k] == before[k];
    } else {
      NewlyHandsOver(After(before), es[|es| - 1], c);
    }
  }

  // An operation's lock is unlocked behind its back only if the preemption timed out before it was
  // even granted.

  ghost predicate TimedOutAt(es: seq<Event>, k: nat, c: Id) {
    && k < |es| && es[k] == Event(c, PreemptionTimesOut)
    && Run(es[..k]) && c in After(es[..k]).clients && After(es[..k]).clients[c].pc == Waiting
  }

  ghost predicate TimedOutWaiting(es: seq<Event>, c: Id) {
    exists k :: TimedOutAt(es, k, c)
  }

  lemma TimedOutStays(before: seq<Event>, e: Event, c: Id)
    requires TimedOutWaiting(before, c)
    ensures TimedOutWaiting(before + [e], c)
  {
    var k: nat :| TimedOutAt(before, k, c);
    assert (before + [e])[..k] == before[..k];
    assert TimedOutAt(before + [e], k, c);
  }

  predicate WouldUnlock(s: State, c: Id) {
    c in s.clients && s.clients[c].handler == Unlocking && s.clients[c].pc in {Waiting, Delaying, Operating}
  }

  lemma NewlyUnlocking(s: State, e: Event, c: Id)
    requires Inv(s) && Guard(s, e) && !WouldUnlock(s, c) && WouldUnlock(Next(s, e), c)
    ensures e == Event(c, PreemptionTimesOut) && s.clients[c].pc == Waiting
  {
    NextAt(s, e, c);
    if e.c == c && e.a != Arrive {
      UnlockingLocal(c, s.clients[c], s.owner == None, e.a);
    }
  }

  lemma UnlockingLocal(c: Id, x: Client, free: bool, a: Action)
    requires Consistent(c, x) && LocalGuard(x, free, a) && Local(c, x, a).handler == Unlocking
    requires Local(c, x, a).pc in {Waiting, Delaying, Operating}
    requires !(x.handler == Unlocking && x.pc in {Waiting, Delaying, Operating})
    ensures a == PreemptionTimesOut && x.pc == Waiting
  {
  }

  lemma {:induction false} UnlockedBehindItsBack(es: seq<Event>, c: Id)
    requires Run(es) && WouldUnlock(After(es), c)
    ensures TimedOutWaiting(es, c)
  {
    var before, e := es[..|es| - 1], es[|es| - 1];
    assert es == before + [e];
    if WouldUnlock(After(before), c) {
      UnlockedBehindItsBack(before, c);
      TimedOutStays(before, e, c);
    } else {
      Reachable(before);
      NewlyUnlocking(After(before), e, c);
      assert TimedOutAt(es, |before|, c);
    }
  }

  // A failure before the lock is returned is for good: the operation never starts.

  predicate FailsToLock(a: Action) {
    a in {NotifyFails, ListenFails, LockFails, GrantThenError}
  }

  predicate HasFailed(s: State, c: Id) {
    c in s.clients && s.clients[c].pc == Errored && s.clients[c].body == NotSpawned && s.clients[c].cancelled
  }

  lemma StillFailed(s: State, e: Event, c: Id)
    requires Inv(s) && Guard(s, e) && HasFailed(s, c)
    ensures HasFailed(Next(s, e), c)
  {
    NextAt(s, e, c);
    if e.c == c && e.a != Arrive {
      FailedLocal(c, s.clients[c], s.owner == None, e.a);
    }
  }

  lemma FailedLocal(c: Id, x: Client, free: bool, a: Action)
    requires Consistent(c, x) && LocalGuard(x, free, a) && x.pc == Errored
    ensures var y := Local(c, x, a); y.pc == Errored && y.body == x.body && (x.cancelled ==> y.cancelled)
  {
  }

  lemma {:induction false} FailedNeverOperates(es: seq<Event>, k: nat)
    requires Run(es) && k < |es| && FailsToLock(es[k].a)
    ensures HasFailed(After(es), es[k].c)
  {
    var before := es[..|es| - 1];
    Reachable(before);
    if k < |es| - 1 {
      FailedNeverOperates(before, k);
      assert before[k] == es[k];
      StillFailed(After(before), es[|es| - 1], es[k].c);
    }
  }

  // A cancelled context stays cancelled, whoever has cancelled it.

  predicate Cancels(a: Action) {
    a in {ParentCancels, WatcherCancels, Return} || FailsToLock(a)
  }

  predicate IsCancelled(s: State, c: Id) {
    c in s.clients && s.clients[c].cancelled
  }

  lemma StillCancelled(s: State, e: Event, c: Id)
    requires Guard(s, e) && IsCancelled(s, c)
    ensures IsCancelled(Next(s, e), c)
  {
  }

  lemma {:induction false} CancelledForEver(es: seq<Event>, k: nat)
    requires Run(es) && k < |es| && Cancels(es[k].a)
    ensures IsCancelled(After(es), es[k].c)
  {
    var before := es[..|es| - 1];
    if k < |es| - 1 {
      CancelledForEver(before, k);
      assert before[k] == es[k];
      StillCancelled(After(before), es[|es| - 1], es[k].c);
    }
  }

  ghost predicate CancelledBy(es: seq<Event>, c: Id) {
    exists k :: 0 <= k < |es| && es[k].c == c && Cancels(es[k].a)
  }

  lemma NewlyCancelled(s: State, e: Event, c: Id)
    requires Guard(s, e) && !IsCancelled(s, c) && IsCancelled(Next(s, e), c)
    ensures e.c == c && Cancels(e.a)
  {
  }

  // And nothing else cancels it.
  lemma {:induction false} CancelledIff(es: seq<Event>, c: Id)
    requires Run(es)
    ensures IsCancelled(After(es), c) <==> CancelledBy(es, c)
  {
    if k :| 0 <= k < |es| && es[k].c == c && Cancels(es[k].a) {
      CancelledForEver(es, k);
    }
    if es != [] && IsCancelled(After(es), c) {
      var before := es[..|es| - 1];
      CancelledIff(before, c);
      if IsCancelled(After(before), c) {
        var k :| 0 <= k < |before| && before[k].c == c && Cancels(before[k].a);
        assert es[k] == before[k];
      } else {
        NewlyCancelled(After(before), es[|es| - 1], c);
      }
    }
  }

  // No goroutine but the body is left behind: from a state in which its context is cancelled, nine
  // steps of a client's own goroutines are enough to end them all.

  predicate AllEnded(x: Client) {
    x.pc in {Done, Errored} && x.handler in {Off, Gone} && x.watcher in {Absent, Finished} && x.listener != Open
  }

  predicate EndingStep(a: Action) {
    a in {NotifyFails, ListenFails, LockFails, DelayElapses, OpSeesCancel, Release, Return, WatcherStops,
          WatcherCancels, HandlerGivesUp, HandlerSeesClose, PreemptionTimesOut, ForceUnlock}
  }

  function MainToEnd(pc: Pc): nat {
    match pc
    case Done => 0
    case Errored => 0
    case Delaying => 6
    case Operating => 3
    case Returning => 2
    case Preempted => 2
    case _ => 1
  }

  function ToEnd(x: Client): (n: nat)
    ensures n <= 11
  {
    MainToEnd(x.pc) + WatcherLeft(if x.watcher == Absent then Finished else x.watcher)
    + HandlerLeft(if x.handler == Off then Gone else x.handler)
  }

  lemma NextEndingStep(c: Id, x: Client, free: bool) returns (a: Action)
    requires Consistent(c, x) && x.cancelled && !AllEnded(x)
    ensures EndingStep(a) && LocalGuard(x, free, a) && ToEnd(Local(c, x, a)) < ToEnd(x)
  {
    a := match x.pc
         case Created => NotifyFails
         case Notified => ListenFails
         case Waiting => LockFails
         case Delaying => DelayElapses
         case Operating => OpSeesCancel
         case Preempted => Release
         case Returning => Release
         case Released => Return
         case _ =>
           if x.watcher == Armed then WatcherStops
           else if x.watcher in {Got, Stopped} then WatcherCancels
           else if x.handler == Watching then if x.listener == Closed then HandlerSeesClose else HandlerGivesUp
           else if x.handler == Handing then PreemptionTimesOut
           else ForceUnlock;
  }

  lemma {:induction false} EndingSteps(s: State, c: Id) returns (more: seq<Event>)
    requires Inv(s) && IsCancelled(s, c)
    ensures |more| <= ToEnd(s.clients[c])
    ensures forall e :: e in more ==> e.c == c && EndingStep(e.a)
    ensures Play(s, more).Some? && c in Play(s, more).value.clients && AllEnded(Play(s, more).value.clients[c])
    decreases ToEnd(s.clients[c])
  {
    if AllEnded(s.clients[c]) {
      more := [];
    } else {
      var a := NextEndingStep(c, s.clients[c], s.owner == None);
      var e := Event(c, a);
      InvStep(s, e);
      StillCancelled(s, e, c);
      var rest := EndingSteps(Next(s, e), c);
      more := [e] + rest;
      assert more[1..] == rest;
    }
  }

  lemma GoroutinesEnd(es: seq<Event>, c: Id) returns (more: seq<Event>)
    requires Run(es) && IsCancelled(After(es), c)
    ensures |more| <= 9
    ensures forall e :: e in more ==> e.c == c && EndingStep(e.a)
    ensures Run(es + more) && c in After(es + more).clients && AllEnded(After(es + more).clients[c])
  {
    Reachable(es);
    assert ToEnd(After(es).clients[c]) <= 9;
    more := EndingSteps(After(es), c);
    PlayIsRun(es, After(es), more);
  }

  // A lock that is kept by a pooled session.
  predicate Kept(s: State, c: Id) {
    c in s.clients && s.clients[c].listener == Closed && s.clients[c].sessionOpen && s.owner == Some(c)
  }

  ghost predicate SessionStays(more: seq<Event>, c: Id) {
    forall e :: e in more ==> e != Event(c, SessionDies)
  }

  lemma KeptLocal(c: Id, x: Client, a: Action)
    requires Consistent(c, x) && LocalGuard(x, false, a) && x.listener == Closed && x.sessionOpen && a != SessionDies
    ensures Local(c, x, a).listener == Closed && Local(c, x, a).sessionOpen && NewOwner(Some(c), c, x, a) == Some(c)
  {
  }

  lemma KeptStep(s: State, e: Event, c: Id)
    requires Inv(s) && Guard(s, e) && Kept(s, c) && e != Event(c, SessionDies)
    ensures Kept(Next(s, e), c) && e.a != Grant && e.a != GrantThenError
  {
    if e.c == c && e.a != Arrive {
      KeptLocal(c, s.clients[c], e.a);
    }
  }

  // After a failed unlock nobody is granted the lock any more, as long as the pooled session lives.
  lemma {:induction false} KeptForEver(es: seq<Event>, more: seq<Event>, c: Id)
    requires Run(es) && Kept(After(es), c) && Run(es + more) && SessionStays(more, c)
    ensures Kept(After(es + more), c)
    ensures forall e :: e in more ==> e.a != Grant && e.a != GrantThenError
    decreases |more|
  {
    if more == [] {
      assert es + more == es;
    } else {
      var before, e := more[..|more| - 1], more[|more| - 1];
      assert (es + more)[..|es + more| - 1] == es + before;
      assert forall x :: x in more <==> x in before || x == e;
      assert e in more;
      KeptForEver(es, before, c);
      Reachable(es + before);
      KeptStep(After(es + before), e, c);
    }
  }

  // What the protocol does not promise: five runs, for any two clients.

  ghost predicate BothRunning(s: State, c: Id, d: Id) {
    && c in s.clients && d in s.clients
    && s.clients[c].body == Running && s.clients[d].body == Running
  }

  lemma Step(es: seq<Event>, s: State, c: Id, a: Action) returns (longer: seq<Event>, t: State)
    requires Reaches(es, s) && Guard(s, Event(c, a))
    ensures longer == es + [Event(c, a)] && Reaches(longer, t) && t == Next(s, Event(c, a))
  {
    longer, t := es + [Event(c, a)], Next(s, Event(c, a));
    Extend(es, Event(c, a));
  }

  ghost predicate OnlyBy(first: seq<Event>, es: seq<Event>, c: Id) {
    first <= es && forall i :: |first| <= i < |es| ==> es[i].c == c
  }

  // From its arrival, a client can come to wait for the lock.
  lemma Contend(first: seq<Event>, s: State, c: Id) returns (es: seq<Event>, t: State)
    requires Reaches(first, s) && c !in s.clients
    ensures Reaches(es, t) && first <= es && t.clients.Keys == s.clients.Keys + {c} && t.owner == s.owner
    ensures t.clients[c] == NEWCOMER.(pc := Waiting, listener := Open, handler := Watching)
    ensures forall i :: i in s.clients ==> t.clients[i] == Deliver(s.clients[i], c)
    ensures OnlyBy(first, es, c)
  {
    es, t := Step(first, s, c, Arrive);
    es, t := Step(es, t, c, SendNotify);
    es, t := Step(es, t, c, Listen);
  }

  // A waiting client can take a free lock and start its body.
  lemma TakeOver(first: seq<Event>, s: State, c: Id) returns (es: seq<Event>, t: State)
    requires Reaches(first, s) && c in s.clients && s.owner == None
    requires s.clients[c].pc == Waiting && s.clients[c].sessionOpen
    ensures Reaches(es, t) && first <= es && t.owner == Some(c)
    ensures t.clients == s.clients[c := s.clients[c].(pc := Operating, watcher := Armed, body := Running)]
    ensures OnlyBy(first, es, c)
  {
    es, t := Step(first, s, c, Grant);
    es, t := Step(es, t, c, DelayElapses);
    es, t := Step(es, t, c, BodyStarts);
  }

  lemma OneOperatesOneWaits(c: Id, d: Id) returns (es: seq<Event>, s: State)
    requires c != d
    ensures Reaches(es, s) && s.clients.Keys == {c, d} && s.owner == Some(c)
    ensures s.clients[c] == NEWCOMER.(pc := Operating, listener := Open, queue := [d], handler := Watching,
                            watcher := Armed, body := Running)
    ensures s.clients[d] == NEWCOMER.(pc := Waiting, listener := Open, handler := Watching)
  {
    es, s := Contend([], INIT, c);
    es, s := TakeOver(es, s, c);
    es, s := Contend(es, s, d);
  }

  // The body of a cancelled operation may still run when the next holder's body starts.
  lemma TwoBodiesMayRun(c: Id, d: Id) returns (es: seq<Event>, s: State)
    requires c != d
    ensures Reaches(es, s) && BothRunning(s, c, d)
    ensures s.clients[c].cancelled && !s.clients[d].cancelled
  {
    es, s := OneOperatesOneWaits(c, d);
    es, s := Step(es, s, c, HandlerReads);
    es, s := Step(es, s, c, WatcherReceives);
    es, s := Step(es, s, c, WatcherCancels);
    es, s := ReleaseCancelled(es, s, c);
    es, s := TakeOver(es, s, d);
  }

  // A cancelled operation releases its lock whatever its body does.
  lemma ReleaseCancelled(first: seq<Event>, s: State, c: Id) returns (es: seq<Event>, t: State)
    requires Reaches(first, s) && c in s.clients && s.clients[c].pc == Operating && s.clients[c].cancelled
    ensures Reaches(es, t) && first <= es && t.clients == s.clients[c := Unlocked(s.clients[c]).(pc := Released)]
    ensures t.owner == if s.owner == Some(c) && s.clients[c].listener != Closed then None else s.owner
  {
    es, t := Step(first, s, c, OpSeesCancel);
    es, t := Step(es, t, c, Release);
  }

  // When a session ends unnoticed, two uncancelled bodies may run: the live session is needed.
  lemma LostSessionBreaksExclusion(c: Id, d: Id) returns (es: seq<Event>, s: State)
    requires c != d
    ensures Reaches(es, s) && BothRunning(s, c, d)
    ensures !s.clients[c].cancelled && !s.clients[d].cancelled
    ensures !s.clients[c].sessionOpen && s.clients[d].sessionOpen
  {
    es, s := OneOperatesOneWaits(c, d);
    es, s := Step(es, s, c, SessionDies);
    es, s := TakeOver(es, s, d);
  }

  lemma BothWait(c: Id, d: Id) returns (es: seq<Event>, s: State)
    requires c != d
    ensures Reaches(es, s) && s.clients.Keys == {c, d} && s.owner == None
    ensures s.clients[c] == NEWCOMER.(pc := Waiting, listener := Open, queue := [d], handler := Watching)
    ensures s.clients[d] == NEWCOMER.(pc := Waiting, listener := Open, handler := Watching)
  {
    es, s := Contend([], INIT, c);
    es, s := Contend(es, s, d);
  }

  // A waiting client that nobody takes the preemption from.
  lemma PreemptedWhileWaiting(c: Id, d: Id) returns (es: seq<Event>, s: State)
    requires c != d
    ensures Reaches(es, s) && s.clients.Keys == {c, d} && s.owner == None
    ensures s.clients[c] == NEWCOMER.(pc := Waiting, listener := Open, handler := Unlocking)
    ensures s.clients[d] == NEWCOMER.(pc := Waiting, listener := Open, handler := Watching)
  {
    es, s := BothWait(c, d);
    es, s := Step(es, s, c, HandlerReads);
    es, s := Step(es, s, c, PreemptionTimesOut);
  }

  // It is unlocked as soon as it is granted the lock, and operates all the same.
  lemma OperatesUnlocked(first: seq<Event>, s: State, c: Id) returns (es: seq<Event>, t: State)
    requires Reaches(first, s) && c in s.clients && s.owner == None
    requires s.clients[c].pc == Waiting && s.clients[c].handler == Unlocking
    requires s.clients[c].listener == Open && s.clients[c].sessionOpen
    ensures Reaches(es, t) && t.owner == None
    ensures t.clients == s.clients[c := s.clients[c].(pc := Operating, sessionOpen := false, listener := Closed,
                                    handler := Gone, watcher := Armed, body := Running)]
  {
    es, t := Step(first, s, c, Grant);
    es, t := Step(es, t, c, ForceUnlock);
    es, t := Step(es, t, c, DelayElapses);
    es, t := Step(es, t, c, BodyStarts);
  }

  // So two uncancelled bodies may run without any session being lost.
  lemma ForcedUnlockBreaksExclusion(c: Id, d: Id) returns (es: seq<Event>, s: State)
    requires c != d
    ensures Reaches(es, s) && BothRunning(s, c, d)
    ensures !s.clients[c].cancelled && !s.clients[d].cancelled
    ensures s.owner == Some(d)
  {
    es, s := PreemptedWhileWaiting(c, d);
    es, s := OperatesUnlocked(es, s, c);
    es, s := TakeOver(es, s, d);
  }

  // Two contenders that both notify before either listens are both left unpreempted,
  // one of them operating and the other waiting for the lock.
  lemma ContendersMayMissEachOther(c: Id, d: Id) returns (es: seq<Event>, s: State)
    requires c != d
    ensures Reaches(es, s) && BothWaitedFor(s, c, d)
    ensures Event(c, SendNotify) in es && Event(d, SendNotify) in es
    ensures !Obliged(s, c) && !Obliged(s, d)
  {
    es, s := BothNotify(c, d);
    es, s := Step(es, s, c, Listen);
    es, s := Step(es, s, d, Listen);
    es, s := TakeOver(es, s, c);
  }

  ghost predicate BothWaitedFor(s: State, c: Id, d: Id) {
    && c in s.clients && s.clients[c].pc == Operating
    && d in s.clients && s.clients[d].pc == Waiting
  }

  lemma BothNotify(c: Id, d: Id) returns (es: seq<Event>, s: State)
    requires c != d
    ensures Reaches(es, s) && s == State(map[c := NEWCOMER.(pc := Notified), d := NEWCOMER.(pc := Notified)], None)
    ensures Event(c, SendNotify) in es && Event(d, SendNotify) in es
  {
    es, s := Step([], INIT, c, Arrive);
    es, s := Step(es, s, d, Arrive);
    es, s := Step(es, s, c, SendNotify);
    es, s := Step(es, s, d, SendNotify);
  }

  // A failed unlock keeps the lock although its operation has returned: a run for any two clients.
  lemma FailedUnlockKeepsLock(c: Id, d: Id) returns (es: seq<Event>, s: State)
    requires c != d
    ensures Reaches(es, s) && Kept(s, c) && s.clients[c].pc == Done
    ensures d in s.clients && s.clients[d].pc == Waiting
  {
    es, s := OneOperatesOneWaits(c, d);
    es, s := Step(es, s, c, BodyEnds);
    es, s := Step(es, s, c, OpReturns);
    es, s := Step(es, s, c, ReleaseFails);
    es, s := Step(es, s, c, Return);
  }

  // A lock that was granted when it had failed already is held by nobody's operation, until its handler
  // gives up: a run for any two clients.
  lemma FailedMayHoldLock(c: Id, d: Id) returns (es: seq<Event>, s: State)
    requires c != d
    ensures Reaches(es, s) && HasFailed(s, c) && s.owner == Some(c) && !Obliged(s, c)
    ensures d in s.clients && s.clients[d].pc == Waiting
  {
    es, s := BothNotify(c, d);
    es, s := Step(es, s, c, Listen);
    es, s := Step(es, s, d, Listen);
    es, s := Step(es, s, c, GrantThenError);
  }

  // Exclusion of uncancelled bodies, and the live session that it takes.

  ghost predicate Leaves(more: seq<Event>, c: Id) {
    forall e :: e in more ==> e.c != c
  }

  // Other clients' steps do no more than deliver notifications.
  lemma {:induction false} UntouchedRun(es: seq<Event>, more: seq<Event>, c: Id)
    requires Run(es) && Run(es + more) && Leaves(more, c) && c in After(es).clients
    ensures c in After(es + more).clients
    ensures var x, y := After(es).clients[c], After(es + more).clients[c]; y == x.(queue := y.queue)
    decreases |more|
  {
    if more == [] {
      assert es + more == es;
    } else {
      var before, e := more[..|more| - 1], more[|more| - 1];
      assert (es + more)[..|es + more| - 1] == es + before;
      assert forall x :: x in before ==> x in more;
      assert e in more;
      UntouchedRun(es, before, c);
    }
  }

  lemma {:induction false} UnusedId(ids: set<Id>) returns (d: Id)
    ensures forall i :: i in ids ==> i < d
    decreases ids
  {
    if ids == {} {
      d := 0;
    } else {
      var i :| i in ids;
      var e := UnusedId(ids - {i});
      d := if i < e then e else i + 1;
      assert forall j :: j in ids ==> j == i || j in ids - {i};
    }
  }

  // With the lock free or another's, that other's session may end, and a newcomer take over.

  lemma FreeTheLock(es: seq<Event>, s: State, c: Id) returns (more: seq<Event>, t: State)
    requires Reaches(es, s) && s.owner != Some(c)
    ensures Leaves(more, c) && Reaches(es + more, t) && t.owner == None && t.clients.Keys == s.clients.Keys
  {
    Reachable(es);
    if s.owner == None {
      more, t := [], s;
      assert es + more == es;
    } else {
      var o := s.owner.value;
      var longer;
      longer, t := Step(es, s, o, SessionDies);
      more := [Event(o, SessionDies)];
    }
  }

  lemma NewcomerTakesOver(es: seq<Event>, s: State, c: Id) returns (more: seq<Event>, d: Id)
    requires Reaches(es, s) && c in s.clients && s.owner == None
    ensures Leaves(more, c) && d != c && Run(es + more) && Critical(After(es + more), d)
  {
    d := UnusedId(s.clients.Keys);
    var a, t := Contend(es, s, d);
    var b, u := TakeOver(a, t, d);
    more := StepsOf(es, a, b, c, d);
  }

  lemma StepsOf(es: seq<Event>, a: seq<Event>, b: seq<Event>, c: Id, d: Id) returns (more: seq<Event>)
    requires OnlyBy(es, a, d) && OnlyBy(a, b, d) && c != d
    ensures es + more == b && Leaves(more, c)
  {
    more := b[|es|..];
    forall i | |es| <= i < |b|
      ensures b[i].c == d
    {
      assert i < |a| ==> b[i] == a[i];
    }
  }

  lemma Usurper(es: seq<Event>, c: Id) returns (more: seq<Event>, d: Id)
    requires Run(es) && c in After(es).clients && After(es).owner != Some(c)
    ensures Leaves(more, c) && d != c && Run(es + more) && Critical(After(es + more), d)
  {
    var a, t := FreeTheLock(es, After(es), c);
    var b;
    b, d := NewcomerTakesOver(es + a, t, c);
    more := a + b;
    assert es + a + b == es + more;
  }

  ghost predicate Alone(es: seq<Event>, c: Id) {
    forall more, d :: Leaves(more, c) && Run(es + more) && Critical(After(es + more), d) ==> d == c
  }

  // While a client's body runs uncancelled, no other client's body can come to run uncancelled with
  // a live session, whatever all other clients do, exactly if its own session is alive.
  lemma ExclusionIff(es: seq<Event>, c: Id)
    requires Run(es) && c in After(es).clients
    requires After(es).clients[c].body == Running && !After(es).clients[c].cancelled
    ensures Alone(es, c) <==> After(es).clients[c].sessionOpen
  {
    Reachable(es);
    if After(es).clients[c].sessionOpen {
      forall more, d | Leaves(more, c) && Run(es + more) && Critical(After(es + more), d)
        ensures d == c
      {
        UntouchedRun(es, more, c);
        MutualExclusion(es + more, c, d);
      }
    } else {
      var more, d := Usurper(es, c);
      assert !Alone(es, c);
    }
  }
}
