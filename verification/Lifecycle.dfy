/** Start, accept loop, connection goroutines and one Stop of the video listener in hud/net/stream_dta.go,
    interleaved: the WaitGroup, and when the Errors channel may be closed. The media control listener has
    the same shape. */
module Lifecycle {
  type Conn = nat

  /** The accept loop: between Accept calls, holding a connection before and after wg.Add, past its last
      Accept, and gone. */
  datatype Acceptor = Accepting | HasConn(c: Conn) | Counted(c: Conn) | Returning | Exited

  /** One connection goroutine: started but not in the tracker yet, serving, taken out of the tracker by a
      failure it is about to report, and gone. */
  datatype Handler = Spawned | Running | Retired | Finished

  datatype StopPhase = NotStopped | QuitClosed | ListenerClosed | ConnsClosed | GaveUp | Waited | ErrorsClosed

  datatype Server = Server(
    wg: int, acceptor: Acceptor, handlers: map<Conn, Handler>,
    tracked: set<Conn>, sockets: set<Conn>, stop: StopPhase,
    panicked: bool)          // someone sent on the closed Errors channel

  datatype Step =
    | Accept(c: Conn) | AcceptFails | Count | Spawn | AcceptorDone
    | Track(c: Conn) | Retire(c: Conn) | SendError(c: Conn) | Finish(c: Conn)
    | CloseQuit | CloseListener | CloseAll | WaitOver | TimeOut | CloseErrors

  const STARTED := Server(1, Accepting, map[], {}, {}, NotStopped, false)

  predicate Is(s: Server, c: Conn, h: Handler) {
    c in s.handlers && s.handlers[c] == h
  }

  predicate Serving(s: Server, c: Conn) {
    Is(s, c, Running) || Is(s, c, Retired)
  }

  predicate Listening(s: Server) {
    s.stop.NotStopped? || s.stop.QuitClosed?
  }

  predicate Enabled(s: Server, step: Step) {
    match step
    case Accept(c) => s.acceptor.Accepting? && Listening(s) && c !in s.handlers && c !in s.sockets
    case AcceptFails => s.acceptor.Accepting?
    case Count => s.acceptor.HasConn?
    case Spawn => s.acceptor.Counted?
    case AcceptorDone => s.acceptor.Returning?
    case Track(c) => Is(s, c, Spawned)
    case Retire(c) => Is(s, c, Running)
    case SendError(c) => Serving(s, c)
    case Finish(c) => Serving(s, c)
    case CloseQuit => s.stop.NotStopped?
    case CloseListener => s.stop.QuitClosed?
    case CloseAll => s.stop.ListenerClosed?
    case WaitOver => s.stop.ConnsClosed? && s.wg == 0
    case TimeOut => s.stop.ConnsClosed? || s.stop.Waited?   // with both ready, select takes either
    case CloseErrors => s.stop.Waited?
  }

  function Next(s: Server, step: Step): Server
    requires Enabled(s, step)
  {
    match step
    case Accept(c) => s.(acceptor := HasConn(c), sockets := s.sockets + {c})
    case AcceptFails => if s.stop.NotStopped? then s else s.(acceptor := Returning)
    case Count => s.(acceptor := Counted(s.acceptor.c), wg := s.wg + 1)
    case Spawn => s.(acceptor := Accepting, handlers := s.handlers[s.acceptor.c := Spawned])
    case AcceptorDone => s.(acceptor := Exited, wg := s.wg - 1)
    case Track(c) => s.(handlers := s.handlers[c := Running], tracked := s.tracked + {c})
    case Retire(c) => s.(handlers := s.handlers[c := Retired], tracked := s.tracked - {c})
    case SendError(c) => s.(panicked := s.panicked || s.stop.ErrorsClosed?)
    case Finish(c) =>
      s.(handlers := s.handlers[c := Finished], tracked := s.tracked - {c}, sockets := s.sockets - {c}, wg := s.wg - 1)
    case CloseQuit => s.(stop := QuitClosed)
    case CloseListener => s.(stop := ListenerClosed)
    case CloseAll => s.(stop := ConnsClosed, sockets := s.sockets - s.tracked)
    case WaitOver => s.(stop := Waited)
    case TimeOut => s.(stop := GaveUp)
    case CloseErrors => s.(stop := ErrorsClosed)
  }

  ghost predicate ValidRun(s: Server, steps: seq<Step>)
    decreases |steps|
  {
    steps == [] || (Enabled(s, steps[0]) && ValidRun(Next(s, steps[0]), steps[1..]))
  }

  ghost function After(s: Server, steps: seq<Step>): Server
    requires ValidRun(s, steps)
    decreases |steps|
  {
    if steps == [] then s else After(Next(s, steps[0]), steps[1..])
  }

  /** The connection goroutines that have not returned. */
  function Live(s: Server): set<Conn> {
    set c | c in s.handlers && !s.handlers[c].Finished?
  }

  /** Goroutines the WaitGroup has to wait for; a connection counted but not yet handed to its goroutine is
      one already. */
  function Outstanding(s: Server): nat {
    |Live(s)| + (if s.acceptor.Exited? then 0 else 1) + if s.acceptor.Counted? then 1 else 0
  }

  ghost predicate ServerInv(s: Server) {
    && s.wg == Outstanding(s)
    && (s.stop.Waited? || s.stop.ErrorsClosed? ==> s.acceptor.Exited? && Live(s) == {})
    && (s.acceptor.HasConn? || s.acceptor.Counted? ==> s.acceptor.c !in s.handlers)
    && (forall c :: Is(s, c, Finished) ==> c !in s.sockets)
    && (forall c :: c in s.tracked <==> Is(s, c, Running))
    && (s.stop.NotStopped? ==> !s.acceptor.Returning? && !s.acceptor.Exited?)
    && !s.panicked
  }

  lemma StepKeepsServer(s: Server, step: Step)
    requires ServerInv(s) && Enabled(s, step)
    ensures ServerInv(Next(s, step))
  {
    var t := Next(s, step);
    match step
    case Spawn => assert Live(t) == Live(s) + {s.acceptor.c};
    case Track(c) => assert Live(t) == Live(s);
    case Retire(c) => assert Live(t) == Live(s);
    case Finish(c) =>
      assert c in Live(s);
      assert Live(t) == Live(s) - {c};
    case SendError(c) => assert c in Live(s);
    case _ => assert Live(t) == Live(s);
  }

  lemma {:induction false} RunKeepsServer(s: Server, steps: seq<Step>)
    requires ServerInv(s) && ValidRun(s, steps)
    ensures ServerInv(After(s, steps))
    decreases |steps|
  {
    if steps != [] {
      StepKeepsServer(s, steps[0]);
      RunKeepsServer(Next(s, steps[0]), steps[1..]);
    }
  }

  /** In every interleaving with one Stop: the WaitGroup counts exactly the goroutines still out, so it never
      goes negative; the accept loop runs on until Stop begins; Errors is closed only after all of them have
      returned, and nobody ever sends on it closed. */
  lemma ErrorsClosedLast(steps: seq<Step>)
    requires ValidRun(STARTED, steps)
    ensures var s := After(STARTED, steps);
      && s.wg == Outstanding(s) >= 0
      && (s.stop.NotStopped? ==> !s.acceptor.Returning? && !s.acceptor.Exited?)
      && (s.stop.ErrorsClosed? ==> s.acceptor.Exited? && Live(s) == {} && s.wg == 0)
      && !s.panicked
  {
    assert Live(STARTED) == {};
    RunKeepsServer(STARTED, steps);
  }

  /** What can still happen then: nothing. Nobody accepts, starts, sends or closes any more. */
  lemma NothingAfterErrorsClosed(s: Server, step: Step)
    requires ServerInv(s) && s.stop.ErrorsClosed?
    ensures !Enabled(s, step)
  {
    assert forall c :: c in s.handlers ==> c !in Live(s);
  }

  /** Stop can only close Errors by way of the wait, and the wait is over when, and only when, the last
      goroutine is out. */
  lemma StopFinishesExactly(steps: seq<Step>)
    requires ValidRun(STARTED, steps) && After(STARTED, steps).stop.ConnsClosed?
    ensures var s := After(STARTED, steps);
      Enabled(s, WaitOver) <==> s.acceptor.Exited? && Live(s) == {}
  {
    assert Live(STARTED) == {};
    RunKeepsServer(STARTED, steps);
  }

  /** How far the accept loop is from its end. */
  function StepsToExit(a: Acceptor): nat {
    match a
    case HasConn(_) => 4
    case Counted(_) => 3
    case Accepting => 2
    case Returning => 1
    case Exited => 0
  }

  /** Stop never gets stuck waiting: whatever is still out when it starts to wait can come to its end, and Errors
      is closed then. */
  lemma {:induction false} StopCanFinish(s: Server) returns (t: Server)
    requires ServerInv(s) && s.stop.ConnsClosed?
    ensures Reaches(s, t) && t.stop.ErrorsClosed?
    decreases StepsToExit(s.acceptor), |Live(s)|, 1
  {
    if c :| c in Live(s) {
      t := HandlerCanFinish(s, c);
    } else if s.acceptor.Exited? {
      var u := Next(s, WaitOver);
      t := Next(u, CloseErrors);
      assert ValidRun(t, []) && After(t, []) == t;
      ReachesBy(u, CloseErrors, t);
      ReachesBy(s, WaitOver, t);
    } else {
      var step := match s.acceptor
        case HasConn(_) => Count
        case Counted(_) => Spawn
        case Accepting => AcceptFails
        case _ => AcceptorDone;
      StepKeepsServer(s, step);
      t := StopCanFinish(Next(s, step));
      ReachesBy(s, step, t);
    }
  }

  lemma HandlerCanFinish(s: Server, c: Conn) returns (t: Server)
    requires ServerInv(s) && s.stop.ConnsClosed? && c in Live(s)
    ensures Reaches(s, t) && t.stop.ErrorsClosed?
    decreases StepsToExit(s.acceptor), |Live(s)|, 0
  {
    var u := if Is(s, c, Spawned) then Next(s, Track(c)) else s;
    if Is(s, c, Spawned) {
      StepKeepsServer(s, Track(c));
    }
    StepKeepsServer(u, Finish(c));
    assert Live(u) == Live(s) && Live(Next(u, Finish(c))) == Live(s) - {c};
    t := StopCanFinish(Next(u, Finish(c)));
    ReachesBy(u, Finish(c), t);
    if Is(s, c, Spawned) {
      ReachesBy(s, Track(c), t);
    }
  }

  /** Once its context has run out it is too late: Errors stays open. */
  lemma {:induction false} GaveUpForGood(s: Server, steps: seq<Step>)
    requires s.stop.GaveUp? && ValidRun(s, steps)
    ensures After(s, steps).stop.GaveUp?
    decreases |steps|
  {
    if steps != [] {
      GaveUpForGood(Next(s, steps[0]), steps[1..]);
    }
  }

  /** CloseAll closes what is tracked at that instant. A connection accepted but not yet tracked - its goroutine
      adds itself - is missed: its socket stays open and it is served on while Stop waits. */
  lemma CloseAllCanMissAConnection()
    ensures exists s :: Reaches(STARTED, s) && s.stop.ConnsClosed? && Is(s, 0, Running) && 0 in s.sockets
  {
    var s1 := Next(STARTED, Accept(0));
    var s2 := Next(s1, Count);
    var s3 := Next(s2, Spawn);
    var s4 := Next(s3, CloseQuit);
    var s5 := Next(s4, CloseListener);
    var s6 := Next(s5, CloseAll);
    var s := Next(s6, Track(0));
    assert ValidRun(s, []) && After(s, []) == s;
    ReachesBy(s6, Track(0), s);
    ReachesBy(s5, CloseAll, s);
    ReachesBy(s4, CloseListener, s);
    ReachesBy(s3, CloseQuit, s);
    ReachesBy(s2, Spawn, s);
    ReachesBy(s1, Count, s);
    ReachesBy(STARTED, Accept(0), s);
  }

  /** Exactly what it misses: at any later time the open sockets are those CloseAll did not find in the tracker
      and whose goroutine has not returned. What it finds are the connections being served; the others are on
      their way into the tracker, or taken out of it by a failure. */
  lemma OpenAfterCloseAllExactly(steps: seq<Step>, more: seq<Step>)
    requires ValidRun(STARTED, steps) && After(STARTED, steps).stop.ListenerClosed?
    requires ValidRun(Next(After(STARTED, steps), CloseAll), more)
    ensures var s, t := After(STARTED, steps), After(Next(After(STARTED, steps), CloseAll), more);
      && t.sockets == (set c | c in s.sockets && c !in s.tracked && !Is(t, c, Finished))
      && forall c :: c in s.tracked <==> Is(s, c, Running)
  {
    assert Live(STARTED) == {};
    RunKeepsServer(STARTED, steps);
    var s := After(STARTED, steps);
    var u := Next(s, CloseAll);
    StepKeepsServer(s, CloseAll);
    var t := After(u, more);
    forall c: Conn ensures c in t.sockets <==> c in s.sockets && c !in s.tracked && !Is(t, c, Finished) {
      OpenSockets(u, more, c);
      assert OpenUntilFinished(u, t, c);
    }
  }

  predicate OpenUntilFinished(s: Server, t: Server, c: Conn) {
    c in t.sockets <==> c in s.sockets && !Is(t, c, Finished)
  }

  ghost predicate AllClosedFrom(s: Server) {
    forall more :: ValidRun(s, more) ==> After(s, more).sockets == {}
  }

  /** So CloseAll closes every connection for good exactly when every open one is in the tracker when it runs. */
  lemma CloseAllCompleteExactly(steps: seq<Step>)
    requires ValidRun(STARTED, steps) && After(STARTED, steps).stop.ListenerClosed?
    ensures var s := After(STARTED, steps);
      AllClosedFrom(Next(s, CloseAll)) <==> s.sockets <= s.tracked
  {
    var s := After(STARTED, steps);
    var u := Next(s, CloseAll);
    assert ValidRun(u, []) && After(u, []) == u;
    assert u.sockets == s.sockets - s.tracked;
    forall c | c in s.sockets && c !in s.tracked ensures c in u.sockets {
    }
    forall more | ValidRun(u, more) && s.sockets <= s.tracked ensures After(u, more).sockets == {} {
      OpenAfterCloseAllExactly(steps, more);
    }
  }

  lemma {:induction false} OpenSockets(s: Server, steps: seq<Step>, c: Conn)
    requires ServerInv(s) && !Listening(s) && !s.stop.ListenerClosed? && ValidRun(s, steps)
    ensures OpenUntilFinished(s, After(s, steps), c)
    ensures Is(s, c, Finished) ==> Is(After(s, steps), c, Finished)
    decreases |steps|
  {
    if steps != [] {
      StepKeepsServer(s, steps[0]);
      OpenSockets(Next(s, steps[0]), steps[1..], c);
    }
  }

  ghost predicate Reaches(s: Server, t: Server) {
    exists steps :: ValidRun(s, steps) && After(s, steps) == t
  }

  lemma ReachesBy(s: Server, step: Step, t: Server)
    requires Enabled(s, step) && Reaches(Next(s, step), t)
    ensures Reaches(s, t)
  {
    var rest :| ValidRun(Next(s, step), rest) && After(Next(s, step), rest) == t;
    assert ([step] + rest)[1..] == rest;
    assert ValidRun(s, [step] + rest) && After(s, [step] + rest) == t;
  }
}
