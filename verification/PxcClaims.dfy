/** The once-only claims of one PXC session - the clock answer 0x10451 and the app-status modes - with every
    connection's handler, the grace timer and the host's own calls interleaved at their locks
    (hud/net/pxc.go, hud/net/appstatus.go). */
module PxcClaims {
  import opened Bytes
  import opened PxcDispatch

  type Task = nat

  /** Something that reached the wire. */
  datatype Sent = Solicited(question: Task) | Unsolicited | Status(mode: int)

  datatype Timer = NotStarted | Running | Claimed | Over

  /** `asking` are the questions noted and not yet answered, `noted` all of them. `holding` are the status
      calls that have made their claim and not yet written. `claimedAfter` is how many questions had been
      noted when the timer made its claim, `startedFor` the dash clock that started it. */
  datatype Claims = Claims(
    hudConfig: Option<HudConf>, answered: bool, timer: Timer, sentModes: set<int>,
    asking: set<Task>, noted: set<Task>, holding: map<Task, int>,
    startedFor: Option<nat>, claimedAfter: Option<nat>, claims: seq<int>, log: seq<Sent>)

  datatype Step =
    | Note(q: Task)                        // QUERY_TIME: the question is noted, under its lock
    | Answer(q: Task, ok: bool)            // ... and answered
    | StoreConfig(conf: HudConf)           // any handler, any number of times: the nil test is not locked
    | Schedule                             // maybeScheduleProactiveQueryTime
    | TimerFires                           // the test-and-set, under the same lock
    | TimerStops                           // quit, or the connection is done
    | TimerWrites(ok: bool)
    | CallStatus(t: Task, mode: int)       // SendAppStatus up to its unlock
    | WriteStatus(t: Task, ok: bool)       // ... and the write, if there is one

  const START := Claims(None, false, NotStarted, {}, {}, {}, map[], None, None, [], [])

  predicate Enabled(s: Claims, step: Step) {
    match step
    case Note(q) => q !in s.noted
    case Answer(q, _) => q in s.asking
    case TimerFires => s.timer == Running
    case TimerStops => s.timer == Running
    case TimerWrites(_) => s.timer == Claimed
    case CallStatus(t, _) => t !in s.holding
    case WriteStatus(t, _) => t in s.holding
    case _ => true
  }

  function Logged(log: seq<Sent>, what: Sent, ok: bool): seq<Sent> {
    if ok then log + [what] else log
  }

  function Next(c: Config, s: Claims, step: Step): Claims
    requires Enabled(s, step)
  {
    match step
    case Note(q) => s.(answered := true, asking := s.asking + {q}, noted := s.noted + {q})
    case Answer(q, ok) => s.(asking := s.asking - {q}, log := Logged(s.log, Solicited(q), ok))
    case StoreConfig(conf) => s.(hudConfig := Some(conf))
    case Schedule =>
      if MayPushTime(c, s.hudConfig) && s.timer == NotStarted then
        s.(timer := Running, startedFor := Some(s.hudConfig.value.currentHUTime))
      else s
    case TimerFires =>
      if s.answered then s.(timer := Over)
      else s.(answered := true, timer := Claimed, claimedAfter := Some(|s.noted|))
    case TimerStops => s.(timer := Over)
    case TimerWrites(ok) => s.(timer := Over, log := Logged(s.log, Unsolicited, ok))
    case CallStatus(t, mode) =>
      if ClaimsStatus(c, s.sentModes, mode) then
        s.(sentModes := s.sentModes + {mode}, holding := s.holding[t := mode], claims := s.claims + [mode])
      else s
    case WriteStatus(t, ok) => s.(holding := s.holding - {t}, log := Logged(s.log, Status(s.holding[t]), ok))
  }

  ghost predicate ValidRun(c: Config, s: Claims, steps: seq<Step>)
    decreases |steps|
  {
    steps == [] || (Enabled(s, steps[0]) && ValidRun(c, Next(c, s, steps[0]), steps[1..]))
  }

  ghost function After(c: Config, s: Claims, steps: seq<Step>): Claims
    requires ValidRun(c, s, steps)
    decreases |steps|
  {
    if steps == [] then s else After(c, Next(c, s, steps[0]), steps[1..])
  }

  predicate NoRepeats<T(==)>(xs: seq<T>) {
    forall i, j :: 0 <= i < j < |xs| ==> xs[i] != xs[j]
  }

  // ---------- the clock ----------

  ghost predicate ClockInv(c: Config, s: Claims) {
    && s.asking <= s.noted
    && (s.answered <==> s.noted != {} || s.claimedAfter.Some?)
    && (s.timer != NotStarted ==>
          s.startedFor.Some? && s.startedFor.value < HU_TIME_UPTIME_CEILING
          && !c.skipDashClockSync && !c.dashAsksForTime)
    && (s.claimedAfter.Some? ==> s.claimedAfter.value == 0 && s.timer in {Claimed, Over})
    && (s.timer == Claimed ==> s.claimedAfter.Some?)
    && (forall q :: Solicited(q) in s.log ==> q in s.noted - s.asking)
    && (Unsolicited in s.log ==> s.claimedAfter.Some? && s.timer == Over)
  }

  lemma ClockStep(c: Config, s: Claims, step: Step)
    requires ClockInv(c, s) && Enabled(s, step)
    ensures ClockInv(c, Next(c, s, step))
  {
  }

  // ---------- the modes ----------

  /** A claim stays with one call until it writes; a mode is claimed at most once. */
  ghost predicate StatusInv(c: Config, s: Claims) {
    && (forall m :: m in s.claims <==> m in s.sentModes)
    && NoRepeats(s.claims)
    && (forall t :: t in s.holding ==> s.holding[t] in s.claims && Status(s.holding[t]) !in s.log)
    && (forall t, u :: t in s.holding && u in s.holding && t != u ==> s.holding[t] != s.holding[u])
    && (forall m :: Status(m) in s.log ==> m in s.claims)
    && (forall m :: m in s.claims ==> c.appStatusEnabled && (c.appStatusLiveOnly ==> m == APP_STATUS_MIRROR_LIVE))
  }

  lemma StatusStep(c: Config, s: Claims, step: Step)
    requires StatusInv(c, s) && Enabled(s, step)
    ensures StatusInv(c, Next(c, s, step))
  {
    if step.CallStatus? {
      var t := Next(c, s, step);
      assert forall m :: m in t.claims ==> m in s.claims || m == step.mode;
    }
  }

  /** Nothing on the wire is there twice. */
  ghost predicate LogInv(s: Claims) {
    NoRepeats(s.log)
  }

  lemma LogStep(c: Config, s: Claims, step: Step)
    requires ClockInv(c, s) && StatusInv(c, s) && LogInv(s) && Enabled(s, step)
    ensures LogInv(Next(c, s, step))
  {
    assert forall i :: 0 <= i < |s.log| ==> s.log[i] in s.log;
  }

  lemma {:induction false} RunKeepsClaims(c: Config, s: Claims, steps: seq<Step>)
    requires ClockInv(c, s) && StatusInv(c, s) && LogInv(s) && ValidRun(c, s, steps)
    ensures var t := After(c, s, steps); ClockInv(c, t) && StatusInv(c, t) && LogInv(t)
    decreases |steps|
  {
    if steps != [] {
      ClockStep(c, s, steps[0]);
      StatusStep(c, s, steps[0]);
      LogStep(c, s, steps[0]);
      RunKeepsClaims(c, Next(c, s, steps[0]), steps[1..]);
    }
  }

  /** In every interleaving: each question is answered at most once, there is at most one unsolicited copy,
      and it was claimed before any question was noted, for a dash whose clock read as time since boot,
      never with clock sync skipped or for a dash known to ask. Each mode is claimed at most once and
      written at most once; in live-only mode only the live one is. */
  lemma ClaimsAreOnce(c: Config, steps: seq<Step>)
    requires ValidRun(c, START, steps)
    ensures var s := After(c, START, steps);
      && NoRepeats(s.log) && NoRepeats(s.claims)
      && (forall q :: Solicited(q) in s.log ==> q in s.noted)
      && (Unsolicited in s.log || s.timer == Claimed ==>
            && s.claimedAfter == Some(0) && !c.skipDashClockSync && !c.dashAsksForTime
            && s.startedFor.Some? && s.startedFor.value < HU_TIME_UPTIME_CEILING)
      && (forall m :: Status(m) in s.log ==> m in s.claims)
      && (forall m :: m in s.claims ==> c.appStatusEnabled)
      && (c.appStatusLiveOnly ==> APP_STATUS_BACKGROUND !in s.claims)
  {
    RunKeepsClaims(c, START, steps);
  }

  /** Once a question has been noted, no later moment can make the unsolicited claim. */
  lemma {:induction false} NotedMeansNoClaim(c: Config, s: Claims, steps: seq<Step>)
    requires ValidRun(c, s, steps) && s.answered && s.claimedAfter.None? && s.timer != Claimed
    ensures var t := After(c, s, steps);
      t.claimedAfter.None? && t.timer != Claimed && (Unsolicited in t.log <==> Unsolicited in s.log)
    decreases |steps|
  {
    if steps != [] {
      NotedMeansNoClaim(c, Next(c, s, steps[0]), steps[1..]);
    }
  }

  // ---------- what is claimed, exactly ----------

  /** The dash clock known when step i is taken: the last one stored before it. */
  function ConfAt(known: Option<HudConf>, steps: seq<Step>, i: nat): Option<HudConf>
    requires i <= |steps|
    decreases i
  {
    if i == 0 then known
    else ConfAt(if steps[0].StoreConfig? then Some(steps[0].conf) else known, steps[1..], i - 1)
  }

  /** Some handler asks for the timer while the clock it knows of makes the dash want the time. */
  ghost predicate AskedFor(c: Config, known: Option<HudConf>, steps: seq<Step>) {
    exists i: nat :: AskedAt(c, known, steps, i)
  }

  predicate AskedAt(c: Config, known: Option<HudConf>, steps: seq<Step>, i: nat) {
    i < |steps| && steps[i].Schedule? && WantsTime(c, ConfAt(known, steps, i))
  }

  lemma AskedStep(c: Config, known: Option<HudConf>, steps: seq<Step>)
    requires steps != []
    ensures var later := if steps[0].StoreConfig? then Some(steps[0].conf) else known;
      AskedFor(c, known, steps) <==>
        (steps[0].Schedule? && WantsTime(c, known)) || AskedFor(c, later, steps[1..])
  {
    var later := if steps[0].StoreConfig? then Some(steps[0].conf) else known;
    if i: nat :| AskedAt(c, later, steps[1..], i) {
      assert AskedAt(c, known, steps, i + 1);
    }
    if i: nat :| AskedAt(c, known, steps, i) {
      assert i == 0 || AskedAt(c, later, steps[1..], i - 1);
    }
    assert AskedAt(c, known, steps, 0) <==> steps[0].Schedule? && WantsTime(c, known);
  }

  /** The timer is started exactly when it is asked for with an unset clock known. */
  lemma {:induction false} TimerStartsExactly(c: Config, s: Claims, steps: seq<Step>)
    requires ValidRun(c, s, steps)
    ensures After(c, s, steps).timer != NotStarted <==> s.timer != NotStarted || AskedFor(c, s.hudConfig, steps)
    decreases |steps|
  {
    if steps != [] {
      TimerStartsExactly(c, Next(c, s, steps[0]), steps[1..]);
      AskedStep(c, s.hudConfig, steps);
    }
  }

  /** The timer fires before anybody has noted a question. */
  predicate FiresFirst(steps: seq<Step>) {
    exists i :: 0 <= i < |steps| && steps[i].TimerFires? && forall k :: 0 <= k < i ==> !steps[k].Note?
  }

  lemma FiresStep(steps: seq<Step>)
    requires steps != []
    ensures FiresFirst(steps) <==> steps[0].TimerFires? || (!steps[0].Note? && FiresFirst(steps[1..]))
  {
    if !steps[0].Note? && FiresFirst(steps[1..]) {
      var rest := steps[1..];
      var i :| 0 <= i < |rest| && rest[i].TimerFires? && forall k :: 0 <= k < i ==> !rest[k].Note?;
      assert steps[i + 1].TimerFires?;
      assert forall k :: 0 < k < i + 1 ==> steps[k] == rest[k - 1];
    }
    if FiresFirst(steps) {
      var i :| 0 <= i < |steps| && steps[i].TimerFires? && forall k :: 0 <= k < i ==> !steps[k].Note?;
      if i > 0 {
        assert steps[1..][i - 1].TimerFires?;
        assert forall k :: 0 <= k < i - 1 ==> steps[1..][k] == steps[k + 1];
      }
    }
  }

  /** The unsolicited copy is claimed exactly when the timer fires before any question is noted. */
  lemma {:induction false} TimerClaimsExactly(c: Config, s: Claims, steps: seq<Step>)
    requires ValidRun(c, s, steps)
    ensures After(c, s, steps).claimedAfter.Some? <==>
      s.claimedAfter.Some? || (!s.answered && FiresFirst(steps))
    decreases |steps|
  {
    if steps != [] {
      TimerClaimsExactly(c, Next(c, s, steps[0]), steps[1..]);
      FiresStep(steps);
    }
  }

  predicate CalledFor(steps: seq<Step>, mode: int) {
    exists i :: 0 <= i < |steps| && steps[i].CallStatus? && steps[i].mode == mode
  }

  /** A mode is claimed exactly when somebody calls for it while it may be spoken of: with statuses on, and, in
      live-only mode, for the live one. */
  lemma {:induction false} ModesClaimedExactly(c: Config, s: Claims, steps: seq<Step>, mode: int)
    requires ValidRun(c, s, steps)
    ensures mode in After(c, s, steps).sentModes <==>
      mode in s.sentModes || (CalledFor(steps, mode) && c.appStatusEnabled && (c.appStatusLiveOnly ==> mode == 1))
    decreases |steps|
  {
    if steps != [] {
      var rest := steps[1..];
      ModesClaimedExactly(c, Next(c, s, steps[0]), rest, mode);
      if CalledFor(rest, mode) {
        var i :| 0 <= i < |rest| && rest[i].CallStatus? && rest[i].mode == mode;
        assert steps[i + 1] == rest[i];
      }
      if CalledFor(steps, mode) {
        var i :| 0 <= i < |steps| && steps[i].CallStatus? && steps[i].mode == mode;
        assert i == 0 || rest[i - 1] == steps[i];
      }
    }
  }

  // ---------- nothing is lost either ----------

  predicate AllWritesOk(steps: seq<Step>) {
    forall k :: 0 <= k < |steps| ==>
      (steps[k].Answer? || steps[k].TimerWrites? || steps[k].WriteStatus? ==> steps[k].ok)
  }

  ghost predicate DeliveredInv(s: Claims) {
    && (forall q :: q in s.noted ==> q in s.asking || Solicited(q) in s.log)
    && (s.claimedAfter.Some? ==> s.timer == Claimed || Unsolicited in s.log)
    && (forall m :: m in s.claims ==> Status(m) in s.log || exists t :: t in s.holding && s.holding[t] == m)
  }

  lemma {:induction false} DeliveredKept(c: Config, s: Claims, steps: seq<Step>)
    requires ClockInv(c, s) && DeliveredInv(s) && ValidRun(c, s, steps) && AllWritesOk(steps)
    ensures DeliveredInv(After(c, s, steps))
    decreases |steps|
  {
    if steps != [] {
      ClockStep(c, s, steps[0]);
      DeliveredStep(c, s, steps[0]);
      DeliveredKept(c, Next(c, s, steps[0]), steps[1..]);
    }
  }

  lemma DeliveredStep(c: Config, s: Claims, step: Step)
    requires ClockInv(c, s) && DeliveredInv(s) && Enabled(s, step)
    requires step.Answer? || step.TimerWrites? || step.WriteStatus? ==> step.ok
    ensures DeliveredInv(Next(c, s, step))
  {
    var t := Next(c, s, step);
    assert forall x :: x in s.log ==> x in t.log;
    if step.Answer? {
      assert t.log[|s.log|] == Solicited(step.q);
    } else if step.TimerWrites? {
      assert t.log[|s.log|] == Unsolicited;
    } else if step.WriteStatus? {
      assert t.log[|s.log|] == Status(s.holding[step.t]);
    }
    forall m | m in t.claims ensures Status(m) in t.log || exists u :: u in t.holding && t.holding[u] == m {
      if m in s.claims && Status(m) !in s.log {
        var u :| u in s.holding && s.holding[u] == m;
        assert (step.WriteStatus? && step.t == u) || (u in t.holding && t.holding[u] == m);
      } else if m !in s.claims {
        assert step.t in t.holding && t.holding[step.t] == m;
      }
    }
  }

  /** When all writes go through and every call has finished, 0x10451 was sent exactly once per question
      noted, and once more exactly when the timer made its claim; each claimed mode was sent. */
  lemma EveryClaimIsSent(c: Config, steps: seq<Step>)
    requires ValidRun(c, START, steps) && AllWritesOk(steps)
    requires var s := After(c, START, steps); s.asking == {} && s.holding == map[] && s.timer != Claimed
    ensures var s := After(c, START, steps);
      && NoRepeats(s.log)
      && (forall q :: Solicited(q) in s.log <==> q in s.noted)
      && (Unsolicited in s.log <==> s.claimedAfter.Some?)
      && (forall m :: Status(m) in s.log <==> m in s.claims)
  {
    RunKeepsClaims(c, START, steps);
    DeliveredKept(c, START, steps);
  }

  // ---------- the dispatch of one event is such a run ----------

  predicate Matches(session: Session, s: Claims) {
    && session.hudConfig == s.hudConfig && session.queryTimeAnswered == s.answered
    && session.graceTimerStarted == (s.timer != NotStarted) && session.sentModes == s.sentModes
  }

  /** The status call: claimed and written, or refused. */
  function StatusSteps(claims: bool, t: Task, ok: bool): seq<Step> {
    [CallStatus(t, APP_STATUS_BACKGROUND)] + if claims then [WriteStatus(t, ok)] else []
  }

  /** The steps of one handleEvent call that nobody interrupts. */
  function StepsOf(c: Config, session: Session, e: Incoming, ok: nat -> bool, control: bool, q: Task, t: Task):
    seq<Step>
  {
    if e.command == PXC_QUERY_TIME then [Note(q), Answer(q, ok(0))]
    else if e.command != PXC_HUD_CONF || session.hudConfig.Some? || e.hud.None? then []
    else if !e.buildOk || !ok(0) then [StoreConfig(e.hud.value)]
    else
      [StoreConfig(e.hud.value), Schedule]
        + StatusSteps(ClaimsStatus(c, session.sentModes, APP_STATUS_BACKGROUND), t, control && ok(1))
  }

  /** What the dispatch function says one event does is one run of these steps: it ends in the same session, with
      nothing left in progress, and logs a clock answer or a status exactly when the dispatch puts one on the
      wire. So whatever holds of every interleaving holds with whole events among its steps. */
  lemma HandleIsARun(c: Config, session: Session, s: Claims, e: Incoming, ok: nat -> bool, control: bool,
                     q: Task, t: Task)
    requires Matches(session, s) && q !in s.noted && q !in s.asking && t !in s.holding
    ensures var steps, (session', out) := StepsOf(c, session, e, ok, control, q, t), Handle(c, session, e, ok, control);
      && ValidRun(c, s, steps) && Matches(session', After(c, s, steps))
      && After(c, s, steps).asking == s.asking && After(c, s, steps).holding == s.holding
      && After(c, s, steps).log == s.log + (if PXC_QUERY_TIME + 1 in out then [Solicited(q)] else [])
                                   + if PXC_APP_STATUS in out then [Status(APP_STATUS_BACKGROUND)] else []
  {
    EmptyEnds(s.log);
    var steps := StepsOf(c, session, e, ok, control, q, t);
    if e.command == PXC_QUERY_TIME {
      QuestionIsARun(c, s, q, ok(0));
    } else if steps == [] {
      assert After(c, s, steps) == s;
    } else {
      HudConfIsARun(c, session, s, e, ok, control, t);
    }
  }

  lemma QuestionIsARun(c: Config, s: Claims, q: Task, ok: bool)
    requires q !in s.noted && q !in s.asking
    ensures ValidRun(c, s, [Note(q), Answer(q, ok)])
    ensures After(c, s, [Note(q), Answer(q, ok)])
      == s.(answered := true, noted := s.noted + {q}, log := Logged(s.log, Solicited(q), ok))
  {
    var u := Next(c, s, Note(q));
    assert [Note(q), Answer(q, ok)][1..] == [Answer(q, ok)];
    OneStep(c, u, Answer(q, ok));
    assert u.asking - {q} == s.asking;
  }

  lemma OneStep(c: Config, s: Claims, step: Step)
    requires Enabled(s, step)
    ensures ValidRun(c, s, [step]) && After(c, s, [step]) == Next(c, s, step)
  {
    assert [step][1..] == [];
    assert ValidRun(c, Next(c, s, step), []);
  }

  lemma FirstStep(c: Config, s: Claims, step: Step, rest: seq<Step>)
    requires Enabled(s, step) && ValidRun(c, Next(c, s, step), rest)
    ensures ValidRun(c, s, [step] + rest) && After(c, s, [step] + rest) == After(c, Next(c, s, step), rest)
  {
    assert ([step] + rest)[1..] == rest;
  }

  lemma StatusCallIsARun(c: Config, s: Claims, t: Task, ok: bool)
    requires t !in s.holding
    ensures var mode, claims := APP_STATUS_BACKGROUND, ClaimsStatus(c, s.sentModes, APP_STATUS_BACKGROUND);
      && ValidRun(c, s, StatusSteps(claims, t, ok))
      && After(c, s, StatusSteps(claims, t, ok)) ==
         if claims then s.(sentModes := s.sentModes + {mode}, claims := s.claims + [mode],
                           log := Logged(s.log, Status(mode), ok))
         else s
  {
    var call, write := CallStatus(t, APP_STATUS_BACKGROUND), WriteStatus(t, ok);
    var u := Next(c, s, call);
    if ClaimsStatus(c, s.sentModes, APP_STATUS_BACKGROUND) {
      OneStep(c, u, write);
      FirstStep(c, s, call, [write]);
      assert u.holding - {t} == s.holding;
    } else {
      OneStep(c, s, call);
      EmptyEnds([call]);
    }
  }

  lemma StoreThenSchedule(c: Config, s: Claims, conf: HudConf, rest: seq<Step>)
    requires ValidRun(c, Next(c, Next(c, s, StoreConfig(conf)), Schedule), rest)
    ensures ValidRun(c, s, [StoreConfig(conf), Schedule] + rest)
    ensures After(c, s, [StoreConfig(conf), Schedule] + rest)
      == After(c, Next(c, Next(c, s, StoreConfig(conf)), Schedule), rest)
  {
    FirstStep(c, Next(c, s, StoreConfig(conf)), Schedule, rest);
    FirstStep(c, s, StoreConfig(conf), [Schedule] + rest);
    assert [StoreConfig(conf)] + ([Schedule] + rest) == [StoreConfig(conf), Schedule] + rest;
  }

  lemma StatusInAnswer(c: Config, session: Session, e: Incoming, ok: nat -> bool, control: bool)
    requires e.command == PXC_HUD_CONF && Usable(session, e)
    ensures PXC_APP_STATUS in Handle(c, session, e, ok, control).1 <==>
      ok(0) && ClaimsStatus(c, session.sentModes, APP_STATUS_BACKGROUND) && control && ok(1)
  {
  }

  lemma HudConfIsARun(c: Config, session: Session, s: Claims, e: Incoming, ok: nat -> bool, control: bool, t: Task)
    requires Matches(session, s) && t !in s.holding
    requires e.command == PXC_HUD_CONF && session.hudConfig.None? && e.hud.Some?
    ensures var steps, (session', out) := StepsOf(c, session, e, ok, control, 0, t), Handle(c, session, e, ok, control);
      && ValidRun(c, s, steps) && Matches(session', After(c, s, steps))
      && After(c, s, steps).asking == s.asking && After(c, s, steps).holding == s.holding
      && After(c, s, steps).log == Logged(s.log, Status(APP_STATUS_BACKGROUND), PXC_APP_STATUS in out)
  {
    var store := StoreConfig(e.hud.value);
    if e.buildOk {
      StatusInAnswer(c, session, e, ok, control);
    }
    if !e.buildOk || !ok(0) {
      OneStep(c, s, store);
    } else {
      var u := Next(c, Next(c, s, store), Schedule);
      StatusCallIsARun(c, u, t, control && ok(1));
      StoreThenSchedule(c, s, e.hud.value,
                        StatusSteps(ClaimsStatus(c, u.sentModes, APP_STATUS_BACKGROUND), t, control && ok(1)));
    }
  }
}
