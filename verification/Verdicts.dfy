/** Which connection failure ends the session: ConnTracker of hud/net/tcp_tracker.go and the rule all three
    listeners share - retire the connection, then judge its failure by who else is still tracked
    (hud/net/pxc.go, hud/net/stream_dta.go, hud/net/stream_ctrl.go). */
module Verdicts {
  type Conn = nat

  class ConnTracker {
    var connections: set<Conn>

    constructor ()
      ensures connections == {}
    {
      connections := {};
    }

    method Add(conn: Conn)
      modifies this
      ensures connections == old(connections) + {conn}
    {
      connections := connections + {conn};
    }

    method Remove(conn: Conn)
      modifies this
      ensures connections == old(connections) - {conn}
    {
      connections := connections - {conn};
    }

    /** Everyone tracked but the one given, which need not be tracked itself. */
    method Others(conn: Conn) returns (others: nat)
      ensures others == |connections - {conn}|
    {
      others := 0;
      var left := connections;
      ghost var counted: set<Conn> := {};
      while left != {}
        invariant left <= connections && counted == connections - left - {conn}
        invariant others == |counted|
        decreases |left|
      {
        var c :| c in left;
        left := left - {c};
        if c != conn {
          others := others + 1;
          assert connections - left - {conn} == counted + {c};
          counted := counted + {c};
        } else {
          assert connections - left - {conn} == counted;
        }
      }
      assert counted == connections - {conn};
    }
  }

  /** A judged failure: fatal, or the notice that so many others are still served. */
  datatype Verdict = Fatal(conn: Conn) | Survivable(conn: Conn, others: nat)

  method ConnectionError(tracker: ConnTracker, conn: Conn) returns (v: Verdict)
    ensures v == VerdictOn(tracker.connections, conn)
  {
    var others := tracker.Others(conn);
    if others == 0 {
      return Fatal(conn);
    }
    return Survivable(conn, others);
  }

  function VerdictOn(tracked: set<Conn>, conn: Conn): Verdict {
    if tracked - {conn} == {} then Fatal(conn) else Survivable(conn, |tracked - {conn}|)
  }

  /** The closure fail of the three handleConn loops, past its stop check. */
  method Fail(tracker: ConnTracker, conn: Conn) returns (v: Verdict)
    modifies tracker
    ensures tracker.connections == old(tracker.connections) - {conn}
    ensures v == VerdictOn(old(tracker.connections) - {conn}, conn)
    ensures v.Fatal? <==> old(tracker.connections) <= {conn}
  {
    tracker.Remove(conn);
    v := ConnectionError(tracker, conn);
  }

  // ---------- every interleaving of dying connections ----------

  /** Where a connection's goroutine is. Failing is between the failed read, found not to be our own
      teardown, and the removal; Retired is between the removal and the verdict. */
  datatype Phase = Serving | Failing | Retired | Judged | Leaving | Gone

  /** Past its own removal from the tracker. */
  predicate IsRemoved(p: Phase) {
    p.Retired? || p.Judged? || p.Gone?
  }

  datatype Listener = Listener(tracked: set<Conn>, phase: map<Conn, Phase>, stopping: bool, verdicts: seq<Verdict>)

  datatype Step =
    | Open(c: Conn)          // handleConn starts: tracker.Add
    | ReadFails(c: Conn)
    | Retire(c: Conn)        // tracker.Remove inside fail
    | Judge(c: Conn)         // connectionError inside fail
    | JudgeWrite(c: Conn)    // a failed write, judged without retiring the connection
    | LeaveQuietly(c: Conn)  // magic mismatch, or a read that failed because we are stopping
    | CleanUp(c: Conn)       // the deferred tracker.Remove
    | BeginStop

  const EMPTY := Listener({}, map[], false, [])

  predicate In(s: Listener, c: Conn, p: Phase) {
    c in s.phase && s.phase[c] == p
  }

  predicate Enabled(s: Listener, step: Step) {
    match step
    case Open(c) => c !in s.phase
    case ReadFails(c) => In(s, c, Serving) && !s.stopping
    case Retire(c) => In(s, c, Failing)
    case Judge(c) => In(s, c, Retired)
    case JudgeWrite(c) => c in s.phase
    case LeaveQuietly(c) => In(s, c, Serving)
    case CleanUp(c) => In(s, c, Judged) || In(s, c, Leaving)
    case BeginStop => true
  }

  function Next(s: Listener, step: Step): Listener
    requires Enabled(s, step)
  {
    match step
    case Open(c) => s.(tracked := s.tracked + {c}, phase := s.phase[c := Serving])
    case ReadFails(c) => s.(phase := s.phase[c := Failing])
    case Retire(c) => s.(tracked := s.tracked - {c}, phase := s.phase[c := Retired])
    case Judge(c) => s.(phase := s.phase[c := Judged], verdicts := s.verdicts + [VerdictOn(s.tracked, c)])
    case JudgeWrite(c) => s.(verdicts := s.verdicts + [VerdictOn(s.tracked, c)])
    case LeaveQuietly(c) => s.(phase := s.phase[c := Leaving])
    case CleanUp(c) => s.(tracked := s.tracked - {c}, phase := s.phase[c := Gone])
    case BeginStop => s.(stopping := true)
  }

  ghost predicate ValidRun(s: Listener, steps: seq<Step>)
    decreases |steps|
  {
    steps == [] || (Enabled(s, steps[0]) && ValidRun(Next(s, steps[0]), steps[1..]))
  }

  ghost function After(s: Listener, steps: seq<Step>): Listener
    requires ValidRun(s, steps)
    decreases |steps|
  {
    if steps == [] then s else After(Next(s, steps[0]), steps[1..])
  }

  /** Tracked are exactly the connections that have not been removed yet. */
  ghost predicate TrackedExactly(s: Listener) {
    forall c :: c in s.tracked <==> c in s.phase && !IsRemoved(s.phase[c])
  }

  lemma {:induction false} TrackingKept(s: Listener, steps: seq<Step>)
    requires TrackedExactly(s) && ValidRun(s, steps)
    ensures TrackedExactly(After(s, steps))
    decreases |steps|
  {
    if steps != [] {
      TrackingKept(Next(s, steps[0]), steps[1..]);
    }
  }

  lemma {:induction false} RunSplits(s: Listener, steps: seq<Step>, i: nat)
    requires ValidRun(s, steps) && i <= |steps|
    ensures ValidRun(s, steps[..i]) && ValidRun(After(s, steps[..i]), steps[i..])
    ensures After(After(s, steps[..i]), steps[i..]) == After(s, steps)
    decreases |steps|
  {
    if i == 0 {
      assert steps[..0] == [] && steps[0..] == steps;
    } else {
      var t, head, tail := Next(s, steps[0]), steps[..i], steps[i..];
      RunSplits(t, steps[1..], i - 1);
      assert head[0] == steps[0] && head[1..] == steps[1..][..i - 1];
      assert tail == steps[1..][i - 1..];
      assert ValidRun(s, head) && After(s, head) == After(t, head[1..]);
    }
  }

  /** The listener as step i finds it. */
  ghost function Before(steps: seq<Step>, i: nat): Listener
    requires ValidRun(EMPTY, steps) && i <= |steps|
  {
    RunSplits(EMPTY, steps, i);
    After(EMPTY, steps[..i])
  }

  /** A verdict is fatal exactly when, at that instant, every other connection ever opened has already been
      removed from the tracker: nobody else is being served, or is still on its way to fail. */
  lemma FatalOnlyWhenAlone(steps: seq<Step>, i: nat)
    requires ValidRun(EMPTY, steps) && i < |steps| && (steps[i].Judge? || steps[i].JudgeWrite?)
    ensures var s := Before(steps, i);
      var c := steps[i].c;
      VerdictOn(s.tracked, c).Fatal? <==>
        forall d :: d in s.phase && d != c ==> IsRemoved(s.phase[d])
  {
    RunSplits(EMPTY, steps, i);
    TrackingKept(EMPTY, steps[..i]);
    var s, c := Before(steps, i), steps[i].c;
    if VerdictOn(s.tracked, c).Fatal? {
      forall d | d in s.phase && d != c ensures IsRemoved(s.phase[d]) {
        assert d !in s.tracked - {c} && d !in s.tracked;
        assert TrackedExactly(s);
      }
    }
  }

  /** The step takes a tracked connection out of the tracker. */
  predicate Removes(s: Listener, step: Step) {
    (step.Retire? || step.CleanUp?) && step.c in s.tracked
  }

  lemma {:induction false} VerdictsGrow(s: Listener, steps: seq<Step>)
    requires ValidRun(s, steps)
    ensures s.verdicts <= After(s, steps).verdicts
    decreases |steps|
  {
    if steps != [] {
      VerdictsGrow(Next(s, steps[0]), steps[1..]);
    }
  }

  /** From the moment a retired connection finds the tracker empty and no new one comes, its verdict is
      fatal, whatever else happens in between. */
  lemma {:induction false} RetiredLastDiesFatally(s: Listener, steps: seq<Step>, c: Conn)
    requires ValidRun(s, steps) && s.tracked == {} && In(s, c, Retired)
    requires forall k :: 0 <= k < |steps| ==> !steps[k].Open?
    requires !In(After(s, steps), c, Retired)
    ensures Fatal(c) in After(s, steps).verdicts
    decreases |steps|
  {
    if steps != [] {
      var t := Next(s, steps[0]);
      if steps[0] == Judge(c) {
        assert t.verdicts[|s.verdicts|] == Fatal(c);
        VerdictsGrow(t, steps[1..]);
        assert After(s, steps).verdicts[|s.verdicts|] == Fatal(c);
      } else {
        RetiredLastDiesFatally(t, steps[1..], c);
      }
    }
  }

  lemma {:induction false} NothingRemoved(s: Listener, steps: seq<Step>)
    requires ValidRun(s, steps)
    requires forall k :: 0 <= k < |steps| ==> !steps[k].Open?
    requires forall k :: 0 <= k < |steps| ==> !RemovesAt(s, steps, k)
    ensures After(s, steps).tracked == s.tracked
    decreases |steps|
  {
    if steps != [] {
      assert !RemovesAt(s, steps, 0);
      assert steps[..0] == [];
      var t := Next(s, steps[0]);
      forall k | 0 <= k < |steps| - 1 ensures !RemovesAt(t, steps[1..], k) {
        RunSplits(s, steps, k + 1);
        RunSplits(t, steps[1..], k);
        assert steps[..k + 1][1..] == steps[1..][..k];
        assert !RemovesAt(s, steps, k + 1);
      }
      NothingRemoved(t, steps[1..]);
    }
  }

  ghost predicate RemovesAt(s: Listener, steps: seq<Step>, k: nat)
    requires ValidRun(s, steps) && k < |steps|
  {
    RunSplits(s, steps, k);
    Removes(After(s, steps[..k]), steps[k])
  }

  /** What steps i + 1 and later do is a run of its own, from the state step i leaves. */
  lemma RunAfter(steps: seq<Step>, i: nat)
    requires ValidRun(EMPTY, steps) && i < |steps|
    ensures ValidRun(EMPTY, steps[..i]) && Enabled(After(EMPTY, steps[..i]), steps[i])
    ensures var t := Next(After(EMPTY, steps[..i]), steps[i]);
      && ValidRun(EMPTY, steps[..i + 1]) && After(EMPTY, steps[..i + 1]) == t
      && ValidRun(t, steps[i + 1..]) && After(t, steps[i + 1..]) == After(EMPTY, steps)
  {
    var all, rest := steps[..i + 1], steps[i + 1..];
    RunSplits(EMPTY, steps, i + 1);
    TakeOneMore(steps, i);
    RunBehind(EMPTY, steps[..i], steps[i], all, rest, After(EMPTY, steps));
  }

  lemma TakeOneMore(steps: seq<Step>, i: nat)
    requires i < |steps|
    ensures steps[..i + 1] == steps[..i] + [steps[i]]
  {
  }

  lemma RunBehind(s: Listener, head: seq<Step>, step: Step, all: seq<Step>, rest: seq<Step>, end: Listener)
    requires all == head + [step] && ValidRun(s, all)
    requires ValidRun(After(s, all), rest) && After(After(s, all), rest) == end
    ensures ValidRun(s, head) && Enabled(After(s, head), step)
    ensures var t := Next(After(s, head), step);
      After(s, all) == t && ValidRun(t, rest) && After(t, rest) == end
  {
    LastStepOf(s, head, step, all);
  }

  lemma LastStepOf(s: Listener, head: seq<Step>, step: Step, all: seq<Step>)
    requires all == head + [step] && ValidRun(s, all)
    ensures ValidRun(s, head) && Enabled(After(s, head), step) && After(s, all) == Next(After(s, head), step)
  {
    LastStep(s, head, step);
  }

  lemma RestRemovesNothing(steps: seq<Step>, i: nat, k: nat)
    requires ValidRun(EMPTY, steps) && i + 1 + k < |steps|
    requires !RemovesAt(EMPTY, steps, i + 1 + k)
    ensures ValidRun(EMPTY, steps[..i + 1]) && ValidRun(After(EMPTY, steps[..i + 1]), steps[i + 1..])
    ensures !RemovesAt(After(EMPTY, steps[..i + 1]), steps[i + 1..], k)
  {
    RunSplits(EMPTY, steps, i + 1);
    SplitTwice(EMPTY, steps, i + 1, k);
  }

  /** The connections other than c that have not been removed yet. */
  function StillServed(s: Listener, c: Conn): set<Conn> {
    set d | d in s.phase && d != c && !IsRemoved(s.phase[d])
  }

  /** What a run records. A judging step adds one verdict, for its own connection: fatal exactly when every other
      connection opened so far has been removed, otherwise a notice with the number of those that have not. No
      other step adds one, and what is recorded stays. */
  lemma RecordedExactly(steps: seq<Step>, i: nat)
    requires ValidRun(EMPTY, steps) && i < |steps|
    ensures Before(steps, i + 1).verdicts <= After(EMPTY, steps).verdicts
    ensures var s, s', step := Before(steps, i), Before(steps, i + 1), steps[i];
      if step.Judge? || step.JudgeWrite? then
        && |s'.verdicts| == |s.verdicts| + 1 && s'.verdicts[..|s.verdicts|] == s.verdicts
        && var v := s'.verdicts[|s.verdicts|];
           && v.conn == step.c
           && (v.Fatal? <==> forall d :: d in s.phase && d != step.c ==> IsRemoved(s.phase[d]))
           && (v.Survivable? ==> v.others == |StillServed(s, step.c)| > 0)
      else s'.verdicts == s.verdicts
  {
    RunAfter(steps, i);
    VerdictsGrow(Before(steps, i + 1), steps[i + 1..]);
    var s, step := Before(steps, i), steps[i];
    if step.Judge? || step.JudgeWrite? {
      FatalOnlyWhenAlone(steps, i);
      TrackingKept(EMPTY, steps[..i]);
      assert s.tracked - {step.c} == StillServed(s, step.c);
    }
  }

  /** A connection is judged by fail at most once. */
  lemma {:induction false} JudgedOnce(s: Listener, steps: seq<Step>, c: Conn)
    requires ValidRun(s, steps) && c in s.phase && s.phase[c] in {Judged, Gone}
    ensures Judge(c) !in steps
    decreases |steps|
  {
    if steps != [] {
      JudgedOnce(Next(s, steps[0]), steps[1..], c);
      assert steps == [steps[0]] + steps[1..];
    }
  }

  /** ... and not at all if it is still being served when the listener begins to stop: its read then fails
      because of us. */
  lemma {:induction false} StoppingJudgesNobodyNew(s: Listener, steps: seq<Step>, c: Conn)
    requires ValidRun(s, steps) && s.stopping
    requires c in s.phase && s.phase[c] in {Serving, Leaving, Gone}
    ensures Judge(c) !in steps && Retire(c) !in steps
    decreases |steps|
  {
    if steps != [] {
      StoppingJudgesNobodyNew(Next(s, steps[0]), steps[1..], c);
      assert steps == [steps[0]] + steps[1..];
    }
  }

  lemma EachJudgedOnce(steps: seq<Step>, i: nat)
    requires ValidRun(EMPTY, steps) && i < |steps| && steps[i].Judge?
    ensures steps[i] !in steps[i + 1..]
  {
    RunAfter(steps, i);
    JudgedOnce(Next(Before(steps, i), steps[i]), steps[i + 1..], steps[i].c);
  }

  // ---------- what the last removal decides ----------

  predicate NoOpens(steps: seq<Step>) {
    forall k :: 0 <= k < |steps| ==> !steps[k].Open?
  }

  ghost predicate AllGone(s: Listener) {
    forall c :: c in s.phase ==> s.phase[c] == Gone
  }

  ghost predicate SomeoneRetired(s: Listener) {
    exists c :: In(s, c, Retired)
  }

  predicate SomeWriteJudged(steps: seq<Step>) {
    exists k :: 0 <= k < |steps| && steps[k].JudgeWrite?
  }

  predicate SomeFatal(verdicts: seq<Verdict>) {
    exists k :: 0 <= k < |verdicts| && verdicts[k].Fatal?
  }

  /** With the tracker empty and nobody connecting, a verdict is reached by the connections that are retired and
      not judged yet, and by failed writes, and by nothing else; every one of them is fatal. */
  lemma {:induction false} EmptyTrackerVerdicts(s: Listener, steps: seq<Step>)
    requires ValidRun(s, steps) && TrackedExactly(s) && s.tracked == {} && NoOpens(steps)
    requires AllGone(After(s, steps))
    ensures s.verdicts <= After(s, steps).verdicts
    ensures var later := After(s, steps).verdicts[|s.verdicts|..];
      && (forall k :: 0 <= k < |later| ==> later[k].Fatal?)
      && (later != [] <==> SomeoneRetired(s) || SomeWriteJudged(steps))
    decreases |steps|
  {
    if steps != [] {
      var t, rest := Next(s, steps[0]), steps[1..];
      EmptyTrackerVerdicts(t, rest);
      VerdictsStep(s, steps[0], After(s, steps).verdicts);
      RetiredStep(s, steps[0]);
      assert SomeWriteJudged(steps) <==> steps[0].JudgeWrite? || SomeWriteJudged(rest) by {
        assert steps == [steps[0]] + rest;
        if k :| 0 <= k < |rest| && rest[k].JudgeWrite? {
          assert steps[k + 1].JudgeWrite?;
        }
      }
    }
  }

  /** One step with the tracker empty: it reaches a verdict, a fatal one, exactly when it judges. */
  lemma VerdictsStep(s: Listener, step: Step, final: seq<Verdict>)
    requires Enabled(s, step) && s.tracked == {} && Next(s, step).verdicts <= final
    ensures s.verdicts <= final
    ensures var more := if step.Judge? || step.JudgeWrite? then [Fatal(step.c)] else [];
      final[|s.verdicts|..] == more + final[|Next(s, step).verdicts|..]
  {
  }

  /** A connection stays retired until it is judged, and none becomes retired while nothing is tracked. */
  lemma RetiredStep(s: Listener, step: Step)
    requires Enabled(s, step) && TrackedExactly(s) && s.tracked == {} && !step.Open?
    ensures SomeoneRetired(s) <==> step.Judge? || SomeoneRetired(Next(s, step))
    ensures TrackedExactly(Next(s, step)) && Next(s, step).tracked == {}
  {
    var t := Next(s, step);
    if c :| In(s, c, Retired) {
      assert step == Judge(c) || In(t, c, Retired);
    }
    if c :| In(t, c, Retired) {
      assert In(s, c, Retired);
    }
    if step.Judge? {
      assert In(s, step.c, Retired);
    }
  }

  /** Step i of a run is the last removal, or comes later: behind it nobody connects and nothing is removed, and
      the run goes on until everyone is gone. */
  ghost predicate NothingMoreRemoved(steps: seq<Step>, i: nat) {
    && ValidRun(EMPTY, steps) && i < |steps|
    && (forall k :: i < k < |steps| ==> !steps[k].Open? && !RemovesAt(EMPTY, steps, k))
    && AllGone(After(EMPTY, steps))
  }

  /** The listener right after step i. */
  ghost function JustAfter(steps: seq<Step>, i: nat): Listener
    requires ValidRun(EMPTY, steps) && i < |steps|
  {
    Before(steps, i + 1)
  }

  /** In every interleaving: from the last removal on, a fatal verdict is reached exactly when, at that instant,
      some connection has been retired by fail and waits for its verdict, or a failed write is judged later.
      Who made the removal does not matter - a quiet exit can be last and still leave a fatal verdict to one
      retired before it - and each connection waiting then is called fatal. */
  lemma LastRemovalDecides(steps: seq<Step>, i: nat)
    requires NothingMoreRemoved(steps, i)
    ensures var s, t := JustAfter(steps, i), After(EMPTY, steps);
      && s.tracked == {} && s.verdicts <= t.verdicts
      && (SomeFatal(t.verdicts[|s.verdicts|..]) <==> SomeoneRetired(s) || SomeWriteJudged(steps[i + 1..]))
      && (forall c :: In(s, c, Retired) ==> Fatal(c) in t.verdicts)
  {
    RunAfter(steps, i);
    TrackerEndsEmpty(steps, i);
    TrackingKept(EMPTY, steps[..i + 1]);
    var s, rest := JustAfter(steps, i), steps[i + 1..];
    EmptyTrackerVerdicts(s, rest);
    var later := After(EMPTY, steps).verdicts[|s.verdicts|..];
    assert later != [] ==> later[0].Fatal?;
    forall c | In(s, c, Retired) ensures Fatal(c) in After(EMPTY, steps).verdicts {
      GoneWasKnown(s, rest, c);
      RetiredLastDiesFatally(s, rest, c);
    }
  }

  /** So when the last removal is made by fail, that connection's verdict is fatal: if the dash goes away and
      every connection fails, one of the deaths ends the session. */
  lemma LastDeathIsFatal(steps: seq<Step>, i: nat)
    requires NothingMoreRemoved(steps, i) && steps[i].Retire?
    ensures Fatal(steps[i].c) in After(EMPTY, steps).verdicts
  {
    RunAfter(steps, i);
    LastRemovalDecides(steps, i);
    assert In(JustAfter(steps, i), steps[i].c, Retired);
  }

  lemma TrackerEndsEmpty(steps: seq<Step>, i: nat)
    requires ValidRun(EMPTY, steps) && i < |steps|
    requires forall k :: i < k < |steps| ==> !steps[k].Open? && !RemovesAt(EMPTY, steps, k)
    requires AllGone(After(EMPTY, steps))
    ensures ValidRun(EMPTY, steps[..i + 1]) && After(EMPTY, steps[..i + 1]).tracked == {}
  {
    RunAfter(steps, i);
    var t, rest := After(EMPTY, steps[..i + 1]), steps[i + 1..];
    forall k | 0 <= k < |rest| ensures !RemovesAt(t, rest, k) {
      assert !RemovesAt(EMPTY, steps, i + 1 + k);
      RestRemovesNothing(steps, i, k);
    }
    NothingRemoved(t, rest);
    TrackingKept(EMPTY, steps);
  }

  lemma LastStep(s: Listener, steps: seq<Step>, step: Step)
    requires ValidRun(s, steps + [step])
    ensures ValidRun(s, steps) && Enabled(After(s, steps), step)
    ensures After(s, steps + [step]) == Next(After(s, steps), step)
  {
    RunSplits(s, steps + [step], |steps|);
    assert (steps + [step])[..|steps|] == steps && (steps + [step])[|steps|..] == [step];
    assert [step][1..] == [];
  }

  lemma SplitTwice(s: Listener, steps: seq<Step>, i: nat, k: nat)
    requires ValidRun(s, steps) && i + k <= |steps|
    ensures ValidRun(s, steps[..i]) && ValidRun(After(s, steps[..i]), steps[i..][..k])
    ensures ValidRun(s, steps[..i + k])
    ensures After(After(s, steps[..i]), steps[i..][..k]) == After(s, steps[..i + k])
  {
    RunSplits(s, steps, i + k);
    RunSplits(s, steps[..i + k], i);
    assert steps[..i + k][..i] == steps[..i] && steps[..i + k][i..] == steps[i..][..k];
  }

  lemma {:induction false} GoneWasKnown(s: Listener, steps: seq<Step>, c: Conn)
    requires ValidRun(s, steps) && c in s.phase
    ensures c in After(s, steps).phase
    decreases |steps|
  {
    if steps != [] {
      GoneWasKnown(Next(s, steps[0]), steps[1..], c);
    }
  }

  /** A listener whose only connection fails the magic check dies without any verdict. */
  lemma MagicMismatchLeavesNoVerdict()
    ensures var steps := [Open(0), LeaveQuietly(0), CleanUp(0)];
      ValidRun(EMPTY, steps) && After(EMPTY, steps).tracked == {} && After(EMPTY, steps).verdicts == []
  {
    var steps := [Open(0), LeaveQuietly(0), CleanUp(0)];
    assert steps[1..] == [LeaveQuietly(0), CleanUp(0)] && steps[1..][1..] == [CleanUp(0)];
    assert steps[1..][1..][1..] == [];
    var s1 := Next(EMPTY, Open(0));
    var s2 := Next(s1, LeaveQuietly(0));
    assert ValidRun(s2, [CleanUp(0)]);
    assert ValidRun(s1, steps[1..]);
  }
}
