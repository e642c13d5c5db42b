/** LiveStreamSource over whole runs: every sequence of pushes, polls, activity probes and consumer
    resets, whoever makes them - each one holds the source's lock from start to end. */
module LiveRuns {
  import opened Bytes
  import opened AnnexB
  import opened NalScan
  import opened LiveSource

  datatype Op =
    | PushOp(au: Frame, now: Time)
    | PollOp(now: Time)
    | ProbeOp(now: Time)
    | PrepareOp

  function Apply(s: Live, op: Op): Live {
    match op
    case PushOp(au, now) => Push(s, au, now)
    case PollOp(now) => Poll(s, now).0
    case ProbeOp(now) => Probe(s, now).0
    case PrepareOp => Prepare(s)
  }

  /** The frame a step hands out, if it is a poll that hands one out. */
  function Returned(s: Live, op: Op): Option<Frame> {
    if op.PollOp? then Poll(s, op.now).1 else None
  }

  /** The step throws away everything queued: a consumer reset, or a poll or probe that sees the
      input timeout. */
  predicate Resets(s: Live, op: Op) {
    match op
    case PushOp(_, _) => false
    case PollOp(now) => TimedOut(s, now)
    case ProbeOp(now) => TimedOut(s, now)
    case PrepareOp => true
  }

  /** The step puts a frame in the queue. */
  predicate Accepts(s: Live, op: Op) {
    op.PushOp? && op.au != [] && Admits(s, op.au)
  }

  function Run(s0: Live, ops: seq<Op>): Live {
    if ops == [] then s0 else Apply(Run(s0, ops[..|ops| - 1]), ops[|ops| - 1])
  }

  /** The source as step j finds it. */
  function Before(s0: Live, ops: seq<Op>, j: nat): Live
    requires j <= |ops|
  {
    Run(s0, ops[..j])
  }

  predicate ResetAt(s0: Live, ops: seq<Op>, j: nat) {
    j < |ops| && Resets(Before(s0, ops, j), ops[j])
  }

  predicate AcceptedAt(s0: Live, ops: seq<Op>, j: nat) {
    j < |ops| && Accepts(Before(s0, ops, j), ops[j])
  }

  /** No reset after step i, up to and including the step before n. */
  predicate NoReset(s0: Live, ops: seq<Op>, i: nat, n: nat) {
    forall j: nat :: i < j < n ==> !ResetAt(s0, ops, j)
  }

  // ---------- bookkeeping: which push each frame came from, and what became of it ----------

  datatype Fate = Popped | Dropped

  /** A frame handed out: by which step, from which push, whether again, and the fates of the frames
      accepted before it since the last reset. */
  datatype Emission = Emission(step: nat, push: nat, again: bool, fates: seq<Fate>)

  datatype History = History(
    accepted: seq<nat>,          // the pushes accepted since the last reset, in order
    fates: seq<Fate>,            // what became of the first |fates| of them; the others are queued
    lastPopped: Option<nat>,
    emissions: seq<Emission>)    // everything handed out in the whole run

  const NOTHING := History([], [], None, [])

  function Cleared(h: History): History {
    History([], [], None, h.emissions)
  }

  function Track(h: History, s: Live, op: Op, n: nat): History {
    if Resets(s, op) then Cleared(h)
    else if Accepts(s, op) then
      h.(accepted := h.accepted + [n], fates := h.fates + if Overflows(s) then [Dropped] else [])
    else if op.PollOp? && s.active && s.queue != [] && |h.fates| < |h.accepted| then
      var push := h.accepted[|h.fates|];
      h.(fates := h.fates + [Popped], lastPopped := Some(push),
         emissions := h.emissions + [Emission(n, push, false, h.fates)])
    else if op.PollOp? && s.active && Repeatable(s) && h.lastPopped.Some? then
      h.(emissions := h.emissions + [Emission(n, h.lastPopped.value, true, h.fates)])
    else h
  }

  function HistoryOf(s0: Live, ops: seq<Op>): History {
    if ops == [] then NOTHING
    else
      var n := |ops| - 1;
      Track(HistoryOf(s0, ops[..n]), Run(s0, ops[..n]), ops[n], n)
  }

  // ---------- the invariant of every run ----------

  predicate Initial(s0: Live) {
    s0.capacity > 0 && s0.queue == [] && s0.lastAU == None && !s0.active && s0.lastInput == None
    && s0.awaitIDR == !s0.passThrough
  }

  predicate PushAt(ops: seq<Op>, i: nat) {
    i < |ops| && ops[i].PushOp?
  }

  /** The frame step i pushed. */
  function FrameOf(ops: seq<Op>, i: nat): Frame {
    if PushAt(ops, i) then ops[i].au else []
  }

  function FramesOf(ops: seq<Op>, pushes: seq<nat>): (r: seq<Frame>)
    ensures |r| == |pushes|
  {
    seq(|pushes|, k requires 0 <= k < |pushes| => FrameOf(ops, pushes[k]))
  }

  /** The queue is what is left of the accepted frames, in the order they were pushed. */
  ghost predicate QueueInv(ops: seq<Op>, s: Live, h: History) {
    && |h.fates| + |s.queue| == |h.accepted| && |s.queue| <= s.capacity
    && AllBelowStep(h.accepted, |ops|)
    && s.queue == FramesOf(ops, h.accepted[|h.fates|..])
  }

  predicate AllBelowStep(pushes: seq<nat>, n: nat) {
    && (forall k :: 0 <= k < |pushes| ==> pushes[k] < n)
    && (forall i, j :: 0 <= i < j < |pushes| ==> pushes[i] < pushes[j])
  }

  ghost predicate AcceptedInv(s0: Live, ops: seq<Op>, h: History) {
    forall i: nat :: i in h.accepted <==> AcceptedAt(s0, ops, i) && NoReset(s0, ops, i, |ops|)
  }

  ghost predicate GateInv(ops: seq<Op>, s: Live, h: History) {
    !s.passThrough ==>
      && (s.awaitIDR <==> h.accepted == [])
      && (h.accepted != [] ==> h.accepted[0] < |ops| && CarriesIdr(FrameOf(ops, h.accepted[0])))
  }

  /** Push step i was accepted since the last reset and its frame has been popped. */
  ghost predicate WasPopped(h: History, i: nat) {
    exists k :: 0 <= k < |h.fates| && k < |h.accepted| && h.fates[k] == Popped && h.accepted[k] == i
  }

  ghost predicate LastInv(ops: seq<Op>, s: Live, h: History) {
    if h.lastPopped.Some? then
      && s.lastAU == Some(FrameOf(ops, h.lastPopped.value))
      && h.lastPopped.value < |ops| && WasPopped(h, h.lastPopped.value)
    else
      s.lastAU == None
  }

  predicate SameConfig(s: Live, s0: Live) {
    s.capacity == s0.capacity && s.passThrough == s0.passThrough && s.liveTimeout == s0.liveTimeout
  }

  ghost predicate RunInv(s0: Live, ops: seq<Op>) {
    var s, h := Run(s0, ops), HistoryOf(s0, ops);
    && SameConfig(s, s0) && QueueInv(ops, s, h) && AcceptedInv(s0, ops, h) && GateInv(ops, s, h)
    && LastInv(ops, s, h)
  }

  lemma BeforeStable(s0: Live, ops: seq<Op>, op: Op)
    ensures forall j :: 0 <= j <= |ops| ==> Before(s0, ops + [op], j) == Before(s0, ops, j)
    ensures Run(s0, ops + [op]) == Apply(Run(s0, ops), op)
    ensures HistoryOf(s0, ops + [op]) == Track(HistoryOf(s0, ops), Run(s0, ops), op, |ops|)
  {
    var more := ops + [op];
    assert more[..|ops|] == ops;
    forall j | 0 <= j <= |ops| ensures Before(s0, more, j) == Before(s0, ops, j) {
      assert more[..j] == ops[..j];
    }
    assert ops[..|ops|] == ops;
  }

  /** Extending a run moves no reset and no acceptance. */
  lemma FactsStable(s0: Live, ops: seq<Op>, op: Op)
    ensures forall j: nat :: j < |ops| ==> (ResetAt(s0, ops + [op], j) <==> ResetAt(s0, ops, j))
    ensures forall j: nat :: j < |ops| ==> (AcceptedAt(s0, ops + [op], j) <==> AcceptedAt(s0, ops, j))
    ensures ResetAt(s0, ops + [op], |ops|) <==> Resets(Run(s0, ops), op)
    ensures AcceptedAt(s0, ops + [op], |ops|) <==> Accepts(Run(s0, ops), op)
  {
    BeforeStable(s0, ops, op);
    assert Before(s0, ops, |ops|) == Run(s0, ops) by { assert ops[..|ops|] == ops; }
    assert forall j :: 0 <= j < |ops| ==> (ops + [op])[j] == ops[j];
  }

  lemma NoResetGrows(s0: Live, ops: seq<Op>, op: Op, i: nat)
    requires i < |ops|
    ensures NoReset(s0, ops + [op], i, |ops| + 1) <==> NoReset(s0, ops, i, |ops|) && !Resets(Run(s0, ops), op)
  {
    var more := ops + [op];
    FactsStable(s0, ops, op);
    if NoReset(s0, more, i, |ops| + 1) {
      assert !ResetAt(s0, more, |ops|);
      forall j: nat | i < j < |ops| ensures !ResetAt(s0, ops, j) {
        assert !ResetAt(s0, more, j);
      }
    }
    if NoReset(s0, ops, i, |ops|) && !Resets(Run(s0, ops), op) {
      forall j: nat | i < j < |ops| + 1 ensures !ResetAt(s0, more, j) {
        if j < |ops| {
          assert !ResetAt(s0, ops, j);
        }
      }
    }
  }

  lemma AcceptedStep(s0: Live, ops: seq<Op>, op: Op)
    requires RunInv(s0, ops)
    ensures AcceptedInv(s0, ops + [op], HistoryOf(s0, ops + [op]))
  {
    BeforeStable(s0, ops, op);
    FactsStable(s0, ops, op);
    var s, h, n := Run(s0, ops), HistoryOf(s0, ops), |ops|;
    var h' := HistoryOf(s0, ops + [op]);
    forall i: nat
      ensures i in h'.accepted <==> AcceptedAt(s0, ops + [op], i) && NoReset(s0, ops + [op], i, n + 1)
    {
      assert i in h.accepted <==> AcceptedAt(s0, ops, i) && NoReset(s0, ops, i, n);
      if i < n {
        NoResetGrows(s0, ops, op, i);
      }
    }
  }

  lemma FramesStable(ops: seq<Op>, op: Op, pushes: seq<nat>)
    requires forall k :: 0 <= k < |pushes| ==> pushes[k] < |ops|
    ensures FramesOf(ops + [op], pushes) == FramesOf(ops, pushes)
  {
    forall k | 0 <= k < |pushes| ensures FrameOf(ops + [op], pushes[k]) == FrameOf(ops, pushes[k]) {
    }
  }

  lemma FramesSplit(ops: seq<Op>, pushes: seq<nat>, n: nat)
    requires n <= |pushes|
    ensures FramesOf(ops, pushes)[n..] == FramesOf(ops, pushes[n..])
    ensures FramesOf(ops, pushes)[..n] == FramesOf(ops, pushes[..n])
  {
  }

  lemma QueueStep(ops: seq<Op>, s: Live, h: History, op: Op)
    requires QueueInv(ops, s, h) && s.capacity > 0
    ensures QueueInv(ops + [op], Apply(s, op), Track(h, s, op, |ops|))
    ensures SameConfig(Apply(s, op), s)
  {
    if Resets(s, op) {
    } else if Accepts(s, op) {
      AcceptStep(ops, s, h, op);
    } else {
      PopStep(ops, s, h, op);
    }
  }

  /** A poll, or a step that leaves the queue alone. */
  lemma PopStep(ops: seq<Op>, s: Live, h: History, op: Op)
    requires QueueInv(ops, s, h) && !Resets(s, op) && !Accepts(s, op)
    ensures QueueInv(ops + [op], Apply(s, op), Track(h, s, op, |ops|))
    ensures SameConfig(Apply(s, op), s)
  {
    var pending := h.accepted[|h.fates|..];
    FramesStable(ops, op, pending);
    if op.PollOp? && s.active && s.queue != [] {
      FramesSplit(ops + [op], pending, 1);
      assert h.accepted[|h.fates| + 1..] == pending[1..];
    }
  }

  lemma AcceptStep(ops: seq<Op>, s: Live, h: History, op: Op)
    requires QueueInv(ops, s, h) && s.capacity > 0 && Accepts(s, op)
    ensures QueueInv(ops + [op], Apply(s, op), Track(h, s, op, |ops|))
  {
    var h' := Track(h, s, op, |ops|);
    var lost := if Overflows(s) then 1 else 0;
    var pending := h.accepted[|h.fates|..];
    var kept := pending[lost..];
    FramesSplit(ops, pending, lost);
    FramesStable(ops, op, kept);
    FramesSnoc(ops, op, kept);
    assert h'.accepted[|h'.fates|..] == kept + [|ops|];
  }

  lemma FramesSnoc(ops: seq<Op>, op: Op, kept: seq<nat>)
    requires op.PushOp?
    ensures FramesOf(ops + [op], kept + [|ops|]) == FramesOf(ops + [op], kept) + [op.au]
  {
  }

  lemma GateStep(ops: seq<Op>, s: Live, h: History, op: Op)
    requires s.capacity > 0 && QueueInv(ops, s, h) && GateInv(ops, s, h)
    ensures GateInv(ops + [op], Apply(s, op), Track(h, s, op, |ops|))
  {
  }

  lemma LastStep(ops: seq<Op>, s: Live, h: History, op: Op)
    requires s.capacity > 0 && QueueInv(ops, s, h) && LastInv(ops, s, h)
    ensures LastInv(ops + [op], Apply(s, op), Track(h, s, op, |ops|))
  {
    var h' := Track(h, s, op, |ops|);
    if !Resets(s, op) {
      if op.PollOp? && s.active && s.queue != [] {
        var n := |h.fates|;
        assert s.queue[0] == FrameOf(ops, h.accepted[n]);
        assert h'.fates[n] == Popped && h'.accepted[n] == h'.lastPopped.value;
      } else if h.lastPopped.Some? {
        var k :| 0 <= k < |h.fates| && k < |h.accepted| && h.fates[k] == Popped && h.accepted[k] == h.lastPopped.value;
        assert h'.fates[k] == Popped && h'.accepted[k] == h.lastPopped.value;
      }
    }
  }

  lemma {:induction false} RunKeepsInvariant(s0: Live, ops: seq<Op>)
    requires Initial(s0)
    ensures RunInv(s0, ops)
    decreases |ops|
  {
    if ops != [] {
      var n := |ops| - 1;
      RunKeepsInvariant(s0, ops[..n]);
      assert ops == ops[..n] + [ops[n]];
      AcceptedStep(s0, ops[..n], ops[n]);
      var s, h := Run(s0, ops[..n]), HistoryOf(s0, ops[..n]);
      QueueStep(ops[..n], s, h, ops[n]);
      GateStep(ops[..n], s, h, ops[n]);
      LastStep(ops[..n], s, h, ops[n]);
    }
  }

  // ---------- what is handed out ----------

  /** The frame of e was accepted, and nothing was thrown away between then and now; before it, at or
      after the last reset, an IDR had been accepted; and handing it out again is harmless. */
  ghost predicate EmissionOk(s0: Live, ops: seq<Op>, e: Emission) {
    && e.push < e.step < |ops|
    && Returned(Before(s0, ops, e.step), ops[e.step]) == Some(FrameOf(ops, e.push))
    && AcceptedAt(s0, ops, e.push) && NoReset(s0, ops, e.push, e.step + 1)
    && (!s0.passThrough ==>
          && (exists g: nat :: g <= e.push && IdrSince(s0, ops, g, e.step))
          && (e.again || e.fates == [] ==> CarriesIdr(FrameOf(ops, e.push))))
  }

  /** Push g was accepted, carries an IDR, and no reset has happened from there through step j. */
  ghost predicate IdrSince(s0: Live, ops: seq<Op>, g: nat, j: nat) {
    AcceptedAt(s0, ops, g) && CarriesIdr(FrameOf(ops, g)) && NoReset(s0, ops, g, j + 1)
  }

  lemma EmissionStable(s0: Live, ops: seq<Op>, op: Op, e: Emission)
    requires EmissionOk(s0, ops, e)
    ensures EmissionOk(s0, ops + [op], e)
  {
    var more := ops + [op];
    BeforeStable(s0, ops, op);
    FactsStable(s0, ops, op);
    NoResetStable(s0, ops, op, e.push, e.step + 1);
    if !s0.passThrough {
      var g: nat :| g <= e.push && IdrSince(s0, ops, g, e.step);
      NoResetStable(s0, ops, op, g, e.step + 1);
      assert FrameOf(more, g) == FrameOf(ops, g);
      assert IdrSince(s0, more, g, e.step);
    }
  }

  lemma NoResetStable(s0: Live, ops: seq<Op>, op: Op, i: nat, n: nat)
    requires n <= |ops|
    ensures NoReset(s0, ops + [op], i, n) <==> NoReset(s0, ops, i, n)
  {
    FactsStable(s0, ops, op);
    forall j: nat | i < j < n ensures ResetAt(s0, ops + [op], j) <==> ResetAt(s0, ops, j) {
    }
    if NoReset(s0, ops + [op], i, n) {
      assert forall j: nat :: i < j < n ==> !ResetAt(s0, ops + [op], j);
    }
  }

  /** The log of a run has one entry more than before its last step, made by that step. */
  ghost predicate NewestOk(s0: Live, ops: seq<Op>, log: seq<Emission>, log': seq<Emission>) {
    && |log'| == |log| + 1 && log' == log + [log'[|log|]]
    && log'[|log|].step == |ops| - 1 && EmissionOk(s0, ops, log'[|log|])
  }

  /** The emission the last step of a run adds. */
  lemma NewEmissionOk(s0: Live, ops: seq<Op>, op: Op)
    requires s0.capacity > 0 && RunInv(s0, ops)
    requires Returned(Run(s0, ops), op).Some?
    ensures NewestOk(s0, ops + [op], HistoryOf(s0, ops).emissions, HistoryOf(s0, ops + [op]).emissions)
  {
    BeforeStable(s0, ops, op);
    FactsStable(s0, ops, op);
    assert ops[..|ops|] == ops;
    forall i: nat | i < |ops| && NoReset(s0, ops, i, |ops|) ensures NoReset(s0, ops + [op], i, |ops| + 1) {
      NoResetGrows(s0, ops, op, i);
    }
    var s, h, h' := Run(s0, ops), HistoryOf(s0, ops), HistoryOf(s0, ops + [op]);
    var more := ops + [op];
    var e := h'.emissions[|h.emissions|];
    if e.again {
      assert e.push in h.accepted;
    } else {
      assert s.queue[0] == FrameOf(ops, h.accepted[|h.fates|]);
      assert e.push in h.accepted;
    }
    assert AcceptedAt(s0, ops, e.push) && NoReset(s0, ops, e.push, |ops|);
    assert FrameOf(more, e.push) == FrameOf(ops, e.push);
    if !s0.passThrough {
      var g := h.accepted[0];
      assert g in h.accepted;
      assert FrameOf(more, g) == FrameOf(ops, g);
      assert g <= e.push && IdrSince(s0, more, g, |ops|);
      assert e.again || e.fates == [] ==> CarriesIdr(FrameOf(ops, e.push));
    }
  }

  lemma NoNewEmission(s0: Live, ops: seq<Op>, op: Op)
    requires s0.capacity > 0 && RunInv(s0, ops)
    requires Returned(Run(s0, ops), op).None?
    ensures HistoryOf(s0, ops + [op]).emissions == HistoryOf(s0, ops).emissions
  {
    BeforeStable(s0, ops, op);
  }

  /** The log is complete and ordered: one entry for every poll that handed a frame out. */
  ghost predicate LogInv(s0: Live, ops: seq<Op>) {
    var log := HistoryOf(s0, ops).emissions;
    && (forall k :: 0 <= k < |log| ==> EmissionOk(s0, ops, log[k]))
    && (forall i, j :: 0 <= i < j < |log| ==> log[i].step < log[j].step)
    && (forall j: nat :: j < |ops| && Returned(Before(s0, ops, j), ops[j]).Some? ==> Logged(log, j))
  }

  ghost predicate Logged(log: seq<Emission>, j: nat) {
    exists k :: 0 <= k < |log| && log[k].step == j
  }

  /** First-time emissions come out in push order and never twice; what is still queued is younger
      than all of them. */
  ghost predicate OrderInv(n: nat, h: History) {
    && (forall i, j :: 0 <= i < j < |h.emissions| && !h.emissions[i].again && !h.emissions[j].again ==>
          h.emissions[i].push < h.emissions[j].push)
    && (forall i, k :: 0 <= i < |h.emissions| && |h.fates| <= k < |h.accepted| ==>
          h.emissions[i].push < h.accepted[k])
    && (forall i :: 0 <= i < |h.emissions| ==> h.emissions[i].push < n)
  }

  lemma OrderStep(ops: seq<Op>, s: Live, h: History, op: Op)
    requires QueueInv(ops, s, h) && LastInv(ops, s, h) && OrderInv(|ops|, h)
    ensures OrderInv(|ops| + 1, Track(h, s, op, |ops|))
  {
    var h' := Track(h, s, op, |ops|);
    if Resets(s, op) || Accepts(s, op) || h' == h {
    } else if h'.fates != h.fates {
      PopOrder(|ops|, h, h'.emissions[|h.emissions|], h');
    } else {
      AgainOrder(|ops|, h, h'.emissions[|h.emissions|], h');
    }
  }

  lemma PopOrder(n: nat, h: History, e: Emission, h': History)
    requires OrderInv(n, h) && AllBelowStep(h.accepted, n) && |h.fates| < |h.accepted|
    requires e.push == h.accepted[|h.fates|] && h'.emissions == h.emissions + [e]
    requires h'.accepted == h.accepted && h'.fates == h.fates + [Popped]
    ensures OrderInv(n + 1, h')
  {
  }

  lemma AgainOrder(n: nat, h: History, e: Emission, h': History)
    requires OrderInv(n, h) && AllBelowStep(h.accepted, n) && WasPopped(h, e.push) && e.again
    requires h'.emissions == h.emissions + [e] && h'.accepted == h.accepted && h'.fates == h.fates
    ensures OrderInv(n + 1, h')
  {
    var k :| 0 <= k < |h.fates| && k < |h.accepted| && h.fates[k] == Popped && h.accepted[k] == e.push;
    assert forall j :: |h.fates| <= j < |h.accepted| ==> h.accepted[k] < h.accepted[j];
  }

  /** A step appends its emission to the log, if it makes one. */
  lemma LogGrows(s0: Live, ops: seq<Op>, op: Op)
    requires s0.capacity > 0 && RunInv(s0, ops)
    ensures var log, log' := HistoryOf(s0, ops).emissions, HistoryOf(s0, ops + [op]).emissions;
      if Returned(Run(s0, ops), op).Some? then NewestOk(s0, ops + [op], log, log') else log' == log
  {
    if Returned(Run(s0, ops), op).Some? {
      NewEmissionOk(s0, ops, op);
    } else {
      NoNewEmission(s0, ops, op);
    }
  }

  lemma LogEntryKept(s0: Live, ops: seq<Op>, op: Op, k: nat)
    requires s0.capacity > 0 && RunInv(s0, ops) && LogInv(s0, ops)
    requires k < |HistoryOf(s0, ops + [op]).emissions|
    ensures EmissionOk(s0, ops + [op], HistoryOf(s0, ops + [op]).emissions[k])
  {
    LogGrows(s0, ops, op);
    var log, log' := HistoryOf(s0, ops).emissions, HistoryOf(s0, ops + [op]).emissions;
    if k < |log| {
      assert log'[k] == log[k];
      assert EmissionOk(s0, ops, log[k]);
      EmissionStable(s0, ops, op, log[k]);
    }
  }

  lemma LogStaysComplete(s0: Live, ops: seq<Op>, op: Op, j: nat)
    requires s0.capacity > 0 && RunInv(s0, ops) && LogInv(s0, ops)
    requires j <= |ops| && Returned(Before(s0, ops + [op], j), (ops + [op])[j]).Some?
    ensures Logged(HistoryOf(s0, ops + [op]).emissions, j)
  {
    LogGrows(s0, ops, op);
    BeforeStable(s0, ops, op);
    var log, log' := HistoryOf(s0, ops).emissions, HistoryOf(s0, ops + [op]).emissions;
    if j < |ops| {
      assert (ops + [op])[j] == ops[j];
      assert Logged(log, j);
      StaysLogged(log, log', j);
    } else {
      assert ops[..|ops|] == ops;
      assert log'[|log|].step == j;
    }
  }

  lemma StaysLogged(log: seq<Emission>, log': seq<Emission>, j: nat)
    requires Logged(log, j) && log <= log'
    ensures Logged(log', j)
  {
    var k :| 0 <= k < |log| && log[k].step == j;
    assert log'[k].step == j;
  }

  lemma LogStep(s0: Live, ops: seq<Op>, op: Op)
    requires s0.capacity > 0 && RunInv(s0, ops) && LogInv(s0, ops)
    ensures LogInv(s0, ops + [op])
  {
    var log, log' := HistoryOf(s0, ops).emissions, HistoryOf(s0, ops + [op]).emissions;
    forall k | 0 <= k < |log'| ensures EmissionOk(s0, ops + [op], log'[k]) {
      LogEntryKept(s0, ops, op, k);
    }
    forall j: nat | j < |ops + [op]| && Returned(Before(s0, ops + [op], j), (ops + [op])[j]).Some?
      ensures Logged(log', j)
    {
      LogStaysComplete(s0, ops, op, j);
    }
    LogStaysOrdered(s0, ops, op);
  }

  lemma LogStaysOrdered(s0: Live, ops: seq<Op>, op: Op)
    requires s0.capacity > 0 && RunInv(s0, ops) && LogInv(s0, ops)
    ensures var log' := HistoryOf(s0, ops + [op]).emissions;
      forall i, j :: 0 <= i < j < |log'| ==> log'[i].step < log'[j].step
  {
    LogGrows(s0, ops, op);
    var log := HistoryOf(s0, ops).emissions;
    forall k | 0 <= k < |log| ensures log[k].step < |ops| {
      assert EmissionOk(s0, ops, log[k]);
    }
    StepsStayOrdered(log, HistoryOf(s0, ops + [op]).emissions, |ops|);
  }

  lemma StepsStayOrdered(log: seq<Emission>, log': seq<Emission>, n: nat)
    requires forall i, j :: 0 <= i < j < |log| ==> log[i].step < log[j].step
    requires forall k :: 0 <= k < |log| ==> log[k].step < n
    requires log' == log || (|log'| == |log| + 1 && log' == log + [log'[|log|]] && log'[|log|].step == n)
    ensures forall i, j :: 0 <= i < j < |log'| ==> log'[i].step < log'[j].step
  {
  }

  lemma {:induction false} LogKept(s0: Live, ops: seq<Op>)
    requires Initial(s0)
    ensures LogInv(s0, ops) && OrderInv(|ops|, HistoryOf(s0, ops))
    decreases |ops|
  {
    if ops != [] {
      var n := |ops| - 1;
      LogKept(s0, ops[..n]);
      RunKeepsInvariant(s0, ops[..n]);
      assert ops == ops[..n] + [ops[n]];
      LogStep(s0, ops[..n], ops[n]);
      BeforeStable(s0, ops[..n], ops[n]);
      OrderStep(ops[..n], Run(s0, ops[..n]), HistoryOf(s0, ops[..n]), ops[n]);
    }
  }

  // ---------- fates ----------

  ghost predicate HandedOut(h: History, push: nat) {
    exists i :: 0 <= i < |h.emissions| && !h.emissions[i].again && h.emissions[i].push == push
  }

  /** A popped frame is one that was handed out; a dropped or queued one never was. Before the first
      pop, frames are lost only from a full queue. */
  ghost predicate FateInv(s: Live, h: History) {
    && (forall k :: 0 <= k < |h.fates| && k < |h.accepted| ==>
          (h.fates[k] == Popped <==> HandedOut(h, h.accepted[k])))
    && (forall k :: |h.fates| <= k < |h.accepted| ==> !HandedOut(h, h.accepted[k]))
    && (Popped !in h.fates && h.fates != [] ==> |s.queue| == s.capacity)
  }

  lemma FateStep(ops: seq<Op>, s: Live, h: History, op: Op)
    requires s.capacity > 0 && QueueInv(ops, s, h) && OrderInv(|ops|, h) && FateInv(s, h)
    ensures FateInv(Apply(s, op), Track(h, s, op, |ops|))
  {
    var h' := Track(h, s, op, |ops|);
    if Resets(s, op) {
    } else if Accepts(s, op) {
      AcceptFates(ops, s, h, op);
    } else if op.PollOp? && s.active && s.queue != [] {
      PopFates(ops, s, h, op);
    } else if h'.emissions != h.emissions {
      HandedOutGrows(h, h');
    }
  }

  lemma AcceptFates(ops: seq<Op>, s: Live, h: History, op: Op)
    requires s.capacity > 0 && QueueInv(ops, s, h) && OrderInv(|ops|, h) && FateInv(s, h) && Accepts(s, op)
    ensures FateInv(Apply(s, op), Track(h, s, op, |ops|))
  {
    var h' := Track(h, s, op, |ops|);
    assert !HandedOut(h, |ops|);
    forall k | 0 <= k < |h'.accepted|
      ensures k < |h'.fates| ==> (h'.fates[k] == Popped <==> HandedOut(h', h'.accepted[k]))
      ensures k >= |h'.fates| ==> !HandedOut(h', h'.accepted[k])
    {
      assert HandedOut(h', h'.accepted[k]) <==> HandedOut(h, h'.accepted[k]);
      if k < |h.accepted| {
        assert h'.accepted[k] == h.accepted[k];
      }
    }
    assert Popped in h.fates ==> Popped in h'.fates by {
      assert forall k :: 0 <= k < |h.fates| ==> h'.fates[k] == h.fates[k];
    }
  }

  lemma PopFates(ops: seq<Op>, s: Live, h: History, op: Op)
    requires QueueInv(ops, s, h) && FateInv(s, h)
    requires op.PollOp? && s.active && s.queue != [] && !Resets(s, op)
    ensures FateInv(Apply(s, op), Track(h, s, op, |ops|))
  {
    var h', n := Track(h, s, op, |ops|), |h.fates|;
    HandedOutGrows(h, h');
    assert h'.fates[n] == Popped;
    forall k | 0 <= k < |h'.fates|
      ensures h'.fates[k] == Popped <==> HandedOut(h', h'.accepted[k])
    {
      if k < n {
        assert h'.fates[k] == h.fates[k] && h.accepted[k] != h.accepted[n];
      }
    }
  }

  lemma HandedOutGrows(h: History, h': History)
    requires |h'.emissions| == |h.emissions| + 1 && h'.emissions[..|h.emissions|] == h.emissions
    ensures var e := h'.emissions[|h.emissions|];
      forall push: nat :: HandedOut(h', push) <==> HandedOut(h, push) || (!e.again && push == e.push)
  {
    var e := h'.emissions[|h.emissions|];
    forall push: nat | HandedOut(h, push) ensures HandedOut(h', push) {
      var i :| 0 <= i < |h.emissions| && !h.emissions[i].again && h.emissions[i].push == push;
      assert h'.emissions[i] == h.emissions[i];
    }
    forall push: nat | HandedOut(h', push) ensures HandedOut(h, push) || (!e.again && push == e.push) {
      var i :| 0 <= i < |h'.emissions| && !h'.emissions[i].again && h'.emissions[i].push == push;
      if i < |h.emissions| {
        assert h'.emissions[i] == h.emissions[i];
      }
    }
  }

  lemma {:induction false} FatesKept(s0: Live, ops: seq<Op>)
    requires Initial(s0)
    ensures FateInv(Run(s0, ops), HistoryOf(s0, ops))
    decreases |ops|
  {
    if ops != [] {
      var n := |ops| - 1;
      FatesKept(s0, ops[..n]);
      FatesNext(s0, ops[..n], ops[n]);
    }
  }

  lemma FatesNext(s0: Live, ops: seq<Op>, op: Op)
    requires Initial(s0) && FateInv(Run(s0, ops), HistoryOf(s0, ops))
    ensures FateInv(Apply(Run(s0, ops), op), Track(HistoryOf(s0, ops), Run(s0, ops), op, |ops|))
  {
    LogKept(s0, ops);
    RunKeepsInvariant(s0, ops);
    FateStep(ops, Run(s0, ops), HistoryOf(s0, ops), op);
  }

  // ---------- the promises, over every run ----------

  /** The ring is a bounded drop-oldest queue: it holds the last frames accepted since the last reset,
      in push order, and each accepted frame is exactly one of handed out, lost to overflow, queued. */
  lemma RingIsDropOldestQueue(s0: Live, ops: seq<Op>)
    requires Initial(s0)
    ensures var s, h := Run(s0, ops), HistoryOf(s0, ops);
      && (forall i: nat :: i in h.accepted <==> AcceptedAt(s0, ops, i) && NoReset(s0, ops, i, |ops|))
      && AllBelowStep(h.accepted, |ops|)
      && |s.queue| <= s.capacity == s0.capacity
      && |h.fates| + |s.queue| == |h.accepted|
      && s.queue == FramesOf(ops, h.accepted[|h.accepted| - |s.queue|..])
      && (forall k :: 0 <= k < |h.accepted| ==>
            (HandedOut(h, h.accepted[k]) <==> k < |h.fates| && h.fates[k] == Popped))
  {
    RunKeepsInvariant(s0, ops);
    FatesKept(s0, ops);
  }

  /** Step j hands out the frame of push, accepted earlier with no reset in between. */
  ghost predicate Origin(s0: Live, ops: seq<Op>, push: nat, j: nat) {
    && push < j < |ops| && AcceptedAt(s0, ops, push) && NoReset(s0, ops, push, j + 1)
    && Returned(Before(s0, ops, j), ops[j]) == Some(FrameOf(ops, push))
  }

  /** Decode safety: whatever a poll hands out was pushed and accepted earlier with no reset since,
      and an IDR was accepted at or before it, since the last reset. */
  lemma DecodeSafety(s0: Live, ops: seq<Op>, j: nat)
    requires Initial(s0) && !s0.passThrough
    requires j < |ops| && Returned(Before(s0, ops, j), ops[j]).Some?
    ensures exists push: nat, idr: nat :: idr <= push && Origin(s0, ops, push, j) && IdrSince(s0, ops, idr, j)
  {
    LogKept(s0, ops);
    var log := HistoryOf(s0, ops).emissions;
    assert Logged(log, j);
    var k :| 0 <= k < |log| && log[k].step == j;
    assert EmissionOk(s0, ops, log[k]);
    assert Origin(s0, ops, log[k].push, j);
  }

  /** In either mode a frame handed out stems from a push. */
  lemma OriginOf(s0: Live, ops: seq<Op>, j: nat) returns (push: nat)
    requires Initial(s0) && j < |ops| && Returned(Before(s0, ops, j), ops[j]).Some?
    ensures Origin(s0, ops, push, j)
  {
    LogKept(s0, ops);
    var log := HistoryOf(s0, ops).emissions;
    assert Logged(log, j);
    var k :| 0 <= k < |log| && log[k].step == j;
    assert EmissionOk(s0, ops, log[k]);
    push := log[k].push;
  }

  /** Nothing pushed before a reset comes out after it, in either mode. */
  lemma NothingSurvivesReset(s0: Live, ops: seq<Op>, reset: nat, j: nat)
    requires Initial(s0) && ResetAt(s0, ops, reset) && reset <= j < |ops|
    requires Returned(Before(s0, ops, j), ops[j]).Some?
    ensures exists push: nat :: reset < push && Origin(s0, ops, push, j)
  {
    var push := OriginOf(s0, ops, j);
    assert push < reset ==> !ResetAt(s0, ops, reset);
  }

  /** Two entries of the log that hand out the same push hand out an IDR: a predicted frame is shown
      at most once. */
  lemma PredictedFrameShownOnce(s0: Live, ops: seq<Op>, i: nat, j: nat)
    requires Initial(s0) && !s0.passThrough
    requires i < j < |HistoryOf(s0, ops).emissions|
    requires HistoryOf(s0, ops).emissions[i].push == HistoryOf(s0, ops).emissions[j].push
    ensures CarriesIdr(FrameOf(ops, HistoryOf(s0, ops).emissions[i].push))
  {
    LogKept(s0, ops);
    var log := HistoryOf(s0, ops).emissions;
    assert EmissionOk(s0, ops, log[i]) && EmissionOk(s0, ops, log[j]);
    assert log[i].again || log[j].again;
  }

  /** First-in, first-out over the whole run: frames handed out for the first time come in push order, and an
      active source with frames queued hands out the oldest of them. */
  lemma FirstInFirstOut(s0: Live, ops: seq<Op>, now: Time)
    requires Initial(s0)
    ensures var log := HistoryOf(s0, ops).emissions;
      forall i, j :: 0 <= i < j < |log| && !log[i].again && !log[j].again ==> log[i].push < log[j].push
    ensures var s, h := Run(s0, ops), HistoryOf(s0, ops);
      s.active && !TimedOut(s, now) && s.queue != [] ==>
        |h.fates| < |h.accepted| && Poll(s, now).1 == Some(FrameOf(ops, h.accepted[|h.fates|]))
  {
    LogKept(s0, ops);
    RunKeepsInvariant(s0, ops);
    var s, h := Run(s0, ops), HistoryOf(s0, ops);
    if s.queue != [] {
      assert s.queue[0] == FrameOf(ops, h.accepted[|h.fates|..][0]);
    }
  }

  /** The first frame out after a reset is the one accepted max(0, n - capacity) places after the gate
      opened, n being the number accepted so far. It carries an IDR whenever n has not passed the
      capacity, and otherwise exactly when that frame happens to. */
  lemma FirstFrameAfterReset(s0: Live, ops: seq<Op>, now: Time)
    requires Initial(s0)
    requires var s := Run(s0, ops); s.active && !TimedOut(s, now) && s.queue != []
    requires Popped !in HistoryOf(s0, ops).fates
    ensures var s, accepted := Run(s0, ops), HistoryOf(s0, ops).accepted;
      var first := if |accepted| <= s.capacity then 0 else |accepted| - s.capacity;
      && first < |accepted| && Poll(s, now).1 == Some(FrameOf(ops, accepted[first]))
      && (!s0.passThrough ==> CarriesIdr(FrameOf(ops, accepted[0])))
  {
    RunKeepsInvariant(s0, ops);
    FatesKept(s0, ops);
    var s, h := Run(s0, ops), HistoryOf(s0, ops);
    assert s.queue[0] == FrameOf(ops, h.accepted[|h.fates|..][0]);
  }

  const IDR_FRAME: Frame := [0, 0, 1, 0x65]
  const P_FRAME: Frame := [0, 0, 1, 0x41]

  const TIGHT := Fresh(1, SECOND, false)

  /** Overflow can lose the very IDR that opened the gate: with room for one frame, an IDR and then a
      predicted frame, the first poll gets the predicted frame. */
  lemma OverflowCanLoseTheIdr()
    ensures var ops := [PushOp(IDR_FRAME, 0), PushOp(P_FRAME, 1), PollOp(2)];
      && Returned(Before(TIGHT, ops, 2), ops[2]) == Some(P_FRAME) && !CarriesIdr(P_FRAME)
      && HistoryOf(TIGHT, ops).emissions == [Emission(2, 1, false, [Dropped])]
  {
    GateOnTheFrames();
    IdrThenPredicted();
    var two, c := [PushOp(IDR_FRAME, 0), PushOp(P_FRAME, 1)], PollOp(2);
    BeforeStable(TIGHT, two, c);
    assert two + [c] == [PushOp(IDR_FRAME, 0), PushOp(P_FRAME, 1), c];
    assert (two + [c])[..2] == two;
  }

  lemma IdrThenPredicted()
    ensures var two := [PushOp(IDR_FRAME, 0), PushOp(P_FRAME, 1)];
      && Run(TIGHT, two) == TIGHT.(queue := [P_FRAME], active := true, lastInput := Some(1), awaitIDR := false)
      && HistoryOf(TIGHT, two) == History([0, 1], [Dropped], None, [])
  {
    GateOnTheFrames();
    var empty: seq<Op>, a, b := [], PushOp(IDR_FRAME, 0), PushOp(P_FRAME, 1);
    BeforeStable(TIGHT, empty, a);
    assert empty + [a] == [a];
    assert Run(TIGHT, [a]).queue == [IDR_FRAME] && !Run(TIGHT, [a]).awaitIDR;
    assert HistoryOf(TIGHT, [a]) == History([0], [], None, []);
    BeforeStable(TIGHT, [a], b);
    assert [a] + [b] == [a, b];
  }

  lemma GateOnTheFrames()
    ensures CarriesIdr(IDR_FRAME) && !CarriesIdr(P_FRAME)
  {
    assert Seen(IDR_FRAME, 0) && NalType(IDR_FRAME[3]) == IDR_TYPE;
    assert forall p: nat :: Seen(P_FRAME, p) ==> p == 0;
  }

  // ---------- liveness of the input ----------

  function TimeOf(op: Op): Option<Time> {
    match op
    case PushOp(_, now) => Some(now)
    case PollOp(now) => Some(now)
    case ProbeOp(now) => Some(now)
    case PrepareOp => None
  }

  /** The clock readings of a run never go back, and none is later than now. */
  predicate Monotone(ops: seq<Op>, now: Time) {
    && (forall i, j :: 0 <= i < j < |ops| && TimeOf(ops[i]).Some? && TimeOf(ops[j]).Some? ==>
          TimeOf(ops[i]).value <= TimeOf(ops[j]).value)
    && (forall i :: 0 <= i < |ops| && TimeOf(ops[i]).Some? ==> TimeOf(ops[i]).value <= now)
  }

  /** Step i pushed something, accepted or not. */
  predicate InputAt(ops: seq<Op>, i: nat) {
    i < |ops| && ops[i].PushOp? && ops[i].au != []
  }

  ghost predicate RecentInput(s0: Live, ops: seq<Op>, now: Time) {
    exists i: nat :: InputAt(ops, i) && now - ops[i].now <= s0.liveTimeout
  }

  ghost predicate InputInv(ops: seq<Op>, s: Live) {
    && (s.lastInput.Some? ==> exists i: nat :: InputAt(ops, i) && ops[i].now == s.lastInput.value)
    && (forall i: nat :: InputAt(ops, i) ==> s.lastInput.Some? && ops[i].now <= s.lastInput.value)
    && (s.active ==> s.lastInput.Some?)
    && (!s.active && s.lastInput.Some? ==>
          exists j :: 0 <= j < |ops| && TimeOf(ops[j]).Some? &&
            TimeOf(ops[j]).value - s.lastInput.value > s.liveTimeout)
  }

  lemma {:induction false} InputKept(s0: Live, ops: seq<Op>, now: Time)
    requires Initial(s0) && Monotone(ops, now)
    ensures InputInv(ops, Run(s0, ops)) && Run(s0, ops).liveTimeout == s0.liveTimeout
    decreases |ops|
  {
    if ops != [] {
      var n := |ops| - 1;
      MonotonePrefix(ops, n, now);
      InputKept(s0, ops[..n], now);
      InputStep(ops, Run(s0, ops[..n]));
    }
  }

  lemma MonotonePrefix(ops: seq<Op>, n: nat, now: Time)
    requires Monotone(ops, now) && n < |ops|
    ensures Monotone(ops[..n], now)
    ensures TimeOf(ops[n]).Some? ==> Monotone(ops[..n], TimeOf(ops[n]).value)
  {
  }

  lemma InputStep(ops: seq<Op>, s: Live)
    requires ops != [] && InputInv(ops[..|ops| - 1], s)
    requires var op := ops[|ops| - 1]; TimeOf(op).Some? ==> Monotone(ops[..|ops| - 1], TimeOf(op).value)
    ensures InputInv(ops, Apply(s, ops[|ops| - 1]))
  {
    var op := ops[|ops| - 1];
    if op.PushOp? && op.au != [] {
      NewInput(ops, s);
    } else {
      InputUnmoved(ops, s);
    }
  }

  lemma NewInput(ops: seq<Op>, s: Live)
    requires ops != [] && InputAt(ops, |ops| - 1)
    requires Monotone(ops[..|ops| - 1], ops[|ops| - 1].now)
    ensures InputInv(ops, Apply(s, ops[|ops| - 1]))
  {
    var n := |ops| - 1;
    assert Apply(s, ops[n]).lastInput == Some(ops[n].now) && Apply(s, ops[n]).active;
    forall i: nat | InputAt(ops, i) ensures ops[i].now <= ops[n].now {
      if i < n {
        assert ops[..n][i] == ops[i] && TimeOf(ops[..n][i]) == Some(ops[i].now);
      }
    }
  }

  lemma InputUnmoved(ops: seq<Op>, s: Live)
    requires ops != [] && !InputAt(ops, |ops| - 1) && InputInv(ops[..|ops| - 1], s)
    ensures InputInv(ops, Apply(s, ops[|ops| - 1]))
  {
    var n := |ops| - 1;
    var fewer, op := ops[..n], ops[n];
    assert forall i: nat :: i < n ==> (InputAt(fewer, i) <==> InputAt(ops, i)) && fewer[i] == ops[i];
    if s.lastInput.Some? {
      var i: nat :| InputAt(fewer, i) && fewer[i].now == s.lastInput.value;
      assert InputAt(ops, i);
      if !s.active {
        var j :| 0 <= j < n && TimeOf(fewer[j]).Some? && TimeOf(fewer[j]).value - s.lastInput.value > s.liveTimeout;
        assert ops[j] == fewer[j];
      }
    }
  }

  /** For monotone clocks the source is active exactly when something was pushed - let in or not - no
      longer than the timeout ago. */
  lemma ActiveExactly(s0: Live, ops: seq<Op>, now: Time)
    requires Initial(s0) && Monotone(ops, now)
    ensures Probe(Run(s0, ops), now).1 <==> RecentInput(s0, ops, now)
  {
    InputKept(s0, ops, now);
  }
}
