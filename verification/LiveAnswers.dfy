/** What a poll of the live source answers, which pushes the gate lets in, and when everything is forgotten -
    said of every run in terms of what was pushed and what the clocks read, not of the source's fields. */
module LiveAnswers {
  import opened Bytes
  import opened NalScan
  import opened LiveSource
  import opened LiveRuns

  // ---------- the answer of a poll ----------

  /** The push handed out last: popped, and nothing popped behind it. */
  ghost predicate LatestPopped(h: History, push: nat) {
    exists k: nat :: k < |h.fates| && k < |h.accepted| && PoppedLast(h.fates, k) && h.accepted[k] == push
  }

  predicate PoppedLast(fates: seq<Fate>, k: nat) {
    k < |fates| && fates[k] == Popped && forall j :: k < j < |fates| ==> fates[j] == Dropped
  }

  ghost predicate LatestInv(h: History) {
    if h.lastPopped.Some? then LatestPopped(h, h.lastPopped.value) else Popped !in h.fates
  }

  lemma LatestStep(ops: seq<Op>, s: Live, h: History, op: Op)
    requires QueueInv(ops, s, h) && LatestInv(h)
    ensures LatestInv(Track(h, s, op, |ops|))
  {
    var h' := Track(h, s, op, |ops|);
    if h.lastPopped.Some? && h'.lastPopped == h.lastPopped {
      var k: nat :| k < |h.fates| && k < |h.accepted| && PoppedLast(h.fates, k)
        && h.accepted[k] == h.lastPopped.value;
      assert PoppedLast(h'.fates, k) && h'.accepted[k] == h.accepted[k];
    } else if h'.lastPopped.Some? {
      assert PoppedLast(h'.fates, |h.fates|);
    }
  }

  lemma {:induction false} LatestKept(s0: Live, ops: seq<Op>)
    requires Initial(s0)
    ensures LatestInv(HistoryOf(s0, ops))
    decreases |ops|
  {
    if ops != [] {
      var n := |ops| - 1;
      LatestKept(s0, ops[..n]);
      RunKeepsInvariant(s0, ops[..n]);
      LatestStep(ops[..n], Run(s0, ops[..n]), HistoryOf(s0, ops[..n]), ops[n]);
    }
  }

  /** What a poll has to answer: nothing without recent input; the oldest accepted frame neither handed out nor
      lost; with none left, the one handed out last if showing it again is safe. */
  ghost function Due(s0: Live, ops: seq<Op>, now: Time): Option<Frame> {
    var h := HistoryOf(s0, ops);
    if !RecentInput(s0, ops, now) then None
    else if |h.fates| < |h.accepted| then Some(FrameOf(ops, h.accepted[|h.fates|]))
    else if h.lastPopped.Some? && (s0.passThrough || CarriesIdr(FrameOf(ops, h.lastPopped.value))) then
      Some(FrameOf(ops, h.lastPopped.value))
    else None
  }

  /** With clocks that never go back every poll of every run answers exactly that: a picture that can be shown
      again is, and nothing else is. */
  lemma PollExactly(s0: Live, ops: seq<Op>, now: Time)
    requires Initial(s0) && Monotone(ops, now)
    ensures Poll(Run(s0, ops), now).1 == Due(s0, ops, now)
    ensures LatestInv(HistoryOf(s0, ops))
  {
    LatestKept(s0, ops);
    RunKeepsInvariant(s0, ops);
    ActiveExactly(s0, ops, now);
    var s, h := Run(s0, ops), HistoryOf(s0, ops);
    if s.queue != [] {
      assert s.queue[0] == FrameOf(ops, h.accepted[|h.fates|..][0]);
    }
  }

  // ---------- when everything is forgotten ----------

  /** A consumer attaches, or a poll or probe finds no push within the timeout. */
  ghost predicate Forgets(s0: Live, ops: seq<Op>, j: nat) {
    && j < |ops|
    && (ops[j].PrepareOp?
        || ((ops[j].PollOp? || ops[j].ProbeOp?) && !RecentInput(s0, ops[..j], ops[j].now)))
  }

  ghost predicate NoForgets(s0: Live, ops: seq<Op>, i: nat, n: nat) {
    forall j: nat :: i < j < n ==> !Forgets(s0, ops, j)
  }

  lemma {:induction false} ActiveSince(s0: Live, ops: seq<Op>, i: nat, n: nat)
    requires InputAt(ops, i) && i < n <= |ops| && NoReset(s0, ops, i, n)
    ensures Before(s0, ops, n).active
    decreases n
  {
    assert ops[..n][..n - 1] == ops[..n - 1];
    if n > i + 1 {
      ActiveSince(s0, ops, i, n - 1);
      assert !ResetAt(s0, ops, n - 1);
    }
  }

  /** Behind a push, the source throws everything away exactly at those moments. */
  lemma ForgottenExactly(s0: Live, ops: seq<Op>, i: nat, n: nat, now: Time)
    requires Initial(s0) && Monotone(ops, now) && InputAt(ops, i) && i < n <= |ops|
    ensures NoReset(s0, ops, i, n) <==> NoForgets(s0, ops, i, n)
  {
    if NoReset(s0, ops, i, n) {
      forall j: nat | i < j < n ensures !Forgets(s0, ops, j) {
        ActiveSince(s0, ops, i, j);
        ResetIsForget(s0, ops, j, now);
        assert !ResetAt(s0, ops, j);
      }
    }
    if NoForgets(s0, ops, i, n) {
      forall j: nat | i < j < n ensures !ResetAt(s0, ops, j) {
        ResetIsForget(s0, ops, j, now);
        assert !Forgets(s0, ops, j);
      }
    }
  }

  lemma ResetIsForget(s0: Live, ops: seq<Op>, j: nat, now: Time)
    requires Initial(s0) && Monotone(ops, now) && j < |ops|
    ensures ResetAt(s0, ops, j) ==> Forgets(s0, ops, j)
    ensures Forgets(s0, ops, j) && Before(s0, ops, j).active ==> ResetAt(s0, ops, j)
  {
    MonotonePrefix(ops, j, now);
    if ops[j].PollOp? || ops[j].ProbeOp? {
      ActiveExactly(s0, ops[..j], ops[j].now);
    }
  }

  /** What was pushed before such a moment never comes out at it or after it. */
  lemma NothingForgottenComesBack(s0: Live, ops: seq<Op>, forgotten: nat, j: nat, now: Time)
    requires Initial(s0) && Monotone(ops, now)
    requires Forgets(s0, ops, forgotten) && forgotten <= j < |ops|
    requires Returned(Before(s0, ops, j), ops[j]).Some?
    ensures exists push: nat :: forgotten < push && Origin(s0, ops, push, j)
  {
    var push := OriginOf(s0, ops, j);
    ForgottenExactly(s0, ops, push, j + 1, now);
    assert NoForgets(s0, ops, push, j + 1);
  }

  // ---------- the gate ----------

  predicate IdrPushed(ops: seq<Op>, i: nat) {
    InputAt(ops, i) && CarriesIdr(ops[i].au)
  }

  /** The gate lets a frame in exactly when payloads are opaque, or it or an earlier push since everything was
      last forgotten carries an IDR. */
  lemma AdmittedExactly(s0: Live, ops: seq<Op>, au: Frame, now: Time)
    requires Initial(s0) && Monotone(ops, now)
    ensures Accepts(Run(s0, ops), PushOp(au, now)) <==>
      && au != []
      && (s0.passThrough || CarriesIdr(au) || exists i: nat :: IdrPushed(ops, i) && NoForgets(s0, ops, i, |ops|))
  {
    RunKeepsInvariant(s0, ops);
    var s, h := Run(s0, ops), HistoryOf(s0, ops);
    if !s0.passThrough && !s.awaitIDR {
      var i := h.accepted[0];
      assert i in h.accepted;
      ForgottenExactly(s0, ops, i, |ops|, now);
      assert IdrPushed(ops, i);
    }
    if i: nat :| IdrPushed(ops, i) && NoForgets(s0, ops, i, |ops|) {
      ForgottenExactly(s0, ops, i, |ops|, now);
      assert AcceptedAt(s0, ops, i);
      assert i in h.accepted;
    }
  }
}
