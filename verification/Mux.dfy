/** MuxSource of hud/stream/frame_sources.go: live when there is live input, the no-signal clip
    otherwise. */
module Mux {
  import opened Bytes
  import opened LiveSource
  import opened LiveRuns
  import opened Replay

  /** Which source an answer came from. */
  datatype Served = Stopped | FromLive | FromNoSignal | FromNobody

  /** Which source answers: none once stopped, the live one while its probe finds it active, otherwise the
      clip. */
  function Choice(stopAll: bool, live: Option<Live>, hasClip: bool, now: Time): Served {
    if stopAll then Stopped
    else if live.Some? && Probe(live.value, now).1 then FromLive
    else if hasClip then FromNoSignal
    else FromNobody
  }

  class MuxSource {
    var stopAll: bool
    const live: LiveStreamSource?
    const noSignal: FileFrameSource?

    ghost predicate Valid()
      reads this, live, if live == null then {} else {live.aus}
    {
      live != null ==> live.Valid()
    }

    ghost function Footprint(): set<object?>
      reads this, live
    {
      (if live == null then {} else {live, live.aus}) + (if noSignal == null then {} else {noSignal})
    }

    constructor (live: LiveStreamSource?, noSignal: FileFrameSource?)
      requires live != null ==> live.Valid()
      ensures Valid() && this.live == live && this.noSignal == noSignal && !stopAll
    {
      this.live, this.noSignal, stopAll := live, noSignal, false;
    }

    ghost function LiveState(): Option<Live>
      requires Valid()
      reads this, live, if live == null then {} else {live.aus}
    {
      if live == null then None else Some(live.State())
    }

    /** The no-signal clip is served only when there is no live source or its input has gone quiet; a
        probe that says so has reset the live source first. The live source is polled only when the
        same instant found it active, so that poll never sees a timeout. */
    method NextFrame(now: Time) returns (au: Option<Frame>, served: Served)
      requires Valid()
      modifies Footprint()
      ensures Valid() && (live != null ==> live.aus == old(live.aus))
      ensures served == Choice(old(stopAll), old(LiveState()), noSignal != null, now)
      ensures served == Stopped || served == FromNobody ==> au == None
      ensures served == FromLive ==> live != null && (live.State(), au) == Poll(old(live.State()), now)
      ensures served == FromLive && noSignal != null ==> noSignal.State() == old(noSignal.State())
      ensures served == FromNoSignal ==>
        noSignal != null && (noSignal.State(), au) == NextOf(old(noSignal.State()), now)
      ensures (served == FromNoSignal || served == FromNobody) && live != null ==>
        live.State() == Probe(old(live.State()), now).0
      ensures served == Stopped && live != null ==> live.State() == old(live.State())
    {
      if stopAll {
        return None, Stopped;
      }
      if live != null {
        var active := live.IsActive(now);
        if active {
          au := live.NextFrame(now);
          return au, FromLive;
        }
      }
      if noSignal != null {
        au := noSignal.NextFrame(now);
        return au, FromNoSignal;
      }
      return None, FromNobody;
    }

    method StopAllFrames()
      modifies this
      ensures stopAll
    {
      stopAll := true;
    }

    method PrepareLiveConsumer()
      requires Valid()
      modifies Footprint()
      ensures Valid() && (live != null ==> live.aus == old(live.aus) && live.State() == Prepare(old(live.State())))
      ensures noSignal != null ==> noSignal.State() == old(noSignal.State())
    {
      if live != null {
        live.PrepareForConsumer();
      }
    }
  }

  /** Over whole runs of the live source - all video connections share it, so the run holds the pushes, polls
      and probes of every one of them: with clocks that never go back, the live source is served exactly when
      something has been pushed within the timeout, the clip, if there is one, exactly when nothing has, and
      nothing only after the stop or with no clip to fall back to. */
  lemma ServedExactly(s0: Live, ops: seq<Op>, stopAll: bool, hasClip: bool, now: Time)
    requires Initial(s0) && Monotone(ops, now)
    ensures var served := Choice(stopAll, Some(Run(s0, ops)), hasClip, now);
      && (served == Stopped <==> stopAll)
      && (served == FromLive <==> !stopAll && RecentInput(s0, ops, now))
      && (served == FromNoSignal <==> !stopAll && !RecentInput(s0, ops, now) && hasClip)
      && (served == FromNobody <==> !stopAll && !RecentInput(s0, ops, now) && !hasClip)
  {
    ActiveExactly(s0, ops, now);
  }

  /** Without a live source it is the clip or nothing. */
  lemma ServedWithoutLive(stopAll: bool, hasClip: bool, now: Time)
    ensures var served := Choice(stopAll, None, hasClip, now);
      served == if stopAll then Stopped else if hasClip then FromNoSignal else FromNobody
  {
  }

  /** Step j of the run finds the source timed out by a clock later than now. */
  ghost predicate LaterTimeout(s: Live, ops: seq<Op>, j: nat, now: Time) {
    && j < |ops| && ResetAt(s, ops, j)
    && (ops[j].PollOp? || ops[j].ProbeOp?) && ops[j].now > now
  }

  /** The probe and the poll take the source's lock one after the other, so anything can come between them:
      encoder pushes, a consumer reset, polls and probes of other connections. The poll never sees a timeout
      the probe did not, and only somebody with a later clock can have taken the source down in between. */
  lemma {:induction false} ProbeThenPoll(s: Live, between: seq<Op>, now: Time)
    requires Probe(s, now).1 && s.lastInput.Some?
    requires forall k :: 0 <= k < |between| && between[k].PushOp? ==> between[k].now >= s.lastInput.value
    ensures var s' := Run(s, between);
      && !TimedOut(s', now) && s'.liveTimeout == s.liveTimeout
      && s'.lastInput.Some? && s'.lastInput.value >= s.lastInput.value
      && (s'.active || exists j: nat :: LaterTimeout(s, between, j, now))
    decreases |between|
  {
    if between != [] {
      var n := |between| - 1;
      ProbeThenPoll(s, between[..n], now);
      if Run(s, between[..n]).active {
        assert !Run(s, between).active ==> LaterTimeout(s, between, n, now);
      } else {
        var j: nat :| LaterTimeout(s, between[..n], j, now);
        assert between[..n][..j] == between[..j];
        assert LaterTimeout(s, between, j, now);
      }
    }
  }
}
