/** FileFrameSource of hud/stream/frame_sources.go: a clip replayed in a loop at its own pace. */
module Replay {
  import opened Bytes
  import opened AnnexB
  import opened LiveSource

  const STREAM_HEADER: seq<byte> := [0x02, 0x00, 0x00, 0x00, 0x20, 0x03, 0x80, 0x01]

  /** The replay source as a value. */
  datatype Clip = Clip(
    aus: seq<Frame>, replayIdx: nat, pollCount: nat,
    lastAu: Option<Frame>, lastAdvance: Option<Time>,
    interval: int, header: seq<byte>)

  function FreshClip(aus: seq<Frame>, targetFPS: int): Clip {
    Clip(aus, 0, 0, None, None, SECOND / (if targetFPS <= 0 then 15 else targetFPS), STREAM_HEADER)
  }

  /** The frame with the stream header ensured in front, once. */
  function WithHeader(header: seq<byte>, au: Frame): (r: Frame)
    ensures header <= r && |au| <= |r| && r[|r| - |au|..] == au
    ensures |r| == |au| + if header <= au then 0 else |header|
  {
    if header <= au then au else header + au
  }

  predicate Due(c: Clip, now: Time) {
    c.lastAu.None? || c.lastAdvance.None? || now - c.lastAdvance.value >= c.interval
  }

  function NextOf(c: Clip, now: Time): (Clip, Option<Frame>) {
    if c.aus == [] then (c, None)
    else if Due(c, now) then
      var plain := c.aus[c.replayIdx % |c.aus|];
      var au := if c.pollCount == 0 then WithHeader(c.header, plain) else plain;
      (c.(replayIdx := c.replayIdx + 1, pollCount := c.pollCount + 1, lastAu := Some(au), lastAdvance := Some(now)),
       Some(au))
    else (c.(pollCount := c.pollCount + 1), None)
  }

  method StartsWithStreamHeader(b: seq<byte>, header: seq<byte>) returns (r: bool)
    ensures r <==> header <= b
  {
    if |b| < |header| {
      return false;
    }
    for i := 0 to |header|
      invariant header[..i] == b[..i]
    {
      if b[i] != header[i] {
        return false;
      }
    }
    return true;
  }

  class FileFrameSource {
    const aus: seq<Frame>
    var replayIdx: nat
    var pollCount: nat
    var lastAu: Option<Frame>
    var lastAdvance: Option<Time>
    const interval: int
    const header: seq<byte>

    function State(): Clip
      reads this
    {
      Clip(aus, replayIdx, pollCount, lastAu, lastAdvance, interval, header)
    }

    constructor (aus: seq<Frame>, targetFPS: int)
      ensures State() == FreshClip(aus, targetFPS)
    {
      this.aus := aus;
      replayIdx, pollCount, lastAu, lastAdvance := 0, 0, None, None;
      interval := SECOND / (if targetFPS <= 0 then 15 else targetFPS);
      header := STREAM_HEADER;
    }

    method NextFrame(now: Time) returns (r: Option<Frame>)
      modifies this
      ensures (State(), r) == NextOf(old(State()), now)
    {
      if |aus| == 0 {
        return None;
      }
      var firstPoll := pollCount == 0;
      var shouldAdvAU := false;
      if lastAu == None {
        shouldAdvAU := true;
      } else if lastAdvance == None || now - lastAdvance.value >= interval {
        shouldAdvAU := true;
      }
      if shouldAdvAU {
        var au := aus[replayIdx % |aus|];
        replayIdx := replayIdx + 1;
        if firstPoll {
          var present := StartsWithStreamHeader(au, header);
          if !present {
            au := header + au;
          }
        }
        lastAu := Some(au);
        lastAdvance := Some(now);
        pollCount := pollCount + 1;
        return Some(au);
      }
      pollCount := pollCount + 1;
      return None;
    }
  }

  /** NewFileFrameSource once the file is read, and NewRawFrameSource: data without a single delimiter
      is refused. */
  method NewRawFrameSource(data: seq<byte>, targetFPS: int) returns (r: Option<FileFrameSource>)
    ensures r.None? <==> forall p: nat :: !AudStart(data, p)
    ensures r.Some? ==> fresh(r.value) && r.value.State() == FreshClip(Split(data), targetFPS)
    ensures r.Some? ==> Untouched(r.value.State())
  {
    SplittersAgree(data);
    var aus := SplitByAudAnnexB(data);
    if |aus| == 0 {
      return None;
    }
    var s := new FileFrameSource(aus, targetFPS);
    return Some(s);
  }

  // ---------- cadence over every sequence of polls ----------

  function RunClip(c: Clip, polls: seq<Time>): Clip {
    if polls == [] then c else NextOf(RunClip(c, polls[..|polls| - 1]), polls[|polls| - 1]).0
  }

  /** One frame handed out: when, and what. */
  datatype Shown = Shown(at: Time, frame: Frame)

  function ShownBy(c: Clip, polls: seq<Time>): seq<Shown> {
    if polls == [] then []
    else
      var n := |polls| - 1;
      var r := NextOf(RunClip(c, polls[..n]), polls[n]).1;
      ShownBy(c, polls[..n]) + if r.Some? then [Shown(polls[n], r.value)] else []
  }

  /** The frame that comes k-th, counting from 0: the clip in a loop, headed the first time. */
  function LoopFrame(c: Clip, k: nat): Frame
    requires c.aus != []
  {
    var plain := c.aus[k % |c.aus|];
    if k == 0 then WithHeader(c.header, plain) else plain
  }

  predicate Untouched(c: Clip) {
    c.aus != [] && c.replayIdx == 0 && c.pollCount == 0 && c.lastAu.None? && c.lastAdvance.None?
  }

  ghost predicate CadenceInv(c0: Clip, c: Clip, shown: seq<Shown>, polls: nat)
    requires c0.aus != []
  {
    && c.aus == c0.aus && c.interval == c0.interval && c.header == c0.header
    && c.replayIdx == |shown| && c.pollCount == polls
    && (polls == 0 <==> shown == [])
    && (if shown == [] then c.lastAu.None? else c.lastAu.Some? && c.lastAdvance == Some(shown[|shown| - 1].at))
    && (forall k :: 0 <= k < |shown| ==> shown[k].frame == LoopFrame(c0, k))
    && (forall k :: 0 < k < |shown| ==> shown[k].at >= shown[k - 1].at + c0.interval)
  }

  lemma {:induction false} CadenceKept(c0: Clip, polls: seq<Time>)
    requires Untouched(c0)
    ensures CadenceInv(c0, RunClip(c0, polls), ShownBy(c0, polls), |polls|)
    decreases |polls|
  {
    if polls != [] {
      var n := |polls| - 1;
      CadenceKept(c0, polls[..n]);
    }
  }

  lemma {:induction false} SpacingAdds(shown: seq<Shown>, interval: int, j: nat, k: nat)
    requires j <= k < |shown|
    requires forall i :: 0 < i < |shown| ==> shown[i].at >= shown[i - 1].at + interval
    ensures shown[k].at >= shown[j].at + (k - j) * interval
    decreases k
  {
    if j < k {
      SpacingAdds(shown, interval, j, k - 1);
      assert (k - j) * interval == (k - 1 - j) * interval + interval;
    }
  }

  /** Whatever the poll times, the frames come in cyclic order, the stream header is ensured on the
      first only, and from the j-th to the k-th frame at least k - j intervals pass. */
  lemma ReplayCadence(c0: Clip, polls: seq<Time>)
    requires Untouched(c0)
    ensures var shown := ShownBy(c0, polls);
      && (polls != [] ==> shown != [])
      && (forall k :: 0 <= k < |shown| ==> shown[k].frame == LoopFrame(c0, k))
      && (forall j, k :: 0 <= j <= k < |shown| ==> shown[k].at >= shown[j].at + (k - j) * c0.interval)
  {
    CadenceKept(c0, polls);
    var shown := ShownBy(c0, polls);
    forall j, k | 0 <= j <= k < |shown| ensures shown[k].at >= shown[j].at + (k - j) * c0.interval {
      SpacingAdds(shown, c0.interval, j, k);
    }
  }

  /** ... and none is held back: a poll shows a frame exactly when nothing has been shown yet or an interval
      has passed since the last one was. */
  lemma ShownWhenDue(c0: Clip, polls: seq<Time>, now: Time)
    requires Untouched(c0)
    ensures var shown := ShownBy(c0, polls);
      NextOf(RunClip(c0, polls), now).1.Some? <==>
        shown == [] || now - shown[|shown| - 1].at >= c0.interval
  {
    NextShows(RunClip(c0, polls), now);
    DueExactly(c0, polls, now);
  }

  lemma NextShows(c: Clip, now: Time)
    ensures NextOf(c, now).1.Some? <==> c.aus != [] && Due(c, now)
  {
  }

  lemma DueExactly(c0: Clip, polls: seq<Time>, now: Time)
    requires Untouched(c0)
    ensures var c, shown := RunClip(c0, polls), ShownBy(c0, polls);
      && c.aus != []
      && (Due(c, now) <==> shown == [] || now - shown[|shown| - 1].at >= c0.interval)
  {
    CadenceKept(c0, polls);
    DueAfterLast(c0, RunClip(c0, polls), ShownBy(c0, polls), |polls|, now);
  }

  lemma DueAfterLast(c0: Clip, c: Clip, shown: seq<Shown>, polls: nat, now: Time)
    requires c0.aus != [] && CadenceInv(c0, c, shown, polls)
    ensures Due(c, now) <==> shown == [] || now - shown[|shown| - 1].at >= c0.interval
  {
  }

  /** d nanoseconds are the whole nanoseconds of one fps-th of a second, or more; 15 when no rate is asked for. */
  predicate FrameTimeOver(d: int, targetFPS: int) {
    (d + 1) * (if targetFPS <= 0 then 15 else targetFPS) > 1_000_000_000
  }

  /** For a clip made for a frame rate that is the time of one frame. */
  lemma PaceExactly(aus: seq<Frame>, targetFPS: int, polls: seq<Time>, now: Time)
    requires aus != []
    ensures var c0 := FreshClip(aus, targetFPS);
      var shown := ShownBy(c0, polls);
      NextOf(RunClip(c0, polls), now).1.Some? <==>
        shown == [] || FrameTimeOver(now - shown[|shown| - 1].at, targetFPS)
  {
    var c0 := FreshClip(aus, targetFPS);
    var shown := ShownBy(c0, polls);
    ShownWhenDue(c0, polls, now);
    if shown != [] {
      IntervalIs(aus, targetFPS, now - shown[|shown| - 1].at);
    }
  }

  lemma IntervalIs(aus: seq<Frame>, targetFPS: int, d: int)
    ensures d >= FreshClip(aus, targetFPS).interval <==> FrameTimeOver(d, targetFPS)
  {
    AtLeastQuotient(d, SECOND, if targetFPS <= 0 then 15 else targetFPS);
  }

  lemma AtLeastQuotient(d: int, n: nat, f: int)
    requires f > 0
    ensures d >= n / f <==> (d + 1) * f > n
  {
    var q := n / f;
    QuotientBounds(n, f);
    if d >= q {
      Scale(q + 1, d + 1, f);
    } else {
      Scale(d + 1, q, f);
    }
  }

  lemma QuotientBounds(n: nat, f: int)
    requires f > 0
    ensures n / f * f <= n < (n / f + 1) * f
  {
    var q, r := n / f, n % f;
    assert n == q * f + r;
    assert (q + 1) * f == q * f + f;
  }

  lemma Scale(a: int, b: int, f: int)
    requires a <= b && f > 0
    ensures a * f <= b * f
  {
    assert (b - a) * f == b * f - a * f;
    assert (b - a) * f >= 0;
  }

  /** A window of length w sees at most w / interval + 1 frames. */
  lemma ReplayRateBounded(c0: Clip, polls: seq<Time>, j: nat, k: nat, w: nat)
    requires Untouched(c0) && c0.interval > 0
    requires j <= k < |ShownBy(c0, polls)|
    requires ShownBy(c0, polls)[k].at - ShownBy(c0, polls)[j].at <= w
    ensures k - j + 1 <= w / c0.interval + 1
  {
    FarApart(c0, polls, j, k, w);
    DivideBound(k - j, c0.interval, w);
  }

  lemma FarApart(c0: Clip, polls: seq<Time>, j: nat, k: nat, w: nat)
    requires Untouched(c0) && j <= k < |ShownBy(c0, polls)|
    requires ShownBy(c0, polls)[k].at - ShownBy(c0, polls)[j].at <= w
    ensures (k - j) * c0.interval <= w
  {
    CadenceKept(c0, polls);
    SpacingAdds(ShownBy(c0, polls), c0.interval, j, k);
  }

  lemma DivideBound(n: nat, d: int, w: nat)
    requires d > 0 && n * d <= w
    ensures n <= w / d
  {
    QuotientBounds(w, d);
    if n > w / d {
      Scale(w / d + 1, n, d);
      assert false;
    }
  }
}
