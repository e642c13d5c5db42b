/** AUStreamer of hud/stream/au_stream.go and the reading loop feedStreamToLiveSource of
    hud/stream/frame_sources.go: a byte stream cut into chunks, turned into pushes. */
module AuStreamer {
  import opened Bytes
  import opened AnnexB
  import opened LiveSource

  lemma PushAllSnoc(s: Live, aus: seq<Frame>, au: Frame, clock: nat -> Time)
    ensures PushAll(s, aus + [au], clock) == Push(PushAll(s, aus, clock), au, clock(|aus|))
  {
    assert (aus + [au])[..|aus|] == aus;
  }

  /** The loop both callers run: push each access unit, the first reading the clock as clock(first). */
  method PushEach(src: LiveStreamSource, aus: seq<Frame>, clock: nat -> Time, first: nat,
                  ghost start: Live, ghost done: seq<Frame>)
    requires src.Valid() && src.State() == PushAll(start, done, clock) && |done| == first
    modifies src, src.aus
    ensures src.Valid() && src.aus == old(src.aus)
    ensures src.State() == PushAll(start, done + aus, clock)
  {
    assert done + aus[..0] == done;
    for k := 0 to |aus|
      invariant src.Valid() && src.aus == old(src.aus)
      invariant src.State() == PushAll(start, done + aus[..k], clock)
    {
      PushAllSnoc(start, done + aus[..k], aus[k], clock);
      assert done + aus[..k + 1] == done + aus[..k] + [aus[k]];
      src.PushFrame(aus[k], clock(first + k));
    }
    assert aus[..|aus|] == aus;
  }

  /** The step both callers take: prepend the leftover, extract, push, keep the rest. `fed` is what was
      taken in before and `pushed` what that gave; `done` is what was pushed since `start`. */
  method Absorb(src: LiveStreamSource, leftover: seq<byte>, data: seq<byte>, clock: nat -> Time, first: nat,
                ghost fed: seq<byte>, ghost pushed: seq<Frame>, ghost start: Live, ghost done: seq<Frame>)
    returns (rest: seq<byte>, pushes: nat, ghost more: seq<Frame>)
    requires src.Valid() && src.State() == PushAll(start, done, clock) && |done| == first
    requires Extract(fed) == Extracted(pushed, leftover)
    modifies src, src.aus
    ensures src.Valid() && src.aus == old(src.aus)
    ensures Extract(fed + data) == Extracted(pushed + more, rest) && |more| == pushes
    ensures src.State() == PushAll(start, done + more, clock)
  {
    var aus, rem := ExtractAusFromStream(leftover + data);
    ExtractResumes(fed, data);
    PushEach(src, aus, clock, first, start, done);
    return rem, |aus|, aus;
  }

  class AUStreamer {
    const src: LiveStreamSource
    var leftover: seq<byte>
    /** All bytes taken in so far, and all access units handed on. */
    ghost var fed: seq<byte>
    ghost var pushed: seq<Frame>

    ghost predicate Valid()
      reads this
    {
      Extract(fed) == Extracted(pushed, leftover)
    }

    constructor (src: LiveStreamSource)
      ensures Valid() && this.src == src && fed == [] && pushed == []
    {
      this.src := src;
      leftover, fed, pushed := [], [], [];
    }

    /** Whatever the chunk boundaries were, the source has been pushed exactly the access units of one
        extraction over all bytes so far, and the rest is kept. clock(k) is the time push k reads. */
    method PushChunk(chunk: seq<byte>, clock: nat -> Time)
      requires Valid() && src.Valid()
      modifies this, src, src.aus
      ensures Valid() && src.Valid() && src.aus == old(src.aus)
      ensures fed == old(fed) + chunk
      ensures old(pushed) <= pushed
      ensures src.State() == PushAll(old(src.State()), pushed[|old(pushed)|..], clock)
    {
      if |chunk| == 0 {
        assert fed + chunk == fed;
        assert pushed[|pushed|..] == [];
        return;
      }
      var rest, _, more := Absorb(src, leftover, chunk, clock, 0, fed, pushed, src.State(), []);
      assert [] + more == more;
      leftover := rest;
      fed := fed + chunk;
      pushed := pushed + more;
    }
  }

  // ---------- the reading loop ----------

  datatype ReadError = Eof | Failed(code: int)

  /** What one Read call gives back: bytes, an error, or both. */
  datatype Read = Read(data: seq<byte>, error: Option<ReadError>)

  /** The reads the loop takes: up to and including the first one with an error. */
  function Taken(calls: seq<Read>): nat {
    if calls == [] then 0
    else if calls[0].error.Some? then 1
    else 1 + Taken(calls[1..])
  }

  function Data(calls: seq<Read>): seq<byte> {
    if calls == [] then [] else calls[0].data + Data(calls[1..])
  }

  lemma {:induction false} DataSnoc(calls: seq<Read>, r: Read)
    ensures Data(calls + [r]) == Data(calls) + r.data
  {
    if calls == [] {
      assert calls + [r] == [r] && Data([r]) == r.data + Data([]);
    } else {
      DataSnoc(calls[1..], r);
      assert (calls + [r])[1..] == calls[1..] + [r];
    }
  }

  lemma TakeRead(calls: seq<Read>, n: nat)
    requires n < |calls|
    ensures Data(calls[..n + 1]) == Data(calls[..n]) + calls[n].data
    ensures calls[n].data == [] ==> Data(calls[..n + 1]) == Data(calls[..n])
  {
    assert calls[..n + 1] == calls[..n] + [calls[n]];
    DataSnoc(calls[..n], calls[n]);
  }

  lemma {:induction false} TakenIs(calls: seq<Read>, n: nat)
    requires n <= |calls| && forall k :: 0 <= k < n ==> calls[k].error.None?
    ensures n < |calls| && calls[n].error.Some? ==> Taken(calls) == n + 1
    ensures n == |calls| ==> Taken(calls) == n
  {
    if n > 0 {
      TakenIs(calls[1..], n - 1);
    }
  }

  /** The read that ended the loop, if one did. */
  function Ending(calls: seq<Read>): Option<ReadError> {
    if calls == [] then None
    else if calls[0].error.Some? then calls[0].error
    else Ending(calls[1..])
  }

  lemma {:induction false} EndingIs(calls: seq<Read>, n: nat)
    requires n <= |calls| && forall k :: 0 <= k < n ==> calls[k].error.None?
    ensures n < |calls| && calls[n].error.Some? ==> Ending(calls) == calls[n].error
    ensures n == |calls| ==> Ending(calls) == None
  {
    if n > 0 {
      EndingIs(calls[1..], n - 1);
    }
  }

  /** The source is pushed exactly the complete access units of everything read before the loop ends,
      the bytes of the ending read included. The result is nil for a clean end of file, otherwise the
      error that ended the loop; a reader that has not failed yet has only answered the calls listed. */
  method FeedStreamToLiveSource(calls: seq<Read>, src: LiveStreamSource, clock: nat -> Time)
    returns (result: Option<ReadError>)
    requires src.Valid()
    modifies src, src.aus
    ensures src.Valid() && src.aus == old(src.aus)
    ensures Taken(calls) <= |calls|
    ensures src.State() == PushAll(old(src.State()), Extract(Data(calls[..Taken(calls)])).aus, clock)
    ensures result == if Ending(calls) == Some(Eof) then None else Ending(calls)
  {
    var leftover: seq<byte> := [];
    ghost var pushed: seq<Frame> := [];
    ghost var start := src.State();
    var n, pushes := 0, 0;
    assert calls[..0] == [];
    while n < |calls|
      invariant n <= |calls| && pushes == |pushed| && src.Valid() && src.aus == old(src.aus)
      invariant forall k :: 0 <= k < n ==> calls[k].error.None?
      invariant Extract(Data(calls[..n])) == Extracted(pushed, leftover)
      invariant src.State() == PushAll(start, pushed, clock)
    {
      TakeRead(calls, n);
      var r := calls[n];
      if |r.data| > 0 {
        var rem, count, more :=
          Absorb(src, leftover, r.data, clock, pushes, Data(calls[..n]), pushed, start, pushed);
        leftover, pushes := rem, pushes + count;
        pushed := pushed + more;
      }
      if r.error.Some? {
        TakenIs(calls, n);
        EndingIs(calls, n);
        if r.error == Some(Eof) {
          return None;
        }
        return r.error;
      }
      n := n + 1;
    }
    TakenIs(calls, n);
    EndingIs(calls, n);
    assert calls[..n] == calls;
    return None;
  }
}
