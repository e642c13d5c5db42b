/** LiveStreamSource of hud/stream/frame_sources.go: the abstract queue it promises to be, and the
    ring buffer that has to be that queue. Times are nanoseconds, handed in where the program reads
    a clock; None is the zero time. */
module LiveSource {
  import opened Bytes
  import opened NalScan

  type Frame = seq<byte>
  type Time = int

  const SECOND: int := 1_000_000_000

  /** The source as its callers may think of it: a bounded queue with a gate. */
  datatype Live = Live(
    capacity: nat,
    liveTimeout: int,
    passThrough: bool,         // payloads are whole pictures, not H.264 access units
    queue: seq<Frame>,
    lastAU: Option<Frame>,
    active: bool,
    lastInput: Option<Time>,
    awaitIDR: bool)

  function Fresh(maxQ: int, liveTimeout: int, passThrough: bool): Live {
    Live(if maxQ <= 0 then 15 else maxQ, if liveTimeout <= 0 then 3 * SECOND else liveTimeout,
         passThrough, [], None, false, None, !passThrough)
  }

  /** The IDR gate lets this frame in. */
  predicate Admits(s: Live, au: Frame) {
    s.passThrough || !s.awaitIDR || CarriesIdr(au)
  }

  /** Pushing onto a full queue loses its oldest frame. */
  predicate Overflows(s: Live) {
    |s.queue| == s.capacity
  }

  function Push(s: Live, au: Frame, now: Time): Live {
    if au == [] then s
    else
      var seen := s.(active := true, lastInput := Some(now));
      if !Admits(s, au) then seen
      else seen.(awaitIDR := s.awaitIDR && s.passThrough,
                 queue := (if Overflows(s) && s.queue != [] then s.queue[1..] else s.queue) + [au])
  }

  predicate TimedOut(s: Live, now: Time) {
    s.active && s.lastInput.Some? && now - s.lastInput.value > s.liveTimeout
  }

  function Reset(s: Live): Live {
    s.(active := false, lastAU := None, queue := [], awaitIDR := !s.passThrough)
  }

  function Prepare(s: Live): Live {
    s.(queue := [], lastAU := None, awaitIDR := !s.passThrough)
  }

  function Probe(s: Live, now: Time): (Live, bool) {
    if !s.active then (s, false)
    else if TimedOut(s, now) then (Reset(s), false)
    else (s, true)
  }

  /** Repeating a frame shows the same picture again. */
  predicate Repeatable(s: Live) {
    s.lastAU.Some? && (s.passThrough || CarriesIdr(s.lastAU.value))
  }

  function Poll(s: Live, now: Time): (Live, Option<Frame>) {
    if !s.active then (s, None)
    else if TimedOut(s, now) then (Reset(s), None)
    else if s.queue != [] then (s.(queue := s.queue[1..], lastAU := Some(s.queue[0])), Some(s.queue[0]))
    else if Repeatable(s) then (s, s.lastAU)
    else (s, None)
  }

  /** A run of pushes, the k-th of which reads the clock as clock(k). */
  function PushAll(s: Live, aus: seq<Frame>, clock: nat -> Time): Live {
    if aus == [] then s
    else Push(PushAll(s, aus[..|aus| - 1], clock), aus[|aus| - 1], clock(|aus| - 1))
  }

  // ---------- the ring ----------

  /** Stepping an index around the ring. */
  lemma Wrap(x: nat, n: nat)
    requires 0 < n && x < 2 * n
    ensures x % n == if x < n then x else x - n
  {
    if x < n {
    } else {
      assert x == n * 1 + (x - n);
    }
  }

  /** The slot k places after head. */
  function SlotOf(head: nat, k: nat, capacity: nat): nat {
    if head + k < capacity then head + k else head + k - capacity
  }

  class LiveStreamSource {
    var aus: array<Option<Frame>>
    var head: nat
    var tail: nat
    var count: nat
    const capacity: nat

    var lastAU: Option<Frame>
    var lastAdvance: Option<Time>
    const interval: int

    var active: bool
    var lastInput: Option<Time>
    const liveTimeout: int
    var awaitIDR: bool
    var passThrough: bool

    /** Only the live window is constrained: a timeout reset leaves old frames in the other slots. */
    ghost predicate Valid()
      reads this, aus
    {
      && 0 < capacity == aus.Length
      && head < capacity && count <= capacity
      && tail == SlotOf(head, count, capacity)
      && (count == capacity ==> tail == head)
      && forall k :: 0 <= k < count ==> aus[SlotOf(head, k, capacity)].Some?
    }

    ghost function Window(): (r: seq<Frame>)
      requires Valid()
      reads this, aus
      ensures |r| == count
    {
      seq(count, k requires 0 <= k < count && Valid() reads this, aus => aus[SlotOf(head, k, capacity)].value)
    }

    ghost function State(): Live
      requires Valid()
      reads this, aus
    {
      Live(capacity, liveTimeout, passThrough, Window(), lastAU, active, lastInput, awaitIDR)
    }

    constructor (targetFPS: int, timeout: int, maxQ: int)
      ensures Valid() && fresh(aus)
      ensures State() == Fresh(maxQ, timeout, false)
    {
      var fps := if targetFPS <= 0 then 15 else targetFPS;
      var size := if maxQ <= 0 then 15 else maxQ;
      capacity := size;
      liveTimeout := if timeout <= 0 then 3 * SECOND else timeout;
      interval := SECOND / fps;
      aus := new Option<Frame>[size](_ => None);
      head, tail, count := 0, 0, 0;
      lastAU, lastAdvance, lastInput := None, None, None;
      active, awaitIDR, passThrough := false, true, false;
    }

    method SetOpaquePayloads(enabled: bool)
      requires Valid()
      modifies this
      ensures Valid() && aus == old(aus)
      ensures State() == old(State()).(passThrough := enabled, awaitIDR := old(awaitIDR) && !enabled)
    {
      passThrough := enabled;
      if enabled {
        awaitIDR := false;
      }
    }

    method PushFrame(au: Frame, now: Time)
      requires Valid()
      modifies this, aus
      ensures Valid() && aus == old(aus)
      ensures State() == Push(old(State()), au, now)
    {
      if |au| == 0 {
        return;
      }
      ghost var was := State();
      active := true;
      lastInput := Some(now);
      if awaitIDR && !passThrough {
        var idr := HasAnnexBNALType(au, 5);
        if !idr {
          return;
        }
        awaitIDR := false;
      }
      assert Admits(was, au) && Window() == was.queue;
      Enqueue(au);
      assert State() == was.(active := true, lastInput := Some(now), awaitIDR := awaitIDR, queue := Window());
    }

    /** The ring's half of a push: make room if there is none, then append. */
    method Enqueue(au: Frame)
      requires Valid()
      modifies this`head, this`tail, this`count, aus
      ensures Valid() && aus == old(aus)
      ensures Window() == (if old(count) == capacity then old(Window())[1..] else old(Window())) + [au]
    {
      if count == capacity {
        var oldest := RemoveHead();
      }
      AppendTail(au);
    }

    /** Clears the head slot and steps over it: an overflow's discard, and a poll's pop. */
    method RemoveHead() returns (au: Option<Frame>)
      requires Valid() && count > 0
      modifies this`head, this`count, aus
      ensures Valid() && aus == old(aus) && count == old(count) - 1
      ensures au == Some(old(Window())[0]) && Window() == old(Window())[1..]
    {
      au := aus[head];
      aus[head] := None;
      Wrap(head + 1, capacity);
      head := (head + 1) % capacity;
      count := count - 1;
      forall k | 0 <= k < count
        ensures SlotOf(head, k, capacity) == SlotOf(old(head), k + 1, capacity) != old(head)
      {
      }
      assert aus[..] == old(aus[..])[old(head) := None];
    }

    method AppendTail(au: Frame)
      requires Valid() && count < capacity
      modifies this`tail, this`count, aus
      ensures Valid() && aus == old(aus) && count == old(count) + 1
      ensures Window() == old(Window()) + [au]
    {
      aus[tail] := Some(au);
      Wrap(tail + 1, capacity);
      tail := (tail + 1) % capacity;
      count := count + 1;
      forall k | 0 <= k < count - 1
        ensures SlotOf(head, k, capacity) != old(tail)
      {
      }
      assert aus[..] == old(aus[..])[old(tail) := Some(au)];
    }

    method PrepareForConsumer()
      requires Valid()
      modifies this, aus
      ensures Valid() && aus == old(aus)
      ensures State() == Prepare(old(State()))
    {
      for i := 0 to aus.Length
        invariant unchanged(this)
      {
        aus[i] := None;
      }
      count, head, tail := 0, 0, 0;
      lastAU := None;
      lastAdvance := None;
      awaitIDR := !passThrough;
    }

    method ResetLocked()
      requires Valid()
      modifies this
      ensures Valid() && aus == old(aus)
      ensures State() == Reset(old(State()))
    {
      active := false;
      lastAU := None;
      lastAdvance := None;
      count, head, tail := 0, 0, 0;
      awaitIDR := !passThrough;
    }

    method IsActive(now: Time) returns (r: bool)
      requires Valid()
      modifies this
      ensures Valid() && aus == old(aus)
      ensures (State(), r) == Probe(old(State()), now)
    {
      if !active {
        return false;
      }
      if lastInput != None && now - lastInput.value > liveTimeout {
        ResetLocked();
        return false;
      }
      return true;
    }

    method NextFrame(now: Time) returns (au: Option<Frame>)
      requires Valid()
      modifies this, aus
      ensures Valid() && aus == old(aus)
      ensures (State(), au) == Poll(old(State()), now)
    {
      if !active {
        return None;
      }
      if lastInput != None && now - lastInput.value > liveTimeout {
        ResetLocked();
        return None;
      }
      if count > 0 {
        au := RemoveHead();
        lastAU := au;
        lastAdvance := Some(now);
        assert Window() == old(Window())[1..];
        return au;
      }
      if lastAU != None {
        var idr := passThrough;
        if !idr {
          idr := HasAnnexBNALType(lastAU.value, 5);
        }
        if idr {
          lastAdvance := Some(now);
          return lastAU;
        }
      }
      return None;
    }
  }
}
