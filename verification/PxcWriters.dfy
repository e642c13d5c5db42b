/** Many writers on one PXC socket: replies, heartbeats, the page probe, the app status and the clock
    push all go through writeResponse of hud/net/pxc.go, in any interleaving. Every lock acquisition and
    every single write is one step here. */
module PxcWriters {
  import opened Bytes
  import opened PxcFrames

  /** One writeResponse call: waiting for the mutex it found, or between two of its writes. */
  datatype Writer =
    | Waiting(mutex: nat, m: Message)
    | Writing(mutex: nat, m: Message, sent: nat)
    | Finished

  /** One connection. `current` is the mutex its entry in the connection map holds, None once the entry is
      deleted; `written` lists the messages whose last byte is on the wire, in that order; `cut` is what a
      failed write left of another one. */
  datatype Socket = Socket(
    wire: seq<byte>, alive: bool, released: bool,
    current: Option<nat>, nextMutex: nat,
    holder: map<nat, nat>,          // mutex -> the writer that holds it
    writers: map<nat, Writer>,
    written: seq<Message>, cut: Option<Message>)

  /** Closing the socket is no step of its own: to the wire it means that the next write fails. */
  datatype Step =
    | Enter(w: nat, m: Message)     // connectionState: load the entry, or store a fresh one
    | Lock(w: nat)
    | Write(w: nat)                 // the next part, whole
    | Fail(w: nat, n: nat)          // the next part fails after n bytes; the call returns
    | Unlock(w: nat)                // all parts written; the call returns
    | Release                       // releaseConnectionState

  const OPENED := Socket([], true, false, Some(0), 1, map[], map[], [], None)

  predicate IsWaiting(s: Socket, w: nat) {
    w in s.writers && s.writers[w].Waiting?
  }

  predicate IsWriting(s: Socket, w: nat) {
    w in s.writers && s.writers[w].Writing?
  }

  predicate HasNext(x: Writer) {
    x.Writing? && Sendable(x.m) && x.sent < PartCount(x.m)
  }

  predicate Enabled(s: Socket, step: Step) {
    match step
    case Enter(w, m) => w !in s.writers && Sendable(m)
    case Lock(w) => IsWaiting(s, w) && s.writers[w].mutex !in s.holder
    case Write(w) => IsWriting(s, w) && HasNext(s.writers[w]) && s.alive
    case Fail(w, n) => IsWriting(s, w) && HasNext(s.writers[w])
      && n < |Parts(s.writers[w].m)[s.writers[w].sent]| && (!s.alive ==> n == 0)
    case Unlock(w) => IsWriting(s, w) && !HasNext(s.writers[w])
    case Release => !s.released
  }

  function Next(s: Socket, step: Step): Socket
    requires Enabled(s, step)
  {
    match step
    case Enter(w, m) =>
      if s.current.Some? then s.(writers := s.writers[w := Waiting(s.current.value, m)])
      else s.(current := Some(s.nextMutex), nextMutex := s.nextMutex + 1,
              writers := s.writers[w := Waiting(s.nextMutex, m)])
    case Lock(w) =>
      var x := s.writers[w];
      s.(holder := s.holder[x.mutex := w], writers := s.writers[w := Writing(x.mutex, x.m, 0)])
    case Write(w) =>
      var x := s.writers[w];
      s.(wire := s.wire + Parts(x.m)[x.sent],
         writers := s.writers[w := x.(sent := x.sent + 1)],
         written := if x.sent + 1 == PartCount(x.m) then s.written + [x.m] else s.written)
    case Fail(w, n) =>
      var x := s.writers[w];
      s.(wire := s.wire + Parts(x.m)[x.sent][..n], alive := false,
         holder := s.holder - {x.mutex}, writers := s.writers[w := Finished],
         cut := if s.alive then Some(x.m) else s.cut)
    case Unlock(w) =>
      s.(holder := s.holder - {s.writers[w].mutex}, writers := s.writers[w := Finished])
    case Release => s.(current := None, released := true)
  }

  ghost predicate ValidRun(s: Socket, steps: seq<Step>)
    decreases |steps|
  {
    steps == [] || (Enabled(s, steps[0]) && ValidRun(Next(s, steps[0]), steps[1..]))
  }

  ghost function After(s: Socket, steps: seq<Step>): Socket
    requires ValidRun(s, steps)
    decreases |steps|
  {
    if steps == [] then s else After(Next(s, steps[0]), steps[1..])
  }

  // ---------- the locks, released or not ----------

  /** A mutex has at most one holder, whoever is between its writes holds the mutex it found, and the next
      mutex is a fresh one. */
  predicate LockInv(s: Socket) {
    && (s.current.Some? ==> s.current.value < s.nextMutex)
    && (forall w :: w in s.writers ==> WriterOk(s, w, s.writers[w]))
    && (forall mutex :: mutex in s.holder ==> HolderOk(s, mutex, s.holder[mutex]))
  }

  predicate WriterOk(s: Socket, w: nat, x: Writer) {
    match x
    case Waiting(mutex, m) => mutex < s.nextMutex && Sendable(m)
    case Writing(mutex, m, sent) =>
      mutex in s.holder && s.holder[mutex] == w && Sendable(m) && sent <= PartCount(m)
    case Finished => true
  }

  predicate HolderOk(s: Socket, mutex: nat, w: nat) {
    mutex < s.nextMutex && IsWriting(s, w) && s.writers[w].mutex == mutex
  }

  lemma StepKeepsLocks(s: Socket, step: Step)
    requires LockInv(s) && Enabled(s, step)
    ensures LockInv(Next(s, step))
  {
    match step
    case Enter(w, m) => EnterKeepsLocks(s, w, m);
    case Lock(w) => LockKeepsLocks(s, w);
    case Write(w) => WriteKeepsLocks(s, w);
    case Fail(w, n) => FinishKeepsLocks(s, w, Next(s, step));
    case Unlock(w) => FinishKeepsLocks(s, w, Next(s, step));
    case Release =>
  }

  lemma EnterKeepsLocks(s: Socket, w: nat, m: Message)
    requires LockInv(s) && Enabled(s, Enter(w, m))
    ensures LockInv(Next(s, Enter(w, m)))
  {
    var t := Next(s, Enter(w, m));
    forall v | v in t.writers ensures WriterOk(t, v, t.writers[v]) {
      if v != w {
        assert WriterOk(s, v, s.writers[v]);
      }
    }
    forall mutex | mutex in t.holder ensures HolderOk(t, mutex, t.holder[mutex]) {
      assert HolderOk(s, mutex, s.holder[mutex]);
    }
  }

  lemma LockKeepsLocks(s: Socket, w: nat)
    requires LockInv(s) && Enabled(s, Lock(w))
    ensures LockInv(Next(s, Lock(w)))
  {
    var t := Next(s, Lock(w));
    forall v | v in t.writers ensures WriterOk(t, v, t.writers[v]) {
      assert WriterOk(s, v, s.writers[v]);
    }
    forall mutex | mutex in t.holder ensures HolderOk(t, mutex, t.holder[mutex]) {
      if mutex != s.writers[w].mutex {
        assert HolderOk(s, mutex, s.holder[mutex]);
      }
    }
  }

  lemma WriteKeepsLocks(s: Socket, w: nat)
    requires LockInv(s) && Enabled(s, Write(w))
    ensures LockInv(Next(s, Write(w)))
  {
    var t := Next(s, Write(w));
    forall v | v in t.writers ensures WriterOk(t, v, t.writers[v]) {
      assert WriterOk(s, v, s.writers[v]);
    }
    forall mutex | mutex in t.holder ensures HolderOk(t, mutex, t.holder[mutex]) {
      assert HolderOk(s, mutex, s.holder[mutex]);
    }
  }

  /** A call that returns gives back the mutex it holds, and no other. */
  lemma FinishKeepsLocks(s: Socket, w: nat, t: Socket)
    requires LockInv(s) && IsWriting(s, w)
    requires t.current == s.current && t.nextMutex == s.nextMutex
    requires t.holder == s.holder - {s.writers[w].mutex} && t.writers == s.writers[w := Finished]
    ensures LockInv(t)
  {
    forall v | v in t.writers ensures WriterOk(t, v, t.writers[v]) {
      assert WriterOk(s, v, s.writers[v]) && WriterOk(s, w, s.writers[w]);
    }
    forall mutex | mutex in t.holder ensures HolderOk(t, mutex, t.holder[mutex]) {
      assert HolderOk(s, mutex, s.holder[mutex]);
    }
  }

  // ---------- while every call in flight has found the same mutex ----------

  /** A call that still has something to write. */
  predicate Pending(x: Writer) {
    x.Waiting? || HasNext(x)
  }

  /** Every call in flight has found this mutex, and the next one will: it is the entry's, or the one the
      next entry gets. */
  predicate OneMutex(s: Socket, mutex: nat) {
    && LockInv(s)
    && (s.current == Some(mutex) || (s.current.None? && s.nextMutex == mutex))
    && forall w :: w in s.writers && Pending(s.writers[w]) ==> s.writers[w].mutex == mutex
  }

  /** The bytes behind the whole frames: what the lock owner has written of its own frame - nothing once
      it is complete - or what a failed write left behind. */
  predicate TailIs(s: Socket, mutex: nat, tail: seq<byte>)
    requires LockInv(s)
  {
    if s.alive then
      if mutex in s.holder && HasNext(s.writers[s.holder[mutex]]) then
        var x := s.writers[s.holder[mutex]];
        tail == Concat(Parts(x.m)[..x.sent])
      else tail == []
    else s.cut.Some? && Sendable(s.cut.value) && tail < Frame(s.cut.value)
  }

  ghost predicate WireInv(s: Socket, mutex: nat) {
    && OneMutex(s, mutex) && AllSendable(s.written)
    && exists tail: seq<byte> :: s.wire == Frames(s.written) + tail && TailIs(s, mutex, tail)
  }

  lemma PartsOfFrame(m: Message, k: nat)
    requires Sendable(m) && k < PartCount(m)
    ensures Concat(Parts(m)[..k + 1]) == Concat(Parts(m)[..k]) + Parts(m)[k]
    ensures Concat(Parts(m)[..k]) + Parts(m)[k] <= Frame(m)
    ensures Parts(m)[k] != []
  {
    var p := Parts(m);
    assert p[..k + 1] == p[..k] + [p[k]];
    ConcatSnoc(p[..k], p[k]);
    assert p == p[..k + 1] + p[k + 1..];
    ConcatAppend(p[..k + 1], p[k + 1..]);
  }

  lemma StepKeepsMutex(s: Socket, step: Step, mutex: nat)
    requires OneMutex(s, mutex) && Enabled(s, step) && !step.Release?
    ensures OneMutex(Next(s, step), mutex)
  {
    StepKeepsLocks(s, step);
  }

  lemma StepKeepsWire(s: Socket, step: Step, mutex: nat)
    requires WireInv(s, mutex) && Enabled(s, step) && !step.Release?
    ensures WireInv(Next(s, step), mutex)
  {
    StepKeepsMutex(s, step, mutex);
    var tail: seq<byte> :| s.wire == Frames(s.written) + tail && TailIs(s, mutex, tail);
    var t := Next(s, step);
    if step.Write? {
      WriteKeepsWire(s, step.w, mutex, tail);
    } else if step.Fail? {
      FailKeepsWire(s, step.w, step.n, mutex, tail);
    } else {
      assert step.Lock? ==> Concat(Parts(s.writers[step.w].m)[..0]) == [];
      assert TailIs(t, mutex, tail);
    }
  }

  lemma WriteKeepsWire(s: Socket, w: nat, mutex: nat, tail: seq<byte>)
    requires WireInv(s, mutex) && Enabled(s, Write(w))
    requires s.wire == Frames(s.written) + tail && TailIs(s, mutex, tail)
    ensures WireInv(Next(s, Write(w)), mutex)
  {
    StepKeepsMutex(s, Write(w), mutex);
    var x, t := s.writers[w], Next(s, Write(w));
    var part := Parts(x.m)[x.sent];
    PartsOfFrame(x.m, x.sent);
    Assoc(Frames(s.written), tail, part);
    if x.sent + 1 == PartCount(x.m) {
      assert Parts(x.m)[..x.sent + 1] == Parts(x.m);
      FramesSnoc(s.written, x.m);
      EmptyEnds(t.wire);
      assert TailIs(t, mutex, []);
    } else {
      assert TailIs(t, mutex, tail + part);
    }
  }

  lemma FailKeepsWire(s: Socket, w: nat, n: nat, mutex: nat, tail: seq<byte>)
    requires WireInv(s, mutex) && Enabled(s, Fail(w, n))
    requires s.wire == Frames(s.written) + tail && TailIs(s, mutex, tail)
    ensures WireInv(Next(s, Fail(w, n)), mutex)
  {
    StepKeepsMutex(s, Fail(w, n), mutex);
    var x, t := s.writers[w], Next(s, Fail(w, n));
    var part := Parts(x.m)[x.sent];
    if s.alive {
      PartsOfFrame(x.m, x.sent);
      assert tail + part[..n] < tail + part;
      Assoc(Frames(s.written), tail, part[..n]);
      assert TailIs(t, mutex, tail + part[..n]);
    } else {
      assert part[..n] == [];
      EmptyEnds(s.wire);
      assert TailIs(t, mutex, tail);
    }
  }

  /** A connection is released once, so that on a released one no further run has a release in it. */
  lemma {:induction false} RunKeepsWire(s: Socket, steps: seq<Step>, mutex: nat)
    requires WireInv(s, mutex) && ValidRun(s, steps) && (s.released || Release !in steps)
    ensures WireInv(After(s, steps), mutex) && After(s, steps).released == s.released
    decreases |steps|
  {
    if steps != [] {
      assert steps[0] in steps;
      StepKeepsWire(s, steps[0], mutex);
      RunKeepsWire(Next(s, steps[0]), steps[1..], mutex);
    }
  }

  /** A peer running the same frame loop gets exactly the completed commands and bodies, in the order they
      were completed, with every magic check passing. */
  predicate Readable(s: Socket) {
    ReadFrames(s.wire).0 == s.written && ReadFrames(s.wire).1 != MagicMismatch
  }

  lemma WireReads(s: Socket, mutex: nat)
    requires WireInv(s, mutex)
    ensures Readable(s)
    ensures exists tail: seq<byte>, m: Message :: s.wire == Frames(s.written) + tail && Sendable(m) && tail < Frame(m)
  {
    var tail: seq<byte> :| s.wire == Frames(s.written) + tail && TailIs(s, mutex, tail);
    var m := TailIsPrefix(s, mutex, tail);
    ReaderRecovers(s.written, m, tail);
  }

  lemma TailIsPrefix(s: Socket, mutex: nat, tail: seq<byte>) returns (m: Message)
    requires LockInv(s) && TailIs(s, mutex, tail)
    ensures Sendable(m) && tail < Frame(m)
  {
    if !s.alive {
      m := s.cut.value;
    } else if mutex in s.holder && HasNext(s.writers[s.holder[mutex]]) {
      var x := s.writers[s.holder[mutex]];
      m := x.m;
      PartsOfFrame(m, x.sent);
    } else {
      m := Message(0, []);
      PartsOfFrame(m, 0);
      assert Concat(Parts(m)[..0]) == [];
    }
  }

  lemma UnreleasedInv(steps: seq<Step>)
    requires ValidRun(OPENED, steps) && Release !in steps
    ensures WireInv(After(OPENED, steps), 0) && !After(OPENED, steps).released
  {
    assert OPENED.wire == Frames(OPENED.written) + [] && TailIs(OPENED, 0, []);
    RunKeepsWire(OPENED, steps, 0);
  }

  /** Until the connection is released, whatever the interleaving and whichever write fails, the bytes on
      it are whole frames and at most one proper prefix, and the peer reads what was written. */
  lemma WritersNeverMix(steps: seq<Step>)
    requires ValidRun(OPENED, steps) && Release !in steps
    ensures var s := After(OPENED, steps);
      && AllSendable(s.written)
      && (exists tail: seq<byte>, m: Message :: s.wire == Frames(s.written) + tail && Sendable(m) && tail < Frame(m))
      && Readable(s)
  {
    UnreleasedInv(steps);
    WireReads(After(OPENED, steps), 0);
  }

  /** Some run without a release ends with a failed write and these bytes. */
  ghost predicate CanLeave(s: Socket, wire: seq<byte>) {
    exists steps ::
      ValidRun(s, steps) && Release !in steps && !After(s, steps).alive && After(s, steps).wire == wire
  }

  lemma CanLeaveBy(s: Socket, step: Step, wire: seq<byte>)
    requires Enabled(s, step) && !step.Release? && CanLeave(Next(s, step), wire)
    ensures CanLeave(s, wire)
  {
    var rest :| ValidRun(Next(s, step), rest) && Release !in rest
      && !After(Next(s, step), rest).alive && After(Next(s, step), rest).wire == wire;
    var steps := [step] + rest;
    assert steps[1..] == rest;
    assert ValidRun(s, steps) && After(s, steps) == After(Next(s, step), rest);
  }

  /** No less can be promised: every proper prefix of every frame is what some failed write leaves. */
  lemma AnyPrefixCanBeLeft(m: Message, tail: seq<byte>)
    requires Sendable(m) && tail < Frame(m)
    ensures CanLeave(OPENED, tail)
  {
    var s1 := Next(OPENED, Enter(0, m));
    var s2 := Next(s1, Lock(0));
    assert Parts(m)[0..] == Parts(m);
    EmptyEnds(tail);
    CutAnywhere(s2, 0, tail);
    CanLeaveBy(s1, Lock(0), tail);
    CanLeaveBy(OPENED, Enter(0, m), tail);
  }

  lemma {:induction false} CutAnywhere(s: Socket, w: nat, tail: seq<byte>)
    requires s.alive && IsWriting(s, w) && HasNext(s.writers[w])
    requires tail < Concat(Parts(s.writers[w].m)[s.writers[w].sent..])
    ensures CanLeave(s, s.wire + tail)
    decreases |tail|
  {
    var x := s.writers[w];
    var p := Parts(x.m);
    var part, behind := p[x.sent], Concat(p[x.sent + 1..]);
    PartsOfFrame(x.m, x.sent);
    assert p[x.sent..][0] == part && p[x.sent..][1..] == p[x.sent + 1..];
    assert Concat(p[x.sent..]) == part + behind;
    if |tail| < |part| {
      var t := Next(s, Fail(w, |tail|));
      PrefixOfFirst(tail, part, behind);
      assert ValidRun(t, []) && After(t, []) == t;
      CanLeaveBy(s, Fail(w, |tail|), s.wire + tail);
    } else {
      var rest := tail[|part|..];
      PrefixPastFirst(tail, part, behind);
      Assoc(s.wire, part, rest);
      CutAnywhere(Next(s, Write(w)), w, rest);
      CanLeaveBy(s, Write(w), s.wire + tail);
    }
  }

  lemma PrefixOfFirst(tail: seq<byte>, part: seq<byte>, behind: seq<byte>)
    requires tail < part + behind && |tail| < |part|
    ensures part[..|tail|] == tail
  {
    assert (part + behind)[..|tail|] == part[..|tail|];
  }

  lemma PrefixPastFirst(tail: seq<byte>, part: seq<byte>, behind: seq<byte>)
    requires tail < part + behind && |tail| >= |part|
    ensures tail == part + tail[|part|..] && tail[|part|..] < behind
  {
    assert (part + behind)[..|tail|] == tail;
    assert tail[..|part|] == part;
    assert tail[|part|..] == behind[..|tail| - |part|];
  }

  // ---------- once it is released ----------

  /** What a caller could look at before releasing: the socket has failed, or no call has anything left to
      write. */
  predicate Quiet(s: Socket) {
    !s.alive || forall w :: w in s.writers ==> !Pending(s.writers[w])
  }

  ghost predicate AlwaysReadable(s: Socket) {
    forall more :: ValidRun(s, more) ==> Readable(After(s, more))
  }

  /** The pushes no reader of the connection starts, so that they can come after the release: the grace
      timer's clock (hud/net/pxc.go:449) and the app status (hud/net/appstatus.go:190). */
  const CLOCK_PUSH: u32 := 0x10451
  const APP_STATUS: u32 := 0x20030

  predicate LatePush(m: Message, body: seq<byte>) {
    m == Message(CLOCK_PUSH, body) || m == Message(APP_STATUS, body)
  }

  /** Exclusion survives the release of a connection exactly when the release finds it quiet. If a call is
      in flight, a clock or status push - with any body at all - can be written into it. */
  lemma ReleaseKeepsFramingExactly(steps: seq<Step>, body: seq<byte>)
    requires ValidRun(OPENED, steps) && Release !in steps
    requires Sendable(Message(CLOCK_PUSH, body))
    ensures var s := After(OPENED, steps);
      && Enabled(s, Release)
      && (Quiet(s) <==> AlwaysReadable(Next(s, Release)))
      && (!Quiet(s) ==> exists t :: ReachesLate(Next(s, Release), t, body) && t.alive && !Readable(t))
  {
    UnreleasedInv(steps);
    var s := After(OPENED, steps);
    if !Quiet(s) {
      var t := CallInFlightIsMixed(s, body);
      var more :| ValidRun(Next(s, Release), more) && After(Next(s, Release), more) == t;
    } else {
      forall more | ValidRun(Next(s, Release), more) ensures Readable(After(Next(s, Release), more)) {
        QuietRelease(s, more);
      }
    }
  }

  lemma QuietRelease(s: Socket, more: seq<Step>)
    requires WireInv(s, 0) && !s.released && Quiet(s) && ValidRun(Next(s, Release), more)
    ensures Readable(After(Next(s, Release), more))
  {
    var r := Next(s, Release);
    if s.alive {
      var tail: seq<byte> :| s.wire == Frames(s.written) + tail && TailIs(s, 0, tail);
      assert TailIs(r, s.nextMutex, tail);
      assert WireInv(r, s.nextMutex);
      RunKeepsWire(r, more, s.nextMutex);
      WireReads(After(r, more), s.nextMutex);
    } else {
      WireReads(s, 0);
      DeadStaysDead(r, more);
    }
  }

  lemma {:induction false} DeadStaysDead(s: Socket, steps: seq<Step>)
    requires !s.alive && ValidRun(s, steps)
    ensures After(s, steps).wire == s.wire && After(s, steps).written == s.written
    decreases |steps|
  {
    if steps != [] {
      assert Next(s, steps[0]).wire == s.wire;
      DeadStaysDead(Next(s, steps[0]), steps[1..]);
    }
  }

  // ---------- a call in flight at the release ----------

  /** t can come next, with nobody entering but clock and status pushes with this body. */
  ghost predicate ReachesLate(s: Socket, t: Socket, body: seq<byte>) {
    exists steps :: ValidRun(s, steps) && After(s, steps) == t && OnlyLatePushes(steps, body)
  }

  predicate OnlyLatePushes(steps: seq<Step>, body: seq<byte>) {
    forall k :: 0 <= k < |steps| && steps[k].Enter? ==> LatePush(steps[k].m, body)
  }

  lemma ReachesSelf(s: Socket, body: seq<byte>)
    ensures ReachesLate(s, s, body)
  {
    assert ValidRun(s, []) && After(s, []) == s && OnlyLatePushes([], body);
  }

  lemma ReachesBy(s: Socket, step: Step, t: Socket, body: seq<byte>)
    requires Enabled(s, step) && ReachesLate(Next(s, step), t, body)
    requires step.Enter? ==> LatePush(step.m, body)
    ensures ReachesLate(s, t, body)
  {
    var rest :| ValidRun(Next(s, step), rest) && After(Next(s, step), rest) == t && OnlyLatePushes(rest, body);
    var steps := [step] + rest;
    assert steps[1..] == rest;
    assert ValidRun(s, steps) && After(s, steps) == t && OnlyLatePushes(steps, body);
  }

  /** A call that is under way on a live, released connection whose map entry is gone. */
  predicate Cut(s: Socket, w: nat) {
    && LockInv(s) && AllSendable(s.written)
    && s.alive && s.current.None?
    && IsWriting(s, w) && HasNext(s.writers[w]) && s.writers[w].sent > 0
    && s.wire == Frames(s.written) + Concat(Parts(s.writers[w].m)[..s.writers[w].sent])
  }

  lemma CallInFlightIsMixed(s: Socket, body: seq<byte>) returns (t: Socket)
    requires WireInv(s, 0) && !s.released && !Quiet(s)
    requires Sendable(Message(CLOCK_PUSH, body))
    ensures ReachesLate(Next(s, Release), t, body) && t.alive && !Readable(t)
  {
    var r := Next(s, Release);
    var w :| w in s.writers && Pending(s.writers[w]);
    if 0 in s.holder && HasNext(s.writers[s.holder[0]]) {
      assert TailIs(r, 0, Concat(Parts(s.writers[s.holder[0]].m)[..s.writers[s.holder[0]].sent]));
      t := OwnerIsMixed(r, s.holder[0], body);
    } else if 0 in s.holder {
      var u := Next(r, Unlock(s.holder[0]));
      EmptyEnds(Frames(s.written));
      t := WaiterIsMixed(u, w, body);
      ReachesBy(r, Unlock(s.holder[0]), t, body);
    } else {
      EmptyEnds(Frames(s.written));
      t := WaiterIsMixed(r, w, body);
    }
  }

  lemma WaiterIsMixed(s: Socket, w: nat, body: seq<byte>) returns (t: Socket)
    requires LockInv(s) && AllSendable(s.written) && s.alive && s.current.None?
    requires Enabled(s, Lock(w)) && s.wire == Frames(s.written)
    requires Sendable(Message(CLOCK_PUSH, body))
    ensures ReachesLate(s, t, body) && t.alive && !Readable(t)
  {
    var u := Next(s, Lock(w));
    StepKeepsLocks(s, Lock(w));
    assert Parts(s.writers[w].m)[..0] == [];
    EmptyEnds(s.wire);
    t := OwnerIsMixed(u, w, body);
    ReachesBy(s, Lock(w), t, body);
  }

  lemma OwnerIsMixed(s: Socket, w: nat, body: seq<byte>) returns (t: Socket)
    requires LockInv(s) && AllSendable(s.written) && s.alive && s.current.None?
    requires IsWriting(s, w) && HasNext(s.writers[w])
    requires s.wire == Frames(s.written) + Concat(Parts(s.writers[w].m)[..s.writers[w].sent])
    requires Sendable(Message(CLOCK_PUSH, body))
    ensures ReachesLate(s, t, body) && t.alive && !Readable(t)
  {
    if s.writers[w].sent > 0 {
      t := PushIntoCut(s, w, body);
    } else {
      var x, u := s.writers[w], Next(s, Write(w));
      StepKeepsLocks(s, Write(w));
      PartsOfFrame(x.m, 0);
      Assoc(Frames(s.written), Concat(Parts(x.m)[..0]), Parts(x.m)[0]);
      t := PushIntoCut(u, w, body);
      ReachesBy(s, Write(w), t, body);
    }
  }

  /** The push is chosen so that its command is not the one the peer has read already. */
  lemma PushIntoCut(s: Socket, w: nat, body: seq<byte>) returns (t: Socket)
    requires Cut(s, w) && Sendable(Message(CLOCK_PUSH, body))
    ensures ReachesLate(s, t, body) && t.alive && !Readable(t)
  {
    var m := s.writers[w].m;
    var late := Message(if m.command == CLOCK_PUSH then APP_STATUS else CLOCK_PUSH, body);
    t := LateCall(s, late, body);
    CutCommandWins(s.written, m, s.writers[w].sent, late);
  }

  /** With no entry in the map, a late push enters with a mutex of its own and writes its whole frame. */
  lemma LateCall(s: Socket, late: Message, body: seq<byte>) returns (t: Socket)
    requires LockInv(s) && s.alive && s.current.None? && Sendable(late) && LatePush(late, body)
    ensures ReachesLate(s, t, body) && t.alive && t.released == s.released
    ensures t.wire == s.wire + Frame(late) && t.written == s.written + [late]
  {
    var v := FreshId(s.writers.Keys);
    var u1 := Next(s, Enter(v, late));
    var u2 := Next(u1, Lock(v));
    t := WriteOut(u2, v, body);
    assert Parts(late)[0..] == Parts(late);
    ReachesBy(u1, Lock(v), t, body);
    ReachesBy(s, Enter(v, late), t, body);
  }

  lemma {:induction false} FreshId(used: set<nat>) returns (v: nat)
    ensures forall w :: w in used ==> w < v
    decreases used
  {
    if used == {} {
      v := 0;
    } else {
      var w :| w in used;
      var rest := FreshId(used - {w});
      v := if w < rest then rest else w + 1;
      assert forall u :: u in used ==> u == w || u in used - {w};
    }
  }

  lemma {:induction false} WriteOut(s: Socket, w: nat, body: seq<byte>) returns (t: Socket)
    requires s.alive && IsWriting(s, w) && HasNext(s.writers[w])
    ensures ReachesLate(s, t, body) && t.alive && t.released == s.released
    ensures var x := s.writers[w];
      t.wire == s.wire + Concat(Parts(x.m)[x.sent..]) && t.written == s.written + [x.m]
    decreases PartCount(s.writers[w].m) - s.writers[w].sent
  {
    var x := s.writers[w];
    var u := Next(s, Write(w));
    var p := Parts(x.m);
    assert p[x.sent..][0] == p[x.sent] && p[x.sent..][1..] == p[x.sent + 1..];
    Assoc(s.wire, p[x.sent], Concat(p[x.sent + 1..]));
    if x.sent + 1 == |p| {
      t := u;
      EmptyEnds(p[x.sent]);
      ReachesSelf(t, body);
    } else {
      t := WriteOut(u, w, body);
    }
    ReachesBy(s, Write(w), t, body);
  }

  /** Behind the start of a frame the peer's next header is that frame's: what it reads there cannot begin
      with the late message. */
  lemma CutCommandWins(written: seq<Message>, m: Message, sent: nat, late: Message)
    requires AllSendable(written) && Sendable(m) && Sendable(late) && late.command != m.command
    requires 0 < sent < PartCount(m)
    ensures ReadFrames(Frames(written) + Concat(Parts(m)[..sent]) + Frame(late)).0 != written + [late]
  {
    var start := Concat(Parts(m)[..sent]);
    var rest := start + Frame(late);
    StartsWithCommand(m, sent);
    FramesRead(written, rest);
    Assoc(Frames(written), start, Frame(late));
    FirstCommand(rest, m.command);
    assert (written + ReadFrames(rest).0)[|written|..] == ReadFrames(rest).0;
    assert (written + [late])[|written|..] == [late];
  }

  lemma StartsWithCommand(m: Message, sent: nat)
    requires Sendable(m) && 0 < sent < PartCount(m)
    ensures LittleEndian(m.command, WORD) <= Concat(Parts(m)[..sent])
  {
    assert Parts(m)[..sent][0] == LittleEndian(m.command, WORD);
  }

  lemma FirstCommand(wire: seq<byte>, command: u32)
    requires LittleEndian(command, WORD) <= wire
    ensures var read := ReadFrames(wire).0; read != [] ==> read[0].command == command
  {
    if |wire| >= 16 {
      assert wire[0..4] == LittleEndian(command, WORD);
      Pow256Of4();
      LittleEndianInverse(command, WORD);
    }
  }

  // ---------- one such run ----------

  const BEAT := Message(0x7000_0000, [])

  /** A heartbeat (hud/net/pxc.go:687) that has written its command still holds the old mutex when the grace
      timer finds no entry, makes a fresh one, and writes its clock - any body of even length - into the
      middle. The peer reads no message at all and its magic check fails. */
  lemma ReleaseEndsExclusion(body: seq<byte>)
    requires Sendable(Message(CLOCK_PUSH, body)) && |body| % 2 == 0
    ensures var beat := [Enter(0, BEAT), Lock(0), Write(0)];
      && ValidRun(OPENED, beat) && Enabled(After(OPENED, beat), Release)
      && exists t :: ReachesLate(Next(After(OPENED, beat), Release), t, body) && t.alive
                     && ReadFrames(t.wire) == ([], MagicMismatch)
  {
    BeatUnderWay();
    var s := OPENED.(wire := Parts(BEAT)[0], holder := map[0 := 0], writers := map[0 := Writing(0, BEAT, 1)]);
    var t := LateCall(Next(s, Release), Message(CLOCK_PUSH, body), body);
    MixedBytes(t.wire, BEAT.command, Message(CLOCK_PUSH, body));
  }

  lemma BeatUnderWay()
    ensures ValidRun(OPENED, [Enter(0, BEAT), Lock(0), Write(0)])
    ensures After(OPENED, [Enter(0, BEAT), Lock(0), Write(0)])
      == OPENED.(wire := Parts(BEAT)[0], holder := map[0 := 0], writers := map[0 := Writing(0, BEAT, 1)])
  {
    var steps := [Enter(0, BEAT), Lock(0), Write(0)];
    var s1 := OPENED.(writers := map[0 := Waiting(0, BEAT)]);
    var s2 := s1.(holder := map[0 := 0], writers := map[0 := Writing(0, BEAT, 0)]);
    var s3 := OPENED.(wire := Parts(BEAT)[0], holder := map[0 := 0], writers := map[0 := Writing(0, BEAT, 1)]);
    assert Next(OPENED, Enter(0, BEAT)) == s1;
    assert Next(s1, Lock(0)) == s2;
    assert [] + Parts(BEAT)[0] == Parts(BEAT)[0];
    assert Next(s2, Write(0)) == s3;
    assert steps[1..] == [Lock(0), Write(0)] && steps[1..][1..] == [Write(0)] && steps[1..][1..][1..] == [];
    assert ValidRun(s3, []) && After(s3, []) == s3;
    assert ValidRun(s2, [Write(0)]) && After(s2, [Write(0)]) == s3;
    assert ValidRun(s1, steps[1..]) && After(s1, steps[1..]) == s3;
  }

  /** An even command, and behind it a frame with an odd one: an odd size over an even command cannot have
      an even magic. */
  lemma MixedBytes(wire: seq<byte>, cut: u32, m: Message)
    requires cut % 2 == 0 && Sendable(m) && m.command % 2 == 1 && |m.body| % 2 == 0
    requires wire == LittleEndian(cut, WORD) + Frame(m)
    ensures ReadFrames(wire) == ([], MagicMismatch)
  {
    var size := PXC_HEADER_SIZE + |m.body|;
    FrameLayout(m);
    WordReads(cut);
    WordReads(m.command);
    WordReads(size);
    MisreadFrame(wire, LittleEndian(cut, WORD), LittleEndian(m.command, WORD), LittleEndian(size, WORD),
                 LittleEndian(Xor(size, m.command), WORD), LittleEndian(0, WORD), m.body);
  }

  lemma MisreadFrame(wire: seq<byte>, command: seq<byte>, size: seq<byte>, magic: seq<byte>,
                     c: seq<byte>, d: seq<byte>, body: seq<byte>)
    requires |command| == |size| == |magic| == |c| == |d| == 4
    requires wire == command + (size + magic + c + d + body)
    requires FromLittleEndian(command) % 2 == 0 && FromLittleEndian(size) % 2 == 1
    requires FromLittleEndian(magic) % 2 == 0
    ensures ReadFrames(wire) == ([], MagicMismatch)
  {
    Assoc4(size, magic, c, d, body);
    Misread(wire, command, size, magic, c + d + body);
  }

  lemma Assoc4(a: seq<byte>, b: seq<byte>, c: seq<byte>, d: seq<byte>, e: seq<byte>)
    ensures a + b + c + d + e == a + (b + (c + d + e))
  {
  }

  lemma WordReads(n: u32)
    ensures FromLittleEndian(LittleEndian(n, WORD)) == n
  {
    Pow256Of4();
    LittleEndianInverse(n, WORD);
  }

  lemma Misread(wire: seq<byte>, command: seq<byte>, size: seq<byte>, magic: seq<byte>, rest: seq<byte>)
    requires |command| == |size| == |magic| == 4 && |rest| >= 8
    requires wire == command + (size + (magic + rest))
    requires FromLittleEndian(command) % 2 == 0 && FromLittleEndian(size) % 2 == 1
    requires FromLittleEndian(magic) % 2 == 0
    ensures ReadFrames(wire) == ([], MagicMismatch)
  {
    assert wire[0..4] == command && wire[4..8] == size && wire[8..12] == magic;
    OddOverEven(wire);
  }

  lemma OddOverEven(wire: seq<byte>)
    requires |wire| >= 16 && CommandOf(wire) % 2 == 0 && SizeOf(wire) % 2 == 1 && MagicOf(wire) % 2 == 0
    ensures ReadFrames(wire) == ([], MagicMismatch)
  {
    HeaderBounds(wire);
    XorParity(SizeOf(wire), CommandOf(wire));
  }
}
