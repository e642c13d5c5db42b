/** The poll-driven video socket of hud/net/stream_dta.go: eight-byte headers in, one reply each out. */
module VideoSocket {
  import opened Bytes

  const POLL_COMMAND := 0x0072
  const IDLE_BYTES: seq<byte> := [0, 0, 0, 0]

  // ---------- framing ----------

  /** What one header is answered with. */
  datatype Answer = Idle | Unit(index: u32, plain: bool, body: seq<byte>)

  function Framed(body: seq<byte>, index: u32, withIndex: bool): seq<byte> {
    LittleEndian(Truncate32(|body| + if withIndex then 4 else 0), WORD)
    + (if withIndex then LittleEndian(index, WORD) else [])
    + body
  }

  method BuildFramedPacket(body: seq<byte>, frameCounter: u32, withIndex: bool)
    returns (frame: seq<byte>, idx: u32)
    ensures frame == Framed(body, frameCounter, withIndex) && idx == frameCounter
  {
    idx := frameCounter;
    var payloadLen := |body|;
    if withIndex {
      payloadLen := payloadLen + 4;
    }
    frame := LittleEndian(Truncate32(payloadLen), WORD);
    if withIndex {
      frame := frame + LittleEndian(idx, WORD);
    }
    frame := frame + body;
  }

  function Encode(a: Answer): seq<byte> {
    match a
    case Idle => IDLE_BYTES
    case Unit(index, plain, body) => Framed(body, index, !plain)
  }

  function Stream(answers: seq<Answer>): seq<byte> {
    if answers == [] then [] else Encode(answers[0]) + Stream(answers[1..])
  }

  // ---------- the writer ----------

  /** The sending side of a connection: what is on the wire, in which pieces, and how many more bytes
      it takes before it fails; None never fails. A failed write leaves a prefix behind. */
  class Wire {
    var sent: seq<byte>
    var pieces: seq<seq<byte>>
    var room: Option<nat>

    constructor (room: Option<nat>)
      ensures sent == [] && pieces == [] && this.room == room
    {
      sent, pieces, this.room := [], [], room;
    }

    method Write(b: seq<byte>) returns (ok: bool)
      modifies this
      ensures ok ==> sent == old(sent) + b && pieces == old(pieces) + [b]
      ensures !ok ==> pieces == old(pieces) && CutShort(old(sent), b, sent)
      ensures ok <==> old(room).None? || |b| <= old(room).value
    {
      if room.None? {
        sent, pieces := sent + b, pieces + [b];
        return true;
      }
      if |b| <= room.value {
        sent, pieces, room := sent + b, pieces + [b], Some(room.value - |b|);
        return true;
      }
      sent := sent + b[..room.value];
      room := Some(0);
      return false;
    }
  }

  /** `after` is `before` and then some, but not all, of `b`. */
  ghost predicate CutShort(before: seq<byte>, b: seq<byte>, after: seq<byte>) {
    exists p: seq<byte> :: p < b && after == before + p
  }

  lemma CutInside(before: seq<byte>, frame: seq<byte>, offset: nat, end: nat, after: seq<byte>)
    requires offset <= end <= |frame| && CutShort(before + frame[..offset], frame[offset..end], after)
    ensures CutShort(before, frame, after)
  {
    var p: seq<byte> :| p < frame[offset..end] && after == before + frame[..offset] + p;
    assert frame[..offset] + p == frame[..offset + |p|];
    assert after == before + (frame[..offset] + p);
  }

  predicate PiecesFit(pieces: seq<seq<byte>>, chunkSize: int) {
    forall k :: 0 <= k < |pieces| ==> pieces[k] != [] && |pieces[k]| <= chunkSize
  }

  /** The frame goes out whole and in order, in pieces no longer than chunkSize; on a failure, a proper
      prefix of it does. Without a chunk size it is one piece. */
  method SendChunked(w: Wire, frame: seq<byte>, chunkSize: int) returns (ok: bool)
    modifies w
    ensures ok ==> w.sent == old(w.sent) + frame
    ensures ok ==> old(w.pieces) <= w.pieces && Concat(w.pieces[|old(w.pieces)|..]) == frame
    ensures ok ==> if chunkSize <= 0 then w.pieces == old(w.pieces) + [frame]
                   else PiecesFit(w.pieces[|old(w.pieces)|..], chunkSize)
    ensures !ok ==> CutShort(old(w.sent), frame, w.sent)
  {
    if chunkSize <= 0 {
      ok := w.Write(frame);
      ConcatSingle(frame);
      assert ok ==> w.pieces[|old(w.pieces)|..] == [frame];
      return;
    }
    var offset := 0;
    ghost var mine: seq<seq<byte>> := [];
    while offset < |frame|
      invariant 0 <= offset <= |frame|
      invariant w.sent == old(w.sent) + frame[..offset]
      invariant w.pieces == old(w.pieces) + mine
      invariant Concat(mine) == frame[..offset] && PiecesFit(mine, chunkSize)
    {
      var end := offset + chunkSize;
      if end > |frame| {
        end := |frame|;
      }
      var piece := frame[offset..end];
      var sent := w.Write(piece);
      if !sent {
        CutInside(old(w.sent), frame, offset, end, w.sent);
        return false;
      }
      ConcatSnoc(mine, piece);
      mine := mine + [piece];
      assert frame[..offset] + piece == frame[..end];
      offset := end;
    }
    assert frame[..offset] == frame;
    return true;
  }

  // ---------- the loop ----------

  datatype SourceReply = NoFrame | Frame(au: seq<byte>) | SourceFailed

  /** The counters of one connection. */
  datatype Counters = Counters(frameCounter: u32, pollCount: nat)

  const ZERO := Counters(0, 0)

  function Header(input: seq<byte>, k: nat): seq<byte>
    requires 8 * (k + 1) <= |input|
  {
    input[8 * k..8 * k + 8]
  }

  predicate IsPoll(header: seq<byte>)
    requires |header| == 8
  {
    FromLittleEndian(header[..2]) == POLL_COMMAND
  }

  /** What the n-th poll gets from the frame source; a source that is not listed that far is idle. */
  function ReplyTo(source: seq<SourceReply>, n: nat): SourceReply {
    if n < |source| then source[n] else NoFrame
  }

  /** Whether plain framing is in force when header k is answered; indexed framing is the default. */
  function PlainAt(plain: seq<bool>, k: nat): bool {
    k < |plain| && plain[k]
  }

  /** One turn of the loop. */
  function Turn(c: Counters, header: seq<byte>, k: nat, source: seq<SourceReply>, plain: seq<bool>):
    (Counters, Answer)
    requires |header| == 8
  {
    if !IsPoll(header) then (c, Idle)
    else
      var polled := c.(pollCount := c.pollCount + 1);
      match ReplyTo(source, c.pollCount)
      case Frame(au) =>
        if au == [] then (polled, Idle)
        else (polled.(frameCounter := (c.frameCounter + 1) % 0x8000_0000), Unit(c.frameCounter, PlainAt(plain, k), au))
      case _ => (polled, Idle)
  }

  function CountersAfter(input: seq<byte>, n: nat, source: seq<SourceReply>, plain: seq<bool>): Counters
    requires 8 * n <= |input|
  {
    if n == 0 then ZERO
    else Turn(CountersAfter(input, n - 1, source, plain), Header(input, n - 1), n - 1, source, plain).0
  }

  function AnswerTo(input: seq<byte>, k: nat, source: seq<SourceReply>, plain: seq<bool>): Answer
    requires 8 * (k + 1) <= |input|
  {
    Turn(CountersAfter(input, k, source, plain), Header(input, k), k, source, plain).1
  }

  /** The answers to the first n headers. */
  function Answers(input: seq<byte>, n: nat, source: seq<SourceReply>, plain: seq<bool>): (r: seq<Answer>)
    requires 8 * n <= |input|
    ensures |r| == n
  {
    if n == 0 then [] else Answers(input, n - 1, source, plain) + [AnswerTo(input, n - 1, source, plain)]
  }

  lemma {:induction false} AnswersPrefix(input: seq<byte>, n: nat, k: nat, source: seq<SourceReply>, plain: seq<bool>)
    requires k < n && 8 * n <= |input|
    ensures Answers(input, n, source, plain)[k] == AnswerTo(input, k, source, plain)
    ensures Answers(input, n, source, plain)[..k] == Answers(input, k, source, plain)
  {
    if k < n - 1 {
      AnswersPrefix(input, n - 1, k, source, plain);
    }
  }

  lemma {:induction false} StreamSnoc(answers: seq<Answer>, a: Answer)
    ensures Stream(answers + [a]) == Stream(answers) + Encode(a)
  {
    if answers == [] {
      assert answers + [a] == [a] && [a][1..] == [];
      EmptyEnds(Encode(a));
    } else {
      StreamSnoc(answers[1..], a);
      assert (answers + [a])[1..] == answers[1..] + [a];
      Assoc(Encode(answers[0]), Stream(answers[1..]), Encode(a));
    }
  }

  /** The body of the loop once a header is in. */
  method Reply(c: Counters, header: seq<byte>, k: nat, source: seq<SourceReply>, plain: seq<bool>,
               w: Wire, chunkSize: int) returns (next: Counters, ok: bool)
    requires |header| == 8
    modifies w
    ensures next == Turn(c, header, k, source, plain).0
    ensures ok ==> w.sent == old(w.sent) + Encode(Turn(c, header, k, source, plain).1)
    ensures !ok ==> CutShort(old(w.sent), Encode(Turn(c, header, k, source, plain).1), w.sent)
  {
    next := c;
    if FromLittleEndian(header[..2]) != POLL_COMMAND {
      ok := w.Write(IDLE_BYTES);
      return;
    }
    var reply := ReplyTo(source, next.pollCount);
    next := next.(pollCount := next.pollCount + 1);
    if !reply.Frame? || |reply.au| == 0 {
      ok := w.Write(IDLE_BYTES);
      return;
    }
    var frame, idx := BuildFramedPacket(reply.au, next.frameCounter, !PlainAt(plain, k));
    next := next.(frameCounter := (next.frameCounter + 1) % 0x8000_0000);
    ok := SendChunked(w, frame, chunkSize);
  }

  datatype Ending = InputEnded | WriteFailed

  /** Every complete header gets exactly one reply, in order. The loop ends when the input does, with all
      headers answered, or at the first write that fails, having put a proper prefix of that reply on
      the wire and nothing after it. */
  method HandleConn(input: seq<byte>, source: seq<SourceReply>, plain: seq<bool>, w: Wire, chunkSize: int)
    returns (ending: Ending, answered: nat)
    modifies w
    ensures 8 * answered <= |input|
    ensures ending.InputEnded? ==> answered == |input| / 8
    ensures ending.InputEnded? ==> w.sent == old(w.sent) + Progress(input, answered, source, plain).1
    ensures ending.WriteFailed? ==> 8 * (answered + 1) <= |input|
    ensures ending.WriteFailed? ==>
      CutShort(old(w.sent) + Progress(input, answered, source, plain).1,
               Encode(AnswerTo(input, answered, source, plain)), w.sent)
  {
    answered := 0;
    var c := ZERO;
    ghost var before := w.sent;
    ghost var bytes: seq<byte> := [];
    while 8 * (answered + 1) <= |input|
      invariant 8 * answered <= |input|
      invariant (c, bytes) == Progress(input, answered, source, plain)
      invariant w.sent == before + bytes
    {
      ProgressIs(input, answered, source, plain);
      ghost var reply := Encode(AnswerTo(input, answered, source, plain));
      Assoc(before, bytes, reply);
      var ok;
      c, ok := Reply(c, Header(input, answered), answered, source, plain, w, chunkSize);
      if !ok {
        return WriteFailed, answered;
      }
      bytes := bytes + reply;
      answered := answered + 1;
    }
    return InputEnded, answered;
  }

  /** The counters and the bytes after n headers, built up together. */
  function Progress(input: seq<byte>, n: nat, source: seq<SourceReply>, plain: seq<bool>):
    (Counters, seq<byte>)
    requires 8 * n <= |input|
  {
    if n == 0 then (ZERO, [])
    else
      var p := Progress(input, n - 1, source, plain);
      var t := Turn(p.0, Header(input, n - 1), n - 1, source, plain);
      (t.0, p.1 + Encode(t.1))
  }

  /** They are the replies to the first n headers, whole and in order. */
  lemma {:induction false} ProgressIs(input: seq<byte>, n: nat, source: seq<SourceReply>, plain: seq<bool>)
    requires 8 * n <= |input|
    ensures Progress(input, n, source, plain) ==
      (CountersAfter(input, n, source, plain), Stream(Answers(input, n, source, plain)))
  {
    if n > 0 {
      ProgressIs(input, n - 1, source, plain);
      StreamSnoc(Answers(input, n - 1, source, plain), AnswerTo(input, n - 1, source, plain));
    }
  }

  // ---------- which poll gets what ----------

  /** Header k begins with the bytes 72 00. */
  predicate PollAt(input: seq<byte>, k: nat) {
    8 * (k + 1) <= |input| && input[8 * k] == 0x72 && input[8 * k + 1] == 0
  }

  /** How many of the first k headers are polls. */
  function PollsBefore(input: seq<byte>, k: nat): nat {
    |set i: nat | i < k && PollAt(input, i)|
  }

  lemma PollIs(input: seq<byte>, k: nat)
    requires 8 * (k + 1) <= |input|
    ensures IsPoll(Header(input, k)) <==> PollAt(input, k)
  {
    var two := Header(input, k)[..2];
    assert FromLittleEndian(two) == two[0] as nat + 256 * FromLittleEndian(two[1..]);
    assert two[1..] == [two[1]] && FromLittleEndian([two[1]]) == two[1] as nat by {
      assert [two[1]][1..] == [];
    }
  }

  lemma {:induction false} PollsCounted(input: seq<byte>, k: nat, source: seq<SourceReply>, plain: seq<bool>)
    requires 8 * k <= |input|
    ensures CountersAfter(input, k, source, plain).pollCount == PollsBefore(input, k)
  {
    if k == 0 {
      assert (set i: nat | i < 0 && PollAt(input, i)) == {};
    } else {
      PollsCounted(input, k - 1, source, plain);
      PollIs(input, k - 1);
      OneMoreHeader(input, k - 1);
    }
  }

  lemma OneMoreHeader(input: seq<byte>, k: nat)
    ensures PollsBefore(input, k + 1) == PollsBefore(input, k) + if PollAt(input, k) then 1 else 0
  {
    var before := set i: nat | i < k && PollAt(input, i);
    assert (set i: nat | i < k + 1 && PollAt(input, i)) == before + if PollAt(input, k) then {k} else {};
  }

  /** Header k is answered with an access unit exactly when it is a poll and the frame source has something
      for it - for the poll it is, other headers and failed or empty polls not shifting anything - and then
      with that frame, plain exactly if that mode is in force. Everything else is answered with idle. */
  lemma AnsweredExactly(input: seq<byte>, k: nat, source: seq<SourceReply>, plain: seq<bool>)
    requires 8 * (k + 1) <= |input|
    ensures var a, n := AnswerTo(input, k, source, plain), PollsBefore(input, k);
      && (a.Unit? <==> PollAt(input, k) && n < |source| && source[n].Frame? && source[n].au != [])
      && (a.Unit? ==> a.body == source[n].au && (a.plain <==> k < |plain| && plain[k]))
  {
    PollsCounted(input, k, source, plain);
    PollIs(input, k);
  }

  // ---------- frame indices ----------

  function UnitsIn(answers: seq<Answer>): nat {
    |set i: nat | i < |answers| && answers[i].Unit?|
  }

  /** The n-th access unit of a connection, counting from 0, carries index n mod 2^31. */
  lemma IndexCountsUnits(input: seq<byte>, n: nat, k: nat, source: seq<SourceReply>, plain: seq<bool>)
    requires k < n && 8 * n <= |input| && Answers(input, n, source, plain)[k].Unit?
    ensures var all := Answers(input, n, source, plain);
      all[k].index == UnitsIn(all[..k]) % 0x8000_0000
  {
    AnswersPrefix(input, n, k, source, plain);
    CounterCountsUnits(input, k, source, plain);
  }

  lemma {:induction false} CounterCountsUnits(input: seq<byte>, k: nat, source: seq<SourceReply>, plain: seq<bool>)
    requires 8 * k <= |input|
    ensures CountersAfter(input, k, source, plain).frameCounter ==
            UnitsIn(Answers(input, k, source, plain)) % 0x8000_0000
  {
    if k > 0 {
      CounterCountsUnits(input, k - 1, source, plain);
      CounterMoves(input, k - 1, source, plain);
      CountStep(CountersAfter(input, k - 1, source, plain).frameCounter, Answers(input, k - 1, source, plain),
                AnswerTo(input, k - 1, source, plain));
    }
  }

  lemma CounterMoves(input: seq<byte>, k: nat, source: seq<SourceReply>, plain: seq<bool>)
    requires 8 * k + 8 <= |input|
    ensures var before := CountersAfter(input, k, source, plain).frameCounter;
      CountersAfter(input, k + 1, source, plain).frameCounter ==
        if AnswerTo(input, k, source, plain).Unit? then (before + 1) % 0x8000_0000 else before
  {
    TurnCounts(CountersAfter(input, k, source, plain), Header(input, k), k, source, plain);
  }

  lemma CountStep(counter: u32, answers: seq<Answer>, a: Answer)
    requires counter == UnitsIn(answers) % 0x8000_0000
    ensures (if a.Unit? then (counter + 1) % 0x8000_0000 else counter) == UnitsIn(answers + [a]) % 0x8000_0000
  {
    UnitsSnoc(answers, a);
    NextIndex(UnitsIn(answers));
  }

  /** Exactly the turns that answer with an access unit move the frame counter. */
  lemma TurnCounts(c: Counters, header: seq<byte>, k: nat, source: seq<SourceReply>, plain: seq<bool>)
    requires |header| == 8
    ensures var t := Turn(c, header, k, source, plain);
      t.0.frameCounter == if t.1.Unit? then (c.frameCounter + 1) % 0x8000_0000 else c.frameCounter
  {
  }

  lemma UnitsSnoc(answers: seq<Answer>, a: Answer)
    ensures UnitsIn(answers + [a]) == UnitsIn(answers) + if a.Unit? then 1 else 0
  {
    var more := answers + [a];
    var before := set i: nat | i < |answers| && answers[i].Unit?;
    assert (set i: nat | i < |more| && more[i].Unit?) == before + if a.Unit? then {|answers|} else {};
  }

  lemma NextIndex(n: nat)
    ensures (n % 0x8000_0000 + 1) % 0x8000_0000 == (n + 1) % 0x8000_0000
  {
    var q := n / 0x8000_0000;
    assert n == q * 0x8000_0000 + n % 0x8000_0000;
    if n % 0x8000_0000 + 1 == 0x8000_0000 {
      assert n + 1 == (q + 1) * 0x8000_0000;
    } else {
      assert n + 1 == q * 0x8000_0000 + (n % 0x8000_0000 + 1);
    }
  }

  // ---------- the dash's side: reading replies by their length ----------

  /** What a reader can see of an answer: in plain mode the index is not sent. */
  datatype Reading = NothingYet | Picture(index: Option<u32>, body: seq<byte>)

  function Visible(a: Answer): Reading {
    match a
    case Idle => NothingYet
    case Unit(index, plain, body) => Picture(if plain then None else Some(index), body)
  }

  /** Reading replies one after the other, each in the given mode; None when the bytes run out or a
      length makes no sense. The bytes behind the last reply are given back. */
  function ReadReplies(wire: seq<byte>, modes: seq<bool>): Option<(seq<Reading>, seq<byte>)> {
    if modes == [] then Some(([], wire))
    else if |wire| < 4 then None
    else
      var n := FromLittleEndian(wire[..4]);
      if n == 0 then More(NothingYet, ReadReplies(wire[4..], modes[1..]))
      else if |wire| < 4 + n || (!modes[0] && n < 4) then None
      else if modes[0] then More(Picture(None, wire[4..4 + n]), ReadReplies(wire[4 + n..], modes[1..]))
      else
        FromLittleEndianBound(wire[4..8]);
        Pow256Of4();
        More(Picture(Some(FromLittleEndian(wire[4..8])), wire[8..4 + n]), ReadReplies(wire[4 + n..], modes[1..]))
  }

  function More(r: Reading, rest: Option<(seq<Reading>, seq<byte>)>): Option<(seq<Reading>, seq<byte>)> {
    match rest
    case None => None
    case Some(p) => Some(([r] + p.0, p.1))
  }

  /** An access unit that a 32-bit length can announce. */
  predicate Sendable(a: Answer) {
    a.Unit? ==> a.body != [] && |a.body| + 4 < TWO_32
  }

  function Readings(answers: seq<Answer>): (r: seq<Reading>)
    ensures |r| == |answers|
  {
    seq(|answers|, k requires 0 <= k < |answers| => Visible(answers[k]))
  }

  predicate ModesMatch(answers: seq<Answer>, modes: seq<bool>) {
    |modes| == |answers| && forall k :: 0 <= k < |answers| ==> answers[k].Unit? ==> modes[k] == answers[k].plain
  }

  /** Replies are self-delimiting: a reader that knows the framing mode - in particular any reader while
      the mode is fixed - recovers the exact sequence of idles and access units, and stops at the byte
      behind the last of them. */
  lemma {:induction false} RepliesReadBack(answers: seq<Answer>, modes: seq<bool>, tail: seq<byte>)
    requires forall k :: 0 <= k < |answers| ==> Sendable(answers[k])
    requires ModesMatch(answers, modes)
    ensures ReadReplies(Stream(answers) + tail, modes) == Some((Readings(answers), tail))
    decreases |answers|
  {
    if answers == [] {
      EmptyEnds(tail);
    } else {
      RepliesReadBack(answers[1..], modes[1..], tail);
      Assoc(Encode(answers[0]), Stream(answers[1..]), tail);
      OneReplyReadsBack(answers[0], modes, Stream(answers[1..]) + tail);
      ReadingsFirst(answers);
    }
  }

  lemma ReadingsFirst(answers: seq<Answer>)
    requires answers != []
    ensures Readings(answers) == [Visible(answers[0])] + Readings(answers[1..])
  {
  }

  /** The framing mode each of the first n headers is answered in. */
  function Modes(plain: seq<bool>, n: nat): (r: seq<bool>)
    ensures |r| == n
  {
    seq(n, k requires k >= 0 => PlainAt(plain, k))
  }

  predicate AllFit(source: seq<SourceReply>) {
    forall k :: 0 <= k < |source| && source[k].Frame? ==> |source[k].au| + 4 < TWO_32
  }

  /** What the poll loop has written after n headers - whole, or with a cut reply behind it - reads back as
      what those headers were answered, as long as every frame of the source has room in the length field. */
  lemma WrittenReadsBack(input: seq<byte>, n: nat, source: seq<SourceReply>, plain: seq<bool>, tail: seq<byte>)
    requires 8 * n <= |input| && AllFit(source)
    ensures ReadReplies(Progress(input, n, source, plain).1 + tail, Modes(plain, n)) ==
      Some((Readings(Answers(input, n, source, plain)), tail))
  {
    var answers := Answers(input, n, source, plain);
    ProgressIs(input, n, source, plain);
    forall k | 0 <= k < n
      ensures Sendable(answers[k]) && (answers[k].Unit? ==> answers[k].plain == PlainAt(plain, k))
    {
      AnswersPrefix(input, n, k, source, plain);
      AnswerFits(input, k, source, plain);
    }
    RepliesReadBack(answers, Modes(plain, n), tail);
  }

  lemma AnswerFits(input: seq<byte>, k: nat, source: seq<SourceReply>, plain: seq<bool>)
    requires 8 * (k + 1) <= |input| && AllFit(source)
    ensures var a := AnswerTo(input, k, source, plain);
      Sendable(a) && (a.Unit? ==> a.plain == PlainAt(plain, k))
  {
  }

  lemma OneReplyReadsBack(a: Answer, modes: seq<bool>, rest: seq<byte>)
    requires Sendable(a) && modes != [] && (a.Unit? ==> modes[0] == a.plain)
    ensures ReadReplies(Encode(a) + rest, modes) == More(Visible(a), ReadReplies(rest, modes[1..]))
  {
    if a.Idle? {
      IdleReadsBack(modes, rest);
    } else if a.plain {
      var length := LittleEndian(|a.body|, WORD);
      LengthReadsBack(|a.body|);
      PlainReadsBack(length, a.body, modes, rest);
      assert Encode(a) == length + a.body;
    } else {
      var length, index := LittleEndian(|a.body| + 4, WORD), LittleEndian(a.index, WORD);
      LengthReadsBack(|a.body| + 4);
      LengthReadsBack(a.index);
      IndexedReadsBack(length, index, a.body, modes, rest);
      assert Encode(a) == length + index + a.body;
    }
  }

  lemma LengthReadsBack(n: u32)
    ensures Truncate32(n) == n && FromLittleEndian(LittleEndian(n, WORD)) == n
  {
    Pow256Of4();
    LittleEndianInverse(n, WORD);
  }

  lemma IdleReadsBack(modes: seq<bool>, rest: seq<byte>)
    requires modes != []
    ensures ReadReplies(IDLE_BYTES + rest, modes) == More(NothingYet, ReadReplies(rest, modes[1..]))
  {
    var wire := IDLE_BYTES + rest;
    IdleLength();
    assert wire[..4] == IDLE_BYTES && wire[4..] == rest;
  }

  lemma PlainReadsBack(length: seq<byte>, body: seq<byte>, modes: seq<bool>, rest: seq<byte>)
    requires |length| == 4 && FromLittleEndian(length) == |body| && body != []
    requires modes != [] && modes[0]
    ensures ReadReplies(length + body + rest, modes) == More(Picture(None, body), ReadReplies(rest, modes[1..]))
  {
    var wire := length + body + rest;
    assert wire[..4] == length && wire[4..4 + |body|] == body && wire[4 + |body|..] == rest;
  }

  lemma IndexedReadsBack(length: seq<byte>, index: seq<byte>, body: seq<byte>, modes: seq<bool>, rest: seq<byte>)
    requires |length| == 4 && FromLittleEndian(length) == |body| + 4 && |index| == 4
    requires modes != [] && !modes[0]
    requires FromLittleEndian(index) < TWO_32
    ensures ReadReplies(length + index + body + rest, modes) ==
      More(Picture(Some(FromLittleEndian(index)), body), ReadReplies(rest, modes[1..]))
  {
    var wire := length + index + body + rest;
    assert wire[..4] == length && wire[4..8] == index;
    assert wire[8..8 + |body|] == body && wire[8 + |body|..] == rest;
  }

  lemma IdleLength()
    ensures FromLittleEndian(IDLE_BYTES) == 0
  {
    var one: seq<byte>, two: seq<byte>, three: seq<byte> := [0], [0, 0], [0, 0, 0];
    assert one[1..] == [] && two[1..] == one && three[1..] == two && IDLE_BYTES[1..] == three;
    assert FromLittleEndian(one) == 0 && FromLittleEndian(two) == 0 && FromLittleEndian(three) == 0;
  }

  /** The length field says how much follows it exactly when that fits in 32 bits. */
  lemma LengthFieldExactly(body: seq<byte>, index: u32, withIndex: bool)
    ensures var frame := Framed(body, index, withIndex);
      FromLittleEndian(frame[..4]) == |frame| - 4 <==> |frame| - 4 < TWO_32
  {
    var frame := Framed(body, index, withIndex);
    var n := |body| + if withIndex then 4 else 0;
    Pow256Of4();
    LittleEndianInverse(Truncate32(n), WORD);
    assert frame[..4] == LittleEndian(Truncate32(n), WORD);
  }

  // ---------- which mode is in force ----------

  class FramingMode {
    var plainFramingAllowed: bool
    var plainFraming: bool

    constructor ()
      ensures !plainFramingAllowed && !plainFraming
    {
      plainFramingAllowed, plainFraming := false, false;
    }

    method SetPlainFramingAllowed(allowed: bool)
      modifies this`plainFramingAllowed
      ensures plainFramingAllowed == allowed
    {
      plainFramingAllowed := allowed;
    }

    /** The dash's byte selects the mode only while the host allows it; otherwise nothing moves, and the
        answer is that plain framing was not negotiated. */
    method NegotiatedExtendedProtocol(extended: bool) returns (plain: bool)
      modifies this`plainFraming
      ensures plainFraming == if plainFramingAllowed then !extended else old(plainFraming)
      ensures plain <==> plainFramingAllowed && !extended
    {
      if !plainFramingAllowed {
        return false;
      }
      plain := !extended;
      plainFraming := plain;
    }
  }
}
