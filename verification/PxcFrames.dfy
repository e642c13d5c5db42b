/** The PXC wire format of hud/net/pxc.go: the parts writeResponse writes, the loop handleConn reads. */
module PxcFrames {
  import opened Bytes

  const PXC_HEADER_SIZE: int := 16

  datatype Message = Message(command: u32, body: seq<byte>)

  /** A body that the 32-bit size field has room for. */
  predicate Sendable(m: Message) {
    |m.body| + PXC_HEADER_SIZE < TWO_32
  }

  function Pow2(n: nat): (r: nat)
    ensures r > 0
  {
    if n == 0 then 1 else 2 * Pow2(n - 1)
  }

  /** Bitwise exclusive or. */
  function XorNat(a: nat, b: nat): nat {
    if a == 0 && b == 0 then 0 else (a + b) % 2 + 2 * XorNat(a / 2, b / 2)
  }

  lemma {:induction false} XorBound(a: nat, b: nat, bits: nat)
    requires a < Pow2(bits) && b < Pow2(bits)
    ensures XorNat(a, b) < Pow2(bits)
    decreases bits
  {
    if bits > 0 {
      XorBound(a / 2, b / 2, bits - 1);
    }
  }

  function Xor(a: u32, b: u32): u32 {
    Pow2Of32();
    XorBound(a, b, 32);
    XorNat(a, b)
  }

  lemma Pow2Of32()
    ensures Pow2(32) == TWO_32
  {
    assert Pow2(8) == 256;
    Pow2Adds(8, 8);
    Pow2Adds(16, 16);
  }

  lemma {:induction false} Pow2Adds(a: nat, b: nat)
    ensures Pow2(a + b) == Pow2(a) * Pow2(b)
  {
    if b > 0 {
      Pow2Adds(a, b - 1);
      DoubleRight(Pow2(a), Pow2(b - 1));
    }
  }

  lemma DoubleRight(x: nat, y: nat)
    ensures 2 * (x * y) == x * (2 * y)
  {
  }

  /** The i-th binary digit of n, counting from the lowest. */
  function Bit(n: nat, i: nat): (r: nat)
    ensures r <= 1
  {
    if i == 0 then n % 2 else Bit(n / 2, i - 1)
  }

  /** Digit by digit it is exclusive or. */
  lemma {:induction false} XorIsBitwise(a: nat, b: nat, i: nat)
    ensures Bit(XorNat(a, b), i) == (Bit(a, i) + Bit(b, i)) % 2
    decreases i
  {
    if a == 0 && b == 0 {
      NoDigits(i);
    } else {
      XorHalves(a, b);
      if i == 0 {
        SumParity(a, b);
      } else {
        XorIsBitwise(a / 2, b / 2, i - 1);
      }
    }
  }

  lemma XorHalves(a: nat, b: nat)
    ensures XorNat(a, b) % 2 == (a + b) % 2 && XorNat(a, b) / 2 == XorNat(a / 2, b / 2)
  {
    LastDigit((a + b) % 2, XorNat(a / 2, b / 2));
  }

  lemma LastDigit(digit: nat, x: nat)
    requires digit < 2
    ensures (digit + 2 * x) % 2 == digit && (digit + 2 * x) / 2 == x
  {
  }

  lemma SumParity(a: nat, b: nat)
    ensures (a + b) % 2 == (a % 2 + b % 2) % 2
  {
  }

  lemma {:induction false} NoDigits(i: nat)
    ensures Bit(0, i) == 0
  {
    if i > 0 {
      NoDigits(i - 1);
    }
  }

  /** 32-bit numbers are their digits. */
  lemma {:induction false} DigitsDecide(a: nat, b: nat, bits: nat)
    requires a < Pow2(bits) && b < Pow2(bits)
    requires forall i: nat :: i < bits ==> Bit(a, i) == Bit(b, i)
    ensures a == b
    decreases bits
  {
    if bits > 0 {
      assert Bit(a, 0) == Bit(b, 0);
      forall i: nat | i < bits - 1 ensures Bit(a / 2, i) == Bit(b / 2, i) {
        assert Bit(a, i + 1) == Bit(b, i + 1);
      }
      DigitsDecide(a / 2, b / 2, bits - 1);
    }
  }

  lemma XorParity(a: u32, b: u32)
    ensures Xor(a, b) % 2 == (a + b) % 2
  {
  }

  // ---------- writing ----------

  /** Four header fields, and the body only when there is one. */
  function PartCount(m: Message): nat {
    if m.body == [] then 4 else 5
  }

  /** The separate writes of one writeResponse call. */
  function Parts(m: Message): (r: seq<seq<byte>>)
    requires Sendable(m)
    ensures |r| == PartCount(m)
  {
    var size := PXC_HEADER_SIZE + |m.body|;
    [LittleEndian(m.command, WORD), LittleEndian(size, WORD), LittleEndian(Xor(size, m.command), WORD),
     LittleEndian(0, WORD)] + if m.body == [] then [] else [m.body]
  }

  function Frame(m: Message): seq<byte>
    requires Sendable(m)
  {
    Concat(Parts(m))
  }

  predicate AllSendable(ms: seq<Message>) {
    forall k :: 0 <= k < |ms| ==> Sendable(ms[k])
  }

  function Frames(ms: seq<Message>): seq<byte>
    requires AllSendable(ms)
  {
    if ms == [] then [] else Frame(ms[0]) + Frames(ms[1..])
  }

  lemma {:induction false} FramesSnoc(ms: seq<Message>, m: Message)
    requires AllSendable(ms) && Sendable(m)
    ensures AllSendable(ms + [m]) && Frames(ms + [m]) == Frames(ms) + Frame(m)
  {
    if ms == [] {
      assert ms + [m] == [m] && Frames([m]) == Frame(m) + Frames([]);
    } else {
      FramesSnoc(ms[1..], m);
      assert (ms + [m])[1..] == ms[1..] + [m];
    }
  }

  lemma FrameLayout(m: Message)
    requires Sendable(m)
    ensures var size := PXC_HEADER_SIZE + |m.body|;
      Frame(m) == LittleEndian(m.command, WORD) + LittleEndian(size, WORD)
        + LittleEndian(Xor(size, m.command), WORD) + LittleEndian(0, WORD) + m.body
  {
    var size := PXC_HEADER_SIZE + |m.body|;
    var last := if m.body == [] then [] else [m.body];
    ConcatSingle(m.body);
    ConcatFour(LittleEndian(m.command, WORD), LittleEndian(size, WORD), LittleEndian(Xor(size, m.command), WORD),
               LittleEndian(0, WORD), last);
    assert Concat(last) == m.body;
  }

  lemma ConcatFour<T>(a: seq<T>, b: seq<T>, c: seq<T>, d: seq<T>, last: seq<seq<T>>)
    ensures Concat([a, b, c, d] + last) == a + b + c + d + Concat(last)
  {
    ConcatAppend([a, b, c, d], last);
    assert [a, b, c, d] == [a] + [b] + [c] + [d];
    ConcatSnoc([a] + [b] + [c], d);
    ConcatSnoc([a] + [b], c);
    ConcatSnoc([a], b);
    ConcatSingle(a);
  }

  // ---------- reading ----------

  /** How the frame loop leaves: a read that fails is judged, a header that fails the magic check is not. */
  datatype Exit = HeaderCut | PayloadCut | MagicMismatch

  function CommandOf(header: seq<byte>): nat
    requires |header| >= 16
  {
    FromLittleEndian(header[0..4])
  }

  function SizeOf(header: seq<byte>): nat
    requires |header| >= 16
  {
    FromLittleEndian(header[4..8])
  }

  function MagicOf(header: seq<byte>): nat
    requires |header| >= 16
  {
    FromLittleEndian(header[8..12])
  }

  lemma HeaderBounds(header: seq<byte>)
    requires |header| >= 16
    ensures CommandOf(header) < TWO_32 && SizeOf(header) < TWO_32 && MagicOf(header) < TWO_32
  {
    Pow256Of4();
    FromLittleEndianBound(header[0..4]);
    FromLittleEndianBound(header[4..8]);
    FromLittleEndianBound(header[8..12]);
  }

  /** The payload length the loop reads: none for size 0, otherwise the 32-bit difference. */
  function PayloadLength(size: nat): nat {
    if size == 0 then 0 else (size - PXC_HEADER_SIZE) % 0x1_0000_0000
  }

  predicate MagicOk(header: seq<byte>)
    requires |header| >= 16
  {
    HeaderBounds(header);
    MagicOf(header) == Xor(SizeOf(header), CommandOf(header))
  }

  /** Every digit of x differs from that of b where a has a one, and agrees with it where a has a zero. */
  predicate DigitsDiffer(x: nat, a: nat, b: nat) {
    forall i: nat :: i < 32 ==> Bit(x, i) == (Bit(a, i) + Bit(b, i)) % 2
  }

  /** A header passes exactly when its magic is the exclusive or of its size and its command. */
  lemma MagicOkExactly(header: seq<byte>)
    requires |header| >= 16
    ensures MagicOk(header) <==> DigitsDiffer(MagicOf(header), SizeOf(header), CommandOf(header))
  {
    HeaderBounds(header);
    var size, command := SizeOf(header), CommandOf(header);
    XorDigits(size, command);
    if DigitsDiffer(MagicOf(header), size, command) {
      SameDigits(MagicOf(header), Xor(size, command), size, command);
    }
  }

  lemma XorDigits(a: u32, b: u32)
    ensures DigitsDiffer(Xor(a, b), a, b)
  {
    forall i: nat | i < 32 ensures Bit(Xor(a, b), i) == (Bit(a, i) + Bit(b, i)) % 2 {
      XorIsBitwise(a, b, i);
    }
  }

  lemma SameDigits(x: u32, y: u32, a: nat, b: nat)
    requires DigitsDiffer(x, a, b) && DigitsDiffer(y, a, b)
    ensures x == y
  {
    Pow2Of32();
    forall i: nat | i < 32 ensures Bit(x, i) == Bit(y, i) {
    }
    DigitsDecide(x, y, 32);
  }

  /** The fields are four bytes each, lowest first. */
  lemma HeaderBytes(header: seq<byte>)
    requires |header| >= 16
    ensures CommandOf(header) == Word(header, 0)
    ensures SizeOf(header) == Word(header, 4) && MagicOf(header) == Word(header, 8)
  {
    FromLittleEndianFour(header[0..4]);
    FromLittleEndianFour(header[4..8]);
    FromLittleEndianFour(header[8..12]);
  }

  function Word(b: seq<byte>, i: nat): nat
    requires i + 4 <= |b|
  {
    b[i] as nat + 256 * b[i + 1] as nat + 65536 * b[i + 2] as nat + 16777216 * b[i + 3] as nat
  }

  /** The frame loop over everything that ever arrives on the connection. */
  function ReadFrames(wire: seq<byte>): (seq<Message>, Exit) {
    if |wire| < 16 then ([], HeaderCut)
    else if !MagicOk(wire) then ([], MagicMismatch)
    else
      var n := PayloadLength(SizeOf(wire));
      if |wire| < 16 + n then ([], PayloadCut)
      else
        HeaderBounds(wire);
        Then([Message(CommandOf(wire), wire[16..16 + n])], ReadFrames(wire[16 + n..]))
  }

  /** The messages so far, then whatever the rest of the bytes give. */
  function Then(messages: seq<Message>, rest: (seq<Message>, Exit)): (seq<Message>, Exit) {
    (messages + rest.0, rest.1)
  }

  method ReadLoop(wire: seq<byte>) returns (messages: seq<Message>, exit: Exit)
    ensures (messages, exit) == ReadFrames(wire)
  {
    messages := [];
    var rest := wire;
    NothingYet(ReadFrames(wire));
    while |rest| >= 16
      invariant ReadFrames(wire) == Then(messages, ReadFrames(rest))
      decreases |rest|
    {
      HeaderBounds(rest);
      if MagicOf(rest) != Xor(SizeOf(rest), CommandOf(rest)) {
        NothingMore(messages, MagicMismatch);
        return messages, MagicMismatch;
      }
      var n := PayloadLength(SizeOf(rest));
      if SizeOf(rest) > 0 && |rest| < 16 + n {
        NothingMore(messages, PayloadCut);
        return messages, PayloadCut;
      }
      var request := Message(CommandOf(rest), rest[16..16 + n]);
      Regroup(messages, request, ReadFrames(rest[16 + n..]));
      messages := messages + [request];
      rest := rest[16 + n..];
    }
    NothingMore(messages, HeaderCut);
    return messages, HeaderCut;
  }

  lemma NothingYet(r: (seq<Message>, Exit))
    ensures Then([], r) == r
  {
    assert [] + r.0 == r.0;
  }

  lemma NothingMore(messages: seq<Message>, exit: Exit)
    ensures Then(messages, ([], exit)) == (messages, exit)
  {
    assert messages + [] == messages;
  }

  lemma Regroup(messages: seq<Message>, m: Message, r: (seq<Message>, Exit))
    ensures Then(messages, Then([m], r)) == Then(messages + [m], r)
  {
    assert messages + ([m] + r.0) == messages + [m] + r.0;
  }

  lemma WrittenHeader(m: Message, rest: seq<byte>)
    requires Sendable(m)
    ensures var w := Frame(m) + rest;
      && |Frame(m)| == 16 + |m.body|
      && CommandOf(w) == m.command && SizeOf(w) == 16 + |m.body| && MagicOk(w)
      && w[16..16 + |m.body|] == m.body && w[16 + |m.body|..] == rest
  {
    FrameLayout(m);
    var size := PXC_HEADER_SIZE + |m.body|;
    var a, b, c, d := LittleEndian(m.command, WORD), LittleEndian(size, WORD),
      LittleEndian(Xor(size, m.command), WORD), LittleEndian(0, WORD);
    var w := Frame(m) + rest;
    HeaderPieces(a, b, c, d, m.body, rest);
    Pow256Of4();
    LittleEndianInverse(m.command, WORD);
    LittleEndianInverse(size, WORD);
    LittleEndianInverse(Xor(size, m.command), WORD);
  }

  lemma HeaderPieces(a: seq<byte>, b: seq<byte>, c: seq<byte>, d: seq<byte>, body: seq<byte>, rest: seq<byte>)
    requires |a| == |b| == |c| == |d| == 4
    ensures var w := a + b + c + d + body + rest;
      && w[0..4] == a && w[4..8] == b && w[8..12] == c
      && w[16..16 + |body|] == body && w[16 + |body|..] == rest
  {
  }

  /** The magic of a written frame, digit by digit. */
  lemma WrittenMagic(m: Message, i: nat)
    requires Sendable(m)
    ensures |Frame(m)| == 16 + |m.body|
    ensures Bit(Word(Frame(m), 8), i) == (Bit(16 + |m.body|, i) + Bit(m.command, i)) % 2
    ensures Word(Frame(m), 0) == m.command && Word(Frame(m), 4) == 16 + |m.body|
  {
    WrittenHeader(m, []);
    EmptyEnds(Frame(m));
    HeaderBytes(Frame(m));
    HeaderBounds(Frame(m));
    XorIsBitwise(16 + |m.body|, m.command, i);
  }

  /** Sizes no writer produces: with size 0 the frame is its header; with 1 to 15 the difference wraps around,
      and the loop takes almost four gigabytes for the payload. */
  lemma ShortSizes(wire: seq<byte>)
    requires |wire| >= 16 && MagicOk(wire) && SizeOf(wire) < 16
    ensures Word(wire, 0) < TWO_32
    ensures var end := if SizeOf(wire) == 0 then 16 else 4294967296 + SizeOf(wire);
      if |wire| < end then ReadFrames(wire) == ([], PayloadCut)
      else ReadFrames(wire) == Then([Message(Word(wire, 0), wire[16..end])], ReadFrames(wire[end..]))
  {
    HeaderBytes(wire);
    HeaderBounds(wire);
    ShortPayload(SizeOf(wire));
    ReadsOrWaits(wire, PayloadLength(SizeOf(wire)));
  }

  lemma ShortPayload(size: nat)
    requires size < 16
    ensures PayloadLength(size) == if size == 0 then 0 else 4294967280 + size
  {
  }

  lemma ReadsOrWaits(wire: seq<byte>, n: nat)
    requires |wire| >= 16 && MagicOk(wire) && n == PayloadLength(SizeOf(wire)) && CommandOf(wire) < TWO_32
    ensures if |wire| < 16 + n then ReadFrames(wire) == ([], PayloadCut)
            else ReadFrames(wire) == Then([Message(CommandOf(wire), wire[16..16 + n])], ReadFrames(wire[16 + n..]))
  {
  }

  /** Whatever whole frames arrive, followed by any proper prefix of one more, the loop recovers exactly
      the commands and bodies that were written, and no magic check fails. */
  lemma ReaderRecovers(ms: seq<Message>, next: Message, tail: seq<byte>)
    requires AllSendable(ms) && Sendable(next) && tail < Frame(next)
    ensures ReadFrames(Frames(ms) + tail).0 == ms
    ensures ReadFrames(Frames(ms) + tail).1 != MagicMismatch
  {
    FramesRead(ms, tail);
    PrefixReadsNothing(next, tail);
    NothingMore(ms, ReadFrames(tail).1);
  }

  lemma {:induction false} FramesRead(ms: seq<Message>, tail: seq<byte>)
    requires AllSendable(ms)
    ensures ReadFrames(Frames(ms) + tail) == Then(ms, ReadFrames(tail))
    decreases |ms|
  {
    if ms == [] {
      EmptyEnds(tail);
      NothingYet(ReadFrames(tail));
    } else {
      var m, rest := ms[0], ms[1..];
      FramesRead(rest, tail);
      ReadsOne(m, Frames(rest) + tail);
      ReadsRest(m, rest, Frame(m), Frames(rest), tail);
      assert [m] + rest == ms;
    }
  }

  lemma ReadsRest(m: Message, ms: seq<Message>, f: seq<byte>, more: seq<byte>, tail: seq<byte>)
    requires ReadFrames(f + (more + tail)) == Then([m], ReadFrames(more + tail))
    requires ReadFrames(more + tail) == Then(ms, ReadFrames(tail))
    ensures ReadFrames(f + more + tail) == Then([m] + ms, ReadFrames(tail))
  {
    Assoc(f, more, tail);
    Assoc([m], ms, ReadFrames(tail).0);
  }

  lemma ReadsOne(m: Message, rest: seq<byte>)
    requires Sendable(m)
    ensures ReadFrames(Frame(m) + rest) == Then([m], ReadFrames(rest))
  {
    WrittenHeader(m, rest);
    ReadsFirst(Frame(m) + rest, m, rest);
  }

  lemma ReadsFirst(w: seq<byte>, m: Message, rest: seq<byte>)
    requires Sendable(m) && |w| >= 16 + |m.body|
    requires CommandOf(w) == m.command && SizeOf(w) == 16 + |m.body| && MagicOk(w)
    requires w[16..16 + |m.body|] == m.body && w[16 + |m.body|..] == rest
    ensures ReadFrames(w) == Then([m], ReadFrames(rest))
  {
    assert PayloadLength(SizeOf(w)) == |m.body|;
  }

  lemma PrefixReadsNothing(m: Message, tail: seq<byte>)
    requires Sendable(m) && tail < Frame(m)
    ensures ReadFrames(tail).0 == [] && ReadFrames(tail).1 != MagicMismatch
  {
    WrittenHeader(m, []);
    assert Frame(m) + [] == Frame(m);
    CutFrame(Frame(m), tail);
  }

  lemma CutFrame(f: seq<byte>, tail: seq<byte>)
    requires 16 <= |f| < TWO_32 && SizeOf(f) == |f| && MagicOk(f) && tail < f
    ensures ReadFrames(tail).0 == [] && ReadFrames(tail).1 != MagicMismatch
  {
    if |tail| >= 16 {
      assert tail[0..4] == f[0..4] && tail[4..8] == f[4..8] && tail[8..12] == f[8..12];
      assert PayloadLength(SizeOf(tail)) == |f| - 16;
    }
  }
}
