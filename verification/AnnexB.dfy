/** The Annex B access-unit splitters of hud/stream/frame_sources.go.
    A local, declarative definition of "an access unit delimiter starts at p" comes first;
    the two skipping scanners are then proved to compute exactly those positions. */
module AnnexB {
  import opened Bytes

  const AUD_TYPE := 9

  /** The low five bits of a NAL header. */
  function NalType(header: byte): nat {
    header % 32
  }

  /** 00 00 01 at p, with a header byte behind it. */
  predicate ThreeByteCode(d: seq<byte>, p: nat) {
    p + 3 < |d| && d[p] == 0 && d[p + 1] == 0 && d[p + 2] == 1
  }

  /** 00 00 00 01 at p, with a header byte behind it. */
  predicate FourByteCode(d: seq<byte>, p: nat) {
    p + 4 < |d| && d[p] == 0 && d[p + 1] == 0 && d[p + 2] == 0 && d[p + 3] == 1
  }

  /** An access unit delimiter starts at p. A three-byte code behind a zero is the tail of a
      four-byte one and does not count a second time. */
  predicate AudStart(d: seq<byte>, p: nat) {
    || (FourByteCode(d, p) && NalType(d[p + 4]) == AUD_TYPE)
    || (ThreeByteCode(d, p) && NalType(d[p + 3]) == AUD_TYPE && (p == 0 || d[p - 1] != 0))
  }

  /** A header is a forbidden bit, two bits of reference idc and five bits of type (section 7.3.1 of ITU-T
      H.264); only the type counts. */
  lemma TypeOfHeader(forbidden: nat, refIdc: nat, nalType: nat)
    requires forbidden < 2 && refIdc < 4 && nalType < 32
    ensures NalType(128 * forbidden + 32 * refIdc + nalType) == nalType
  {
    assert 128 * forbidden + 32 * refIdc + nalType == 32 * (4 * forbidden + refIdc) + nalType;
  }

  /** The start code at p with the zero byte in front that makes it a four-byte one, if there is one. */
  function CodeStart(d: seq<byte>, p: nat): nat
    requires ThreeByteCode(d, p)
  {
    if p > 0 && d[p - 1] == 0 then p - 1 else p
  }

  /** One delimiter for every 00 00 01 with a type 9 NAL behind it, and no others. */
  lemma DelimitersExactly(d: seq<byte>, p: nat)
    ensures AudStart(d, p) <==>
      exists q: nat :: ThreeByteCode(d, q) && d[q + 3] % 32 == 9 && p == CodeStart(d, q)
    ensures forall q: nat, r: nat ::
      ThreeByteCode(d, q) && ThreeByteCode(d, r) && CodeStart(d, q) == CodeStart(d, r) ==> q == r
  {
    if AudStart(d, p) {
      var q := if FourByteCode(d, p) then p + 1 else p;
      assert ThreeByteCode(d, q) && p == CodeStart(d, q);
    }
  }

  /** The delimiter positions below n, in increasing order. */
  function StartsBelow(d: seq<byte>, n: nat): seq<nat> {
    if n == 0 then [] else
      StartsBelow(d, n - 1) + if AudStart(d, n - 1) then [n - 1] else []
  }

  function AudStarts(d: seq<byte>): seq<nat> {
    StartsBelow(d, |d|)
  }

  /** The bytes from each start to the next one, the last running to the end. */
  function Pieces(d: seq<byte>, starts: seq<nat>): (r: seq<seq<byte>>)
    ensures |r| == |starts|
  {
    seq(|starts|, k requires 0 <= k < |starts| => Piece(d, starts, k))
  }

  function Piece(d: seq<byte>, starts: seq<nat>, k: nat): seq<byte>
    requires k < |starts|
  {
    Slice(d, starts[k], if k + 1 < |starts| then starts[k + 1] else |d|)
  }

  /** What splitByAudAnnexB promises; no delimiter gives the empty list, which is Go's nil. */
  function Split(d: seq<byte>): seq<seq<byte>> {
    Pieces(d, AudStarts(d))
  }

  datatype Extracted = Extracted(aus: seq<seq<byte>>, rest: seq<byte>)

  /** What extractAusFromStream promises. */
  function Extract(buf: seq<byte>): Extracted {
    var pieces := Split(buf);
    if pieces == [] then Extracted([], buf)
    else Extracted(pieces[..|pieces| - 1], pieces[|pieces| - 1])
  }

  // ---------- the positions are the declared ones ----------

  predicate Increasing(xs: seq<nat>) {
    forall i, j :: 0 <= i < j < |xs| ==> xs[i] < xs[j]
  }

  predicate AllBelow(xs: seq<nat>, n: nat) {
    forall k :: 0 <= k < |xs| ==> xs[k] < n
  }

  lemma {:induction false} StartsBelowExact(d: seq<byte>, n: nat)
    ensures Increasing(StartsBelow(d, n)) && AllBelow(StartsBelow(d, n), n)
    ensures forall p: nat :: p in StartsBelow(d, n) <==> p < n && AudStart(d, p)
  {
    if n > 0 {
      StartsBelowExact(d, n - 1);
    }
  }

  /** The access units are everything from the first delimiter on, cut and nothing else: they concatenate
      back. */
  lemma SplitPartitions(d: seq<byte>)
    ensures var starts := AudStarts(d);
      && Increasing(starts)
      && (forall p: nat :: p in starts <==> AudStart(d, p))
      && |Split(d)| == |starts|
      && (starts == [] <==> forall p: nat :: !AudStart(d, p))
      && (starts != [] ==> starts[0] < |d| && Concat(Split(d)) == d[starts[0]..])
  {
    var starts := AudStarts(d);
    StartsBelowExact(d, |d|);
    if starts != [] {
      assert starts[0] in starts;
      ConcatPieces(d, starts);
    } else {
      forall p: nat ensures !AudStart(d, p) {
        assert p !in starts;
      }
    }
  }

  /** Each access unit begins with a delimiter and has no other one inside. */
  lemma PieceHoldsOneDelimiter(d: seq<byte>, k: nat, p: nat)
    requires k < |Split(d)|
    ensures AudStart(Split(d)[k], p) <==> p == 0
  {
    var starts := AudStarts(d);
    StartsBelowExact(d, |d|);
    var a, b := starts[k], if k + 1 < |starts| then starts[k + 1] else |d|;
    assert starts[k] in starts && (k + 1 < |starts| ==> starts[k + 1] in starts);
    forall q: nat | a < q < b ensures !AudStart(d, q) {
      NothingBetween(starts, k, q);
    }
    StartHasRoom(d, a, b);
    OnlyStartOfSlice(d, a, b, p);
  }

  lemma NothingBetween(starts: seq<nat>, k: nat, q: nat)
    requires Increasing(starts) && k < |starts| && starts[k] < q
    requires k + 1 < |starts| ==> q < starts[k + 1]
    ensures q !in starts
  {
    forall j | 0 <= j < |starts| ensures starts[j] != q {
      assert j < k ==> starts[j] < starts[k];
      assert k + 1 < j ==> starts[k + 1] < starts[j];
    }
  }

  /** A delimiter's start code and header lie in front of the next delimiter. */
  lemma StartHasRoom(d: seq<byte>, a: nat, b: nat)
    requires AudStart(d, a) && a < b && (b == |d| || AudStart(d, b))
    ensures a + (if FourByteCode(d, a) then 5 else 4) <= b
  {
    if b < a + 5 {
      assert b == a + 1 || b == a + 2 || b == a + 3 || b == a + 4;
    }
  }

  lemma OnlyStartOfSlice(d: seq<byte>, a: nat, b: nat, p: nat)
    requires a < b <= |d| && AudStart(d, a) && a + (if FourByteCode(d, a) then 5 else 4) <= b
    requires forall q: nat :: a < q < b ==> !AudStart(d, q)
    ensures AudStart(d[a..b], p) <==> p == 0
  {
    var s := d[a..b];
    if p > 0 && a + p < b {
      assert s[p - 1] == d[a + p - 1];
      assert AudStart(s, p) ==> AudStart(d, a + p);
    }
  }

  lemma {:induction false} ConcatPieces(d: seq<byte>, starts: seq<nat>)
    requires starts != [] && Increasing(starts) && AllBelow(starts, |d|)
    ensures Concat(Pieces(d, starts)) == d[starts[0]..]
    decreases |starts|
  {
    var pieces := Pieces(d, starts);
    if |starts| == 1 {
      assert pieces[0] == Piece(d, starts, 0) == d[starts[0]..];
      assert pieces == [pieces[0]];
      ConcatSingle(pieces[0]);
    } else {
      ConcatPieces(d, starts[1..]);
      PiecesTail(d, starts);
      assert pieces[0] == Piece(d, starts, 0) == d[starts[0]..starts[1]];
    }
  }

  lemma PiecesTail(d: seq<byte>, starts: seq<nat>)
    requires starts != []
    ensures Pieces(d, starts)[1..] == Pieces(d, starts[1..])
  {
    var tail := Pieces(d, starts[1..]);
    forall k | 0 <= k < |tail| ensures Pieces(d, starts)[k + 1] == tail[k] {
      assert Piece(d, starts, k + 1) == Piece(d, starts[1..], k);
    }
  }

  // ---------- the scanners ----------

  /** The closure isStartCode of splitByAudAnnexB: the length of the start code at pos, or 0. */
  function StartCodeLength(d: seq<byte>, pos: nat): nat {
    if ThreeByteCode(d, pos) then 3 else if FourByteCode(d, pos) then 4 else 0
  }

  method SplitByAudAnnexB(data: seq<byte>) returns (out: seq<seq<byte>>)
    ensures out == Split(data)
  {
    var starts := ScanEveryByte(data);
    if |starts| == 0 {
      return [];
    }
    StartsBelowExact(data, |data|);
    out := [];
    for idx := 0 to |starts|
      invariant |out| == idx && forall k :: 0 <= k < idx ==> out[k] == Piece(data, starts, k)
    {
      var begin := starts[idx];
      var end := |data|;
      if idx + 1 < |starts| {
        end := starts[idx + 1];
      }
      out := out + [data[begin..end]];
    }
  }

  /** The scanning loop of splitByAudAnnexB: it runs to the last byte and asks the closure about each. */
  method ScanEveryByte(data: seq<byte>) returns (starts: seq<nat>)
    ensures starts == AudStarts(data)
  {
    starts := [];
    var i := 0;
    while i < |data|
      invariant i <= |data|
      invariant starts == StartsBelow(data, i)
      invariant ThreeByteCode(data, i) ==> i == 0 || data[i - 1] != 0
    {
      var startCode := StartCodeLength(data, i);
      if startCode != 0 {
        SkipStartCode(data, i);
        var nalPos := i + startCode;
        if nalPos < |data| {
          if NalType(data[nalPos]) == AUD_TYPE {
            starts := starts + [i];
          }
        }
        i := i + startCode;
      } else {
        i := i + 1;
      }
    }
  }

  /** Jumping over a start code skips no delimiter. */
  lemma SkipStartCode(d: seq<byte>, i: nat)
    requires StartCodeLength(d, i) != 0
    requires ThreeByteCode(d, i) ==> i == 0 || d[i - 1] != 0
    ensures var n := StartCodeLength(d, i);
      && i + n < |d| && d[i + n - 1] == 1
      && StartsBelow(d, i + n) ==
         StartsBelow(d, i) + if NalType(d[i + n]) == AUD_TYPE then [i] else []
  {
    assert !AudStart(d, i + 1) && !AudStart(d, i + 2);
    assert StartsBelow(d, i + 3) == StartsBelow(d, i + 1);
    if FourByteCode(d, i) {
      assert !AudStart(d, i + 3);
      assert StartsBelow(d, i + 4) == StartsBelow(d, i + 3);
    }
  }

  method ExtractAusFromStream(buf: seq<byte>) returns (aus: seq<seq<byte>>, remaining: seq<byte>)
    ensures Extracted(aus, remaining) == Extract(buf)
  {
    var audStarts := ScanWithRoom(buf);
    ExtractFrom(buf, audStarts);
    if |audStarts| == 0 {
      return [], buf;
    }
    if |audStarts| == 1 {
      return [], buf[audStarts[0]..];
    }
    aus := CompleteAus(buf, audStarts);
    remaining := buf[audStarts[|audStarts| - 1]..];
  }

  /** The scanning loop of extractAusFromStream, with its own loop bound and its own start-code tests. */
  method ScanWithRoom(buf: seq<byte>) returns (audStarts: seq<nat>)
    ensures audStarts == AudStarts(buf)
  {
    audStarts := [];
    var i := 0;
    while i + 3 < |buf|
      invariant i <= |buf|
      invariant audStarts == StartsBelow(buf, i)
      invariant ThreeByteCode(buf, i) ==> i == 0 || buf[i - 1] != 0
    {
      if buf[i] == 0 && buf[i + 1] == 0 && buf[i + 2] == 1 {
        SkipStartCode(buf, i);
        if NalType(buf[i + 3]) == AUD_TYPE {
          audStarts := audStarts + [i];
        }
        i := i + 3;
        continue;
      }
      if i + 4 < |buf| && buf[i] == 0 && buf[i + 1] == 0 && buf[i + 2] == 0 && buf[i + 3] == 1 {
        SkipStartCode(buf, i);
        if NalType(buf[i + 4]) == AUD_TYPE {
          audStarts := audStarts + [i];
        }
        i := i + 4;
        continue;
      }
      i := i + 1;
    }
    NoStartsAtEnd(buf, i);
  }

  lemma ExtractFrom(buf: seq<byte>, starts: seq<nat>)
    requires starts == AudStarts(buf)
    ensures Increasing(starts) && AllBelow(starts, |buf|)
    ensures Extract(buf) ==
      if starts == [] then Extracted([], buf)
      else Extracted(Pieces(buf, starts)[..|starts| - 1], buf[starts[|starts| - 1]..])
  {
    StartsBelowExact(buf, |buf|);
    if starts != [] {
      assert Piece(buf, starts, |starts| - 1) == buf[starts[|starts| - 1]..];
    }
  }

  /** The tail of extractAusFromStream: every delimiter but the last closes an access unit. */
  method CompleteAus(buf: seq<byte>, audStarts: seq<nat>) returns (aus: seq<seq<byte>>)
    requires audStarts != [] && Increasing(audStarts) && AllBelow(audStarts, |buf|)
    ensures aus == Pieces(buf, audStarts)[..|audStarts| - 1]
  {
    aus := [];
    for j := 0 to |audStarts| - 1
      invariant |aus| == j && forall k :: 0 <= k < j ==> aus[k] == Piece(buf, audStarts, k)
    {
      var start, end := audStarts[j], audStarts[j + 1];
      if start < end && end <= |buf| {
        aus := aus + [buf[start..end]];
      }
    }
  }

  lemma {:induction false} NoStartsAtEnd(d: seq<byte>, i: nat)
    requires i <= |d| <= i + 3
    ensures StartsBelow(d, |d|) == StartsBelow(d, i)
    decreases |d| - i
  {
    if i < |d| {
      NoStartsAtEnd(d, i + 1);
      assert !AudStart(d, i);
    }
  }

  // ---------- the two splitters agree ----------

  lemma SplittersAgree(d: seq<byte>)
    ensures Split(d) == [] <==> forall p: nat :: !AudStart(d, p)
    ensures Split(d) != [] ==> Split(d) == Extract(d).aus + [Extract(d).rest]
    ensures Split(d) == [] ==> Extract(d) == Extracted([], d)
  {
    SplitPartitions(d);
    var pieces := Split(d);
    assert pieces != [] ==> pieces == pieces[..|pieces| - 1] + [pieces[|pieces| - 1]];
  }

  // ---------- locality, and what it gives when the buffer grows ----------

  /** Whether a delimiter starts at p depends on nothing past p + 4. */
  lemma {:induction false} StartsBelowStable(a: seq<byte>, b: seq<byte>, n: nat)
    requires n == 0 || n + 3 < |a|
    ensures StartsBelow(a + b, n) == StartsBelow(a, n)
  {
    if n > 0 {
      StartsBelowStable(a, b, n - 1);
      assert AudStart(a + b, n - 1) == AudStart(a, n - 1);
    }
  }

  function Shift(xs: seq<nat>, s: nat): (r: seq<nat>)
    ensures |r| == |xs|
  {
    seq(|xs|, k requires 0 <= k < |xs| => xs[k] + s)
  }

  /** Dropping everything before a delimiter only renumbers the positions. */
  lemma {:induction false} StartsBelowShift(d: seq<byte>, s: nat, n: nat)
    requires AudStart(d, s) && s + n <= |d|
    ensures StartsBelow(d, s + n) == StartsBelow(d, s) + Shift(StartsBelow(d[s..], n), s)
    ensures n > 0 ==> AudStart(d[s..], 0)
    decreases n
  {
    if n > 0 {
      StartsBelowShift(d, s, n - 1);
      assert AudStart(d[s..], n - 1) == AudStart(d, s + n - 1);
      var t := StartsBelow(d[s..], n - 1);
      assert Shift(t + [n - 1], s) == Shift(t, s) + [s + n - 1];
    }
  }

  /** Resuming from the last delimiter loses nothing and invents nothing, wherever the buffer was
      cut - inside a start code included. */
  lemma ExtractResumes(a: seq<byte>, b: seq<byte>)
    ensures var first := Extract(a);
      var second := Extract(first.rest + b);
      Extract(a + b) == Extracted(first.aus + second.aus, second.rest)
  {
    var starts := AudStarts(a);
    if starts != [] {
      LastStart(a, |a|);
      var s := starts[|starts| - 1];
      var before := StartsBelow(a, s);
      var later := StartsAfterResume(a, b, s);
      StartsBelowExact(a, s);
      assert (a + b)[s..] == a[s..] + b;
      PiecesResume(a, a + b, before, s, later);
    }
  }

  lemma StartsAfterResume(a: seq<byte>, b: seq<byte>, s: nat) returns (later: seq<nat>)
    requires AudStart(a, s)
    ensures later == AudStarts((a + b)[s..]) && later != [] && later[0] == 0
    ensures AudStarts(a + b) == StartsBelow(a, s) + Shift(later, s)
  {
    var d := a + b;
    later := AudStarts(d[s..]);
    assert AudStart(d, s);
    StartsBelowStable(a, b, s);
    StartsBelowShift(d, s, |d| - s);
    StartsBelowExact(d[s..], |d| - s);
    assert 0 in later;
  }

  lemma {:induction false} LastStart(d: seq<byte>, n: nat)
    requires StartsBelow(d, n) != []
    ensures var starts := StartsBelow(d, n);
      && AudStart(d, starts[|starts| - 1])
      && starts == StartsBelow(d, starts[|starts| - 1]) + [starts[|starts| - 1]]
  {
    if !AudStart(d, n - 1) {
      LastStart(d, n - 1);
    }
  }

  lemma PiecesResume(a: seq<byte>, d: seq<byte>, before: seq<nat>, s: nat, later: seq<nat>)
    requires a <= d && s < |a|
    requires AllBelow(before, s)
    requires later != [] && later[0] == 0
    ensures Pieces(d, before + Shift(later, s)) ==
            Pieces(a, before + [s])[..|before|] + Pieces(d[s..], later)
    ensures Pieces(a, before + [s])[|before|] == a[s..]
  {
    var all := before + Shift(later, s);
    var l := Pieces(d, all);
    var r := Pieces(a, before + [s])[..|before|] + Pieces(d[s..], later);
    forall k | 0 <= k < |all| ensures l[k] == r[k] {
      PieceResumes(a, d, before, s, later, k);
    }
    assert l == r;
    assert Piece(a, before + [s], |before|) == a[s..];
  }

  lemma PieceResumes(a: seq<byte>, d: seq<byte>, before: seq<nat>, s: nat, later: seq<nat>, k: nat)
    requires a <= d && s < |a|
    requires AllBelow(before, s)
    requires later != [] && later[0] == 0 && k < |before| + |later|
    ensures Piece(d, before + Shift(later, s), k) ==
      if k < |before| then Piece(a, before + [s], k) else Piece(d[s..], later, k - |before|)
  {
    var all, known := before + Shift(later, s), before + [s];
    if k >= |before| {
      var j := k - |before|;
      assert all[k] == later[j] + s;
      assert k + 1 < |all| ==> all[k + 1] == later[j + 1] + s;
      SliceShift(d, s, later[j], if j + 1 < |later| then later[j + 1] else |d| - s);
    } else {
      var to := known[k + 1];
      assert all[k] == known[k] && all[k + 1] == to <= |a|;
      SliceStable(a, d, known[k], to);
    }
  }

  lemma SliceStable(a: seq<byte>, d: seq<byte>, from: nat, to: nat)
    requires a <= d && to <= |a|
    ensures Slice(d, from, to) == Slice(a, from, to)
  {
  }

  lemma SliceShift(d: seq<byte>, s: nat, from: nat, to: nat)
    requires s <= |d|
    ensures Slice(d, from + s, to + s) == Slice(d[s..], from, to)
  {
  }

  // ---------- chunk invariance ----------

  /** One PushChunk after another: an empty chunk is ignored, any other is appended to the
      leftover and the result extracted from. */
  function Feed(rest: seq<byte>, chunks: seq<seq<byte>>): Extracted
    decreases |chunks|
  {
    if chunks == [] then Extracted([], rest)
    else if chunks[0] == [] then Feed(rest, chunks[1..])
    else
      var e := Extract(rest + chunks[0]);
      var f := Feed(e.rest, chunks[1..]);
      Extracted(e.aus + f.aus, f.rest)
  }

  /** However a byte stream is cut into chunks, the access units handed on and the bytes left over
      are those of one extraction over the whole stream. */
  lemma ChunkInvariance(chunks: seq<seq<byte>>)
    ensures Feed([], chunks) == Extract(Concat(chunks))
  {
    assert Extract([]) == Extracted([], []);
    FeedContinues([], chunks);
    assert [] + Concat(chunks) == Concat(chunks);
  }

  lemma {:induction false} FeedContinues(sofar: seq<byte>, chunks: seq<seq<byte>>)
    ensures var e := Extract(sofar);
      var f := Feed(e.rest, chunks);
      Extract(sofar + Concat(chunks)) == Extracted(e.aus + f.aus, f.rest)
    decreases |chunks|
  {
    if chunks == [] {
      assert sofar + Concat(chunks) == sofar;
    } else {
      ExtractResumes(sofar, chunks[0]);
      FeedContinues(sofar + chunks[0], chunks[1..]);
      Assoc(sofar, chunks[0], Concat(chunks[1..]));
      EmptyEnds(sofar);
      var first, second := Extract(sofar), Extract(Extract(sofar).rest + chunks[0]);
      Assoc(first.aus, second.aus, Feed(second.rest, chunks[1..]).aus);
    }
  }
}
