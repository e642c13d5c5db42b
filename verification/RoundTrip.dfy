/** The builder of hud/api/mobile.go against the scanners of hud/stream/frame_sources.go: what one
    package prints, the other takes apart again. */
module RoundTrip {
  import opened Bytes
  import opened AnnexB
  import opened NalScan
  import opened Avcc

  /** A NAL that holds no start code of its own. */
  predicate Clean(nal: Nal) {
    && nal != []
    && forall k :: 0 <= k && k + 2 < |nal| ==> !(nal[k] == 0 && nal[k + 1] == 0 && nal[k + 2] == 1)
  }

  predicate AllClean(nals: seq<Nal>) {
    forall k :: 0 <= k < |nals| ==> Clean(nals[k])
  }

  /** Where the start code of NAL k begins. */
  function OffsetOf(nals: seq<Nal>, k: nat): nat
    requires k <= |nals|
  {
    |AnnexBytes(nals[..k])|
  }

  lemma OffsetStep(nals: seq<Nal>, k: nat)
    requires k < |nals|
    ensures OffsetOf(nals, k + 1) == OffsetOf(nals, k) + 4 + |nals[k]|
  {
    assert nals[..k + 1] == nals[..k] + [nals[k]];
    AnnexBytesAppend(nals[..k], [nals[k]]);
    AnnexBytesOne(nals[k]);
  }

  lemma {:induction false} OffsetsGrow(nals: seq<Nal>, j: nat, k: nat)
    requires AllClean(nals) && j < k <= |nals|
    ensures OffsetOf(nals, j) + 5 <= OffsetOf(nals, k)
    ensures OffsetOf(nals, j) + 4 + |nals[j]| <= OffsetOf(nals, k)
    decreases k
  {
    OffsetStep(nals, k - 1);
    if j < k - 1 {
      OffsetsGrow(nals, j, k - 1);
    }
  }

  /** The printed stream, cut at NAL k. */
  lemma CutAt(nals: seq<Nal>, k: nat) returns (before: seq<byte>, after: seq<byte>)
    requires k < |nals|
    ensures |before| == OffsetOf(nals, k)
    ensures AnnexBytes(nals) == before + (START_CODE + nals[k] + after)
    ensures after == AnnexBytes(nals[k + 1..])
  {
    assert nals == nals[..k] + nals[k..];
    AnnexBytesAppend(nals[..k], nals[k..]);
    before, after := AnnexBytes(nals[..k]), AnnexBytes(nals[k + 1..]);
  }

  /** The printed stream has a start code before each NAL and nowhere else, even where a NAL ends in
      zeros that run into the next code. */
  lemma {:induction false} CodeAt(nals: seq<Nal>, p: nat) returns (k: nat)
    requires AllClean(nals) && ThreeByteCode(AnnexBytes(nals), p)
    ensures k < |nals| && p == OffsetOf(nals, k) + 1
    ensures AnnexBytes(nals)[p + 3] == nals[k][0]
    decreases |nals|
  {
    var d := AnnexBytes(nals);
    var n := 4 + |nals[0]|;
    var rest := AnnexBytes(nals[1..]);
    assert d == START_CODE + nals[0] + rest;
    if p == 1 {
      k := 0;
    } else if p < n {
      CodeNotInside(nals[0], rest, p);
      assert false;
    } else {
      assert d[n..] == rest;
      assert d[p + 3] == rest[p - n + 3];
      var j := CodeAt(nals[1..], p - n);
      k := j + 1;
      assert nals[..k] == [nals[0]] + nals[1..][..j];
      AnnexBytesAppend([nals[0]], nals[1..][..j]);
      AnnexBytesOne(nals[0]);
    }
  }

  lemma CodeNotInside(nal: Nal, rest: seq<byte>, p: nat)
    requires Clean(nal) && (rest == [] || START_CODE <= rest)
    requires p != 1 && p < 4 + |nal|
    ensures !ThreeByteCode(START_CODE + nal + rest, p)
  {
    var d := START_CODE + nal + rest;
    if 4 <= p && p + 2 < 4 + |nal| {
      assert d[p] == nal[p - 4] && d[p + 1] == nal[p - 3] && d[p + 2] == nal[p - 2];
    } else if 4 <= p && p + 2 < |d| {
      assert d[p + 2] == rest[p - 2 - |nal|] == 0;
    }
  }

  lemma HeaderAt(nals: seq<Nal>, k: nat)
    requires AllClean(nals) && k < |nals|
    ensures var d := AnnexBytes(nals);
      var p := OffsetOf(nals, k);
      FourByteCode(d, p) && ThreeByteCode(d, p + 1) && d[p + 4] == nals[k][0]
  {
    var before, after := CutAt(nals, k);
    HeaderBehind(before, nals[k], after);
  }

  lemma HeaderBehind(before: seq<byte>, nal: Nal, after: seq<byte>)
    requires nal != []
    ensures var d := before + (START_CODE + nal + after);
      FourByteCode(d, |before|) && ThreeByteCode(d, |before| + 1) && d[|before| + 4] == nal[0]
  {
    var d := before + (START_CODE + nal + after);
    assert d[|before|..] == START_CODE + nal + after;
  }

  /** The delimiters of the printed stream are the start codes of its delimiter NALs. */
  lemma DelimitersPrinted(nals: seq<Nal>, p: nat)
    requires AllClean(nals)
    ensures AudStart(AnnexBytes(nals), p) <==>
      exists k :: 0 <= k < |nals| && p == OffsetOf(nals, k) && NalType(nals[k][0]) == AUD_TYPE
  {
    var d := AnnexBytes(nals);
    if ThreeByteCode(d, p) {
      var k := CodeAt(nals, p);
      HeaderAt(nals, k);
      assert d[p - 1] == 0;
    }
    if AudStart(d, p) {
      var k := CodeAt(nals, p + 1);
    }
    if k :| 0 <= k < |nals| && p == OffsetOf(nals, k) && NalType(nals[k][0]) == AUD_TYPE {
      HeaderAt(nals, k);
    }
  }

  // ---------- concatenated access units ----------

  predicate NoDelimiter(nals: seq<Nal>) {
    forall k :: 0 <= k < |nals| ==> nals[k] != [] && NalType(nals[k][0]) != AUD_TYPE
  }

  /** A sample the round trip holds for. */
  predicate Ordinary(nals: seq<Nal>) {
    AllClean(nals) && NoDelimiter(nals)
  }

  function AccessUnits(samples: seq<seq<Nal>>): (r: seq<seq<byte>>)
    ensures |r| == |samples|
  {
    seq(|samples|, k requires 0 <= k < |samples| => AccessUnit(samples[k]))
  }

  function Flatten(samples: seq<seq<Nal>>): seq<Nal> {
    if samples == [] then [] else [AUD_NAL] + samples[0] + Flatten(samples[1..])
  }

  lemma {:induction false} FlattenPrints(samples: seq<seq<Nal>>)
    requires forall k :: 0 <= k < |samples| ==> Ordinary(samples[k])
    ensures Concat(AccessUnits(samples)) == AnnexBytes(Flatten(samples))
    ensures AllClean(Flatten(samples))
  {
    if samples != [] {
      FlattenPrints(samples[1..]);
      assert AccessUnits(samples)[1..] == AccessUnits(samples[1..]);
      AnnexBytesAppend([AUD_NAL] + samples[0], Flatten(samples[1..]));
    }
  }

  /** Splitting the concatenated outputs of BuildAnnexBAUFromAVCC gives those outputs back. */
  lemma {:induction false} SplitUndoesBuild(samples: seq<seq<Nal>>)
    requires forall k :: 0 <= k < |samples| ==> Ordinary(samples[k])
    ensures Split(Concat(AccessUnits(samples))) == AccessUnits(samples)
    decreases |samples|
  {
    if samples != [] {
      var first, later := AccessUnit(samples[0]), samples[1..];
      SplitUndoesBuild(later);
      var rest := Concat(AccessUnits(later));
      assert AccessUnits(samples)[1..] == AccessUnits(later);
      assert Concat(AccessUnits(samples)) == first + rest;
      OneDelimiter(samples);
      SplitFirst(first, rest);
      assert AccessUnits(samples) == [first] + AccessUnits(later);
    }
  }

  predicate SamplesClean(samples: seq<seq<Nal>>) {
    forall k :: 0 <= k < |samples| ==> AllClean(samples[k])
  }

  /** For NALs that hold no start code, exactly then: a type 9 NAL in a sample is printed as one more delimiter,
      and the splitter cuts there. */
  lemma SplitUndoesBuildExactly(samples: seq<seq<Nal>>)
    requires SamplesClean(samples)
    ensures Split(Concat(AccessUnits(samples))) == AccessUnits(samples) <==>
      forall k :: 0 <= k < |samples| ==> NoDelimiter(samples[k])
  {
    var d := Concat(AccessUnits(samples));
    if forall k :: 0 <= k < |samples| ==> NoDelimiter(samples[k]) {
      SplitUndoesBuild(samples);
    } else {
      var k :| 0 <= k < |samples| && !NoDelimiter(samples[k]);
      var p := SecondDelimiter(samples[k]);
      if Split(d) == AccessUnits(samples) {
        PieceHoldsOneDelimiter(d, k, p);
        assert false;
      }
    }
  }

  lemma SecondDelimiter(nals: seq<Nal>) returns (p: nat)
    requires AllClean(nals) && !NoDelimiter(nals)
    ensures p > 0 && AudStart(AccessUnit(nals), p)
  {
    var j :| 0 <= j < |nals| && NalType(nals[j][0]) == AUD_TYPE;
    var all := [AUD_NAL] + nals;
    assert all[j + 1] == nals[j];
    p := OffsetOf(all, j + 1);
    OffsetsGrow(all, 0, j + 1);
    DelimitersPrinted(all, p);
  }

  /** The first access unit has its own delimiter and no other; the next one starts right after. */
  lemma OneDelimiter(samples: seq<seq<Nal>>)
    requires samples != [] && forall k :: 0 <= k < |samples| ==> Ordinary(samples[k])
    ensures var first, rest := AccessUnit(samples[0]), Concat(AccessUnits(samples[1..]));
      && (forall p: nat :: p < |first| ==> (AudStart(first + rest, p) <==> p == 0))
      && (rest != [] ==> AudStart(first + rest, |first|))
  {
    var first, rest := AccessUnit(samples[0]), Concat(AccessUnits(samples[1..]));
    FlattenPrints(samples);
    assert AccessUnits(samples)[1..] == AccessUnits(samples[1..]);
    var nals := Flatten(samples);
    var m := 1 + |samples[0]|;
    assert nals[..m] == [AUD_NAL] + samples[0];
    assert AnnexBytes(nals) == first + rest && OffsetOf(nals, m) == |first|;
    forall p: nat | p < |first| ensures AudStart(first + rest, p) <==> p == 0 {
      DelimitersPrinted(nals, p);
      assert nals[0] == AUD_NAL && OffsetOf(nals, 0) == 0;
      forall k | 0 < k < |nals| && p == OffsetOf(nals, k) ensures NalType(nals[k][0]) != AUD_TYPE {
        if k > m {
          OffsetsGrow(nals, m, k);
        }
        assert k < m;
        assert nals[k] == samples[0][k - 1];
      }
    }
    if rest != [] {
      DelimitersPrinted(nals, |first|);
      assert |samples| > 1;
      assert nals[m] == Flatten(samples[1..])[0] == AUD_NAL;
    }
  }

  lemma SplitFirst(first: seq<byte>, rest: seq<byte>)
    requires first != []
    requires forall p: nat :: p < |first| ==> (AudStart(first + rest, p) <==> p == 0)
    requires rest != [] ==> AudStart(first + rest, |first|)
    ensures Split(first + rest) == [first] + Split(rest)
  {
    var d := first + rest;
    var s := |first|;
    OnlyZero(d, s);
    if rest == [] {
      assert AudStarts(d) == [0];
      assert Piece(d, [0], 0) == first;
    } else {
      assert d[s..] == rest;
      StartsBelowShift(d, s, |rest|);
      StartsBelowExact(rest, |rest|);
      assert 0 in AudStarts(rest);
      PiecesResume(d, d, [0], s, AudStarts(rest));
      assert Piece(d, [0] + [s], 0) == first;
    }
  }

  lemma {:induction false} OnlyZero(d: seq<byte>, n: nat)
    requires n > 0
    requires forall p: nat :: p < n ==> (AudStart(d, p) <==> p == 0)
    ensures StartsBelow(d, n) == [0]
  {
    if n > 1 {
      OnlyZero(d, n - 1);
    }
  }

  /** Stated from the AVCC side: whatever was built from ordinary samples comes apart again. */
  lemma BuildThenSplit(avccs: seq<seq<byte>>, samples: seq<seq<Nal>>, outputs: seq<seq<byte>>)
    requires |avccs| == |samples| == |outputs|
    requires forall k :: 0 <= k < |avccs| ==>
      ParseAvcc(avccs[k]) == Ok(samples[k]) && Ordinary(samples[k]) && BuildFromAvcc(avccs[k]) == Ok(outputs[k])
    ensures Split(Concat(outputs)) == outputs
  {
    assert outputs == AccessUnits(samples);
    SplitUndoesBuild(samples);
  }

  // ---------- the IDR gate on printed access units ----------

  /** On the builder's output the gate's scan misses nothing: it reports a type exactly when some NAL
      of the sample, or the delimiter, has it. For type 5 the delimiter does not matter. */
  lemma GateAgreesWithSample(nals: seq<Nal>)
    requires AllClean(nals)
    ensures CarriesIdr(AccessUnit(nals)) <==>
      exists k :: 0 <= k < |nals| && NalType(nals[k][0]) == IDR_TYPE
  {
    var all := [AUD_NAL] + nals;
    var d := AccessUnit(nals);
    ReportsExactly(d, IDR_TYPE);
    if CarriesIdr(d) {
      var p: nat :| ThreeByteCode(d, p) && NalType(d[p + 3]) == IDR_TYPE;
      var k := CodeAt(all, p);
      assert k > 0 && all[k] == nals[k - 1];
    }
    if k :| 0 <= k < |nals| && NalType(nals[k][0]) == IDR_TYPE {
      assert all[k + 1] == nals[k];
      HeaderAt(all, k + 1);
      var p := OffsetOf(all, k + 1) + 1;
      assert d[p - 1] == 0;
      assert ChainBefore(d, p) == 0;
    }
  }

  // ---------- a reader of the byte stream format ----------

  /** The start-code positions below n, in increasing order. */
  function CodesBelow(d: seq<byte>, n: nat): seq<nat> {
    if n == 0 then [] else
      CodesBelow(d, n - 1) + if ThreeByteCode(d, n - 1) then [n - 1] else []
  }

  /** Annex B drops the zero bytes between the end of a NAL and the next start code. */
  function TrimZeros(b: seq<byte>): seq<byte> {
    if b != [] && b[|b| - 1] == 0 then TrimZeros(b[..|b| - 1]) else b
  }

  /** The NALs of a byte stream, as ITU-T H.264 section B.2 reads them. */
  function ReadNals(d: seq<byte>): seq<Nal> {
    var codes := CodesBelow(d, |d|);
    seq(|codes|, k requires 0 <= k < |codes| => NalAt(d, codes, k))
  }

  /** From behind one start code to the next one, or to the end. */
  function NalAt(d: seq<byte>, codes: seq<nat>, k: nat): Nal
    requires k < |codes|
  {
    TrimZeros(Slice(d, codes[k] + 3, if k + 1 < |codes| then codes[k + 1] else |d|))
  }

  predicate EndsNonZero(nals: seq<Nal>) {
    forall k :: 0 <= k < |nals| ==> nals[k] != [] && nals[k][|nals[k]| - 1] != 0
  }

  lemma {:induction false} CodesExact(d: seq<byte>, n: nat)
    ensures Increasing(CodesBelow(d, n)) && AllBelow(CodesBelow(d, n), n)
    ensures forall p: nat :: p in CodesBelow(d, n) <==> p < n && ThreeByteCode(d, p)
  {
    if n > 0 {
      CodesExact(d, n - 1);
    }
  }

  function HeaderOffsets(nals: seq<Nal>): (r: seq<nat>)
    ensures |r| == |nals|
  {
    seq(|nals|, k requires 0 <= k < |nals| => OffsetOf(nals, k) + 1)
  }

  /** Two increasing lists with the same members are the same list. */
  lemma {:induction false} SameMembersSameList(a: seq<nat>, b: seq<nat>)
    requires Increasing(a) && Increasing(b)
    requires forall p: nat :: p in a <==> p in b
    ensures a == b
    decreases |a|
  {
    if a == [] {
      assert forall k :: 0 <= k < |b| ==> b[k] in b;
    } else {
      assert a[0] in a && b != [];
      assert b[0] in b && a[0] in b && b[0] in a;
      assert a[0] == b[0];
      forall p: nat ensures p in a[1..] <==> p in b[1..] {
        assert p in a[1..] <==> p in a && p != a[0];
        assert p in b[1..] <==> p in b && p != b[0];
      }
      SameMembersSameList(a[1..], b[1..]);
    }
  }

  lemma CodesPrinted(nals: seq<Nal>)
    requires AllClean(nals)
    ensures CodesBelow(AnnexBytes(nals), |AnnexBytes(nals)|) == HeaderOffsets(nals)
  {
    var d := AnnexBytes(nals);
    var codes, offs := CodesBelow(d, |d|), HeaderOffsets(nals);
    CodesExact(d, |d|);
    forall i, j | 0 <= i < j < |offs| ensures offs[i] < offs[j] {
      OffsetsGrow(nals, i, j);
    }
    forall p: nat ensures p in codes <==> p in offs {
      if p in codes {
        var k := CodeAt(nals, p);
        assert offs[k] == p;
      }
      if p in offs {
        var k :| 0 <= k < |offs| && offs[k] == p;
        HeaderAt(nals, k);
      }
    }
    SameMembersSameList(codes, offs);
  }

  /** Under the NAL syntax of section 7.4.1 - no start code inside, last byte not zero - an access unit
      reads back as the delimiter followed by the sample's own NALs. */
  lemma AccessUnitReadsBack(nals: seq<Nal>)
    requires AllClean(nals) && EndsNonZero(nals)
    ensures ReadNals(AccessUnit(nals)) == [AUD_NAL] + nals
  {
    assert EndsNonZero([AUD_NAL] + nals);
    StreamReadsBack([AUD_NAL] + nals);
  }

  lemma StreamReadsBack(nals: seq<Nal>)
    requires AllClean(nals) && EndsNonZero(nals)
    ensures ReadNals(AnnexBytes(nals)) == nals
  {
    var d, codes := AnnexBytes(nals), HeaderOffsets(nals);
    CodesPrinted(nals);
    forall k | 0 <= k < |nals| ensures NalAt(d, codes, k) == nals[k] {
      NalReadsBack(nals, k);
    }
    assert ReadNals(d) == seq(|codes|, k requires 0 <= k < |codes| => NalAt(d, codes, k));
  }

  lemma NalReadsBack(nals: seq<Nal>, k: nat)
    requires EndsNonZero(nals) && k < |nals|
    ensures NalAt(AnnexBytes(nals), HeaderOffsets(nals), k) == nals[k]
  {
    var before, after := CutAt(nals, k);
    NalEnds(nals, k);
    NalAtReads(AnnexBytes(nals), HeaderOffsets(nals), k, before, nals[k], after, if k + 1 < |nals| then 1 else 0);
  }

  lemma NalAtReads(d: seq<byte>, codes: seq<nat>, k: nat, before: seq<byte>, nal: Nal, after: seq<byte>, zeros: nat)
    requires d == before + (START_CODE + nal + after) && k < |codes| && codes[k] == |before| + 1
    requires (if k + 1 < |codes| then codes[k + 1] else |d|) == |before| + 4 + |nal| + zeros
    requires nal != [] && nal[|nal| - 1] != 0
    requires zeros == 0 || (zeros == 1 && after != [] && after[0] == 0)
    ensures NalAt(d, codes, k) == nal
  {
    NalBehind(before, nal, after, zeros);
  }

  lemma NalEnds(nals: seq<Nal>, k: nat)
    requires k < |nals|
    ensures var codes, p := HeaderOffsets(nals), OffsetOf(nals, k);
      && codes[k] == p + 1
      && (if k + 1 < |codes| then codes[k + 1] else |AnnexBytes(nals)|) ==
           p + 4 + |nals[k]| + if k + 1 < |nals| then 1 else 0
    ensures k + 1 < |nals| ==> START_CODE <= AnnexBytes(nals[k + 1..])
  {
    OffsetStep(nals, k);
    if k + 1 == |nals| {
      assert nals[..k + 1] == nals;
    }
  }

  lemma NalBehind(before: seq<byte>, nal: Nal, after: seq<byte>, zeros: nat)
    requires nal != [] && nal[|nal| - 1] != 0
    requires zeros == 0 || (zeros == 1 && after != [] && after[0] == 0)
    ensures var d := before + (START_CODE + nal + after);
      TrimZeros(Slice(d, |before| + 4, |before| + 4 + |nal| + zeros)) == nal
  {
    var d := before + (START_CODE + nal + after);
    var raw := Slice(d, |before| + 4, |before| + 4 + |nal| + zeros);
    assert d[|before| + 4..] == nal + after;
    assert raw == (nal + after)[..|nal| + zeros];
    if zeros == 1 {
      assert raw == nal + [0];
      assert raw[..|raw| - 1] == nal;
    } else {
      assert raw == nal;
    }
  }
}
