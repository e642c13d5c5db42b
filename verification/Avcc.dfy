/** BuildAnnexBAUFromAVCC and BuildAnnexBAU of hud/api/mobile.go. */
module Avcc {
  import opened Bytes

  const START_CODE: seq<byte> := [0, 0, 0, 1]
  const SHORT_START_CODE: seq<byte> := [0, 0, 1]
  const AUD_NAL: seq<byte> := [9, 0xF0]

  type Nal = seq<byte>

  datatype BuildError = TooShort | InvalidLength | NoNals

  /** A NAL that a four-byte length can announce and the builder accepts. */
  predicate Sized(nals: seq<Nal>) {
    forall k :: 0 <= k < |nals| ==> 1 <= |nals[k]| < TWO_32
  }

  /** The AVCC sample format: each NAL behind its big-endian length. */
  function AvccBytes(nals: seq<Nal>): seq<byte>
    requires Sized(nals)
  {
    if nals == [] then [] else BigEndian(|nals[0]|, WORD) + nals[0] + AvccBytes(nals[1..])
  }

  /** The byte stream the builder writes: each NAL behind a four-byte start code. */
  function AnnexBytes(nals: seq<Nal>): seq<byte> {
    if nals == [] then [] else START_CODE + nals[0] + AnnexBytes(nals[1..])
  }

  /** One access unit: the delimiter, then the sample's NALs. */
  function AccessUnit(nals: seq<Nal>): seq<byte> {
    AnnexBytes([AUD_NAL] + nals)
  }

  /** Reading an AVCC sample from the front, with the error the builder gives. */
  function ParseAvcc(avcc: seq<byte>): Result<seq<Nal>, BuildError> {
    if avcc == [] then Ok([])
    else if |avcc| < 4 then Err(NoNals)
    else
      var n := FromBigEndian(avcc[..4]);
      if n == 0 || 4 + n > |avcc| then Err(InvalidLength)
      else match ParseAvcc(avcc[4 + n..])
        case Ok(nals) => Ok([avcc[4..4 + n]] + nals)
        case Err(e) => Err(e)
  }

  function BuildFromAvcc(avcc: seq<byte>): Result<seq<byte>, BuildError> {
    if |avcc| < 4 then Err(TooShort)
    else match ParseAvcc(avcc)
      case Ok(nals) => Ok(AccessUnit(nals))
      case Err(e) => Err(e)
  }

  lemma {:induction false} AnnexBytesAppend(a: seq<Nal>, b: seq<Nal>)
    ensures AnnexBytes(a + b) == AnnexBytes(a) + AnnexBytes(b)
  {
    if a == [] {
      assert a + b == b;
    } else {
      AnnexBytesAppend(a[1..], b);
      assert (a + b)[1..] == a[1..] + b;
      Assoc(START_CODE + a[0], AnnexBytes(a[1..]), AnnexBytes(b));
    }
  }

  lemma AnnexBytesOne(nal: Nal)
    ensures AnnexBytes([nal]) == START_CODE + nal
  {
    assert [nal][1..] == [];
  }

  /** The NALs read so far, then whatever the rest of the sample gives. */
  function ThenNals(nals: seq<Nal>, rest: Result<seq<Nal>, BuildError>): Result<seq<Nal>, BuildError> {
    match rest
    case Ok(more) => Ok(nals + more)
    case Err(e) => Err(e)
  }

  lemma ThenNalsEmpty(rest: Result<seq<Nal>, BuildError>)
    ensures ThenNals([], rest) == rest
  {
    if rest.Ok? {
      EmptyEnds(rest.value);
    }
  }

  lemma ThenNalsAppend(nals: seq<Nal>, nal: Nal, rest: Result<seq<Nal>, BuildError>)
    ensures ThenNals(nals, ThenNals([nal], rest)) == ThenNals(nals + [nal], rest)
  {
    if rest.Ok? {
      Assoc(nals, [nal], rest.value);
    }
  }

  /** One turn of the reading loop: a length that fits takes the next NAL, any other is the error. */
  lemma ParseTakesOne(avcc: seq<byte>, i: nat)
    requires i + 4 <= |avcc|
    ensures var n := FromBigEndian(avcc[i..i + 4]);
      ParseAvcc(avcc[i..]) ==
        if n == 0 || i + 4 + n > |avcc| then Err(InvalidLength)
        else ThenNals([avcc[i + 4..i + 4 + n]], ParseAvcc(avcc[i + 4 + n..]))
  {
    var rest := avcc[i..];
    assert rest[..4] == avcc[i..i + 4];
    var n := FromBigEndian(avcc[i..i + 4]);
    if n > 0 && i + 4 + n <= |avcc| {
      assert rest[4..4 + n] == avcc[i + 4..i + 4 + n];
      assert rest[4 + n..] == avcc[i + 4 + n..];
    }
  }

  lemma AccessUnitSnoc(nals: seq<Nal>, nal: Nal)
    ensures AccessUnit(nals + [nal]) == AccessUnit(nals) + START_CODE + nal
  {
    Assoc([AUD_NAL], nals, [nal]);
    AnnexBytesAppend([AUD_NAL] + nals, [nal]);
    AnnexBytesOne(nal);
    Assoc(AccessUnit(nals), START_CODE, nal);
  }

  method BuildAnnexBAUFromAVCC(avcc: seq<byte>) returns (r: Result<seq<byte>, BuildError>)
    ensures r == BuildFromAvcc(avcc)
  {
    if |avcc| < 4 {
      return Err(TooShort);
    }
    var out := START_CODE + AUD_NAL;
    var i, nalCount := 0, 0;
    ghost var nals: seq<Nal> := [];
    AnnexBytesOne(AUD_NAL);
    EmptyEnds([AUD_NAL]);
    assert avcc[0..] == avcc;
    ThenNalsEmpty(ParseAvcc(avcc));
    while i + 4 <= |avcc|
      invariant 0 <= i <= |avcc|
      invariant nalCount == |nals| && (nalCount == 0 ==> i == 0)
      invariant out == AccessUnit(nals)
      invariant ParseAvcc(avcc) == ThenNals(nals, ParseAvcc(avcc[i..]))
    {
      var nalLen := FromBigEndian(avcc[i..i + 4]);
      ParseTakesOne(avcc, i);
      i := i + 4;
      if nalLen == 0 || i + nalLen > |avcc| {
        return Err(InvalidLength);
      }
      var nal := avcc[i..i + nalLen];
      AccessUnitSnoc(nals, nal);
      ThenNalsAppend(nals, nal, ParseAvcc(avcc[i + nalLen..]));
      out := out + START_CODE + nal;
      nals := nals + [nal];
      i := i + nalLen;
      nalCount := nalCount + 1;
    }
    if i != |avcc| || nalCount == 0 {
      return Err(NoNals);
    }
    EmptyEnds(nals);
    return Ok(out);
  }

  method BuildAnnexBAU(sample: seq<byte>) returns (r: Result<seq<byte>, BuildError>)
    ensures r == Build(sample)
  {
    if |sample| < 4 {
      return Err(TooShort);
    }
    if START_CODE <= sample || SHORT_START_CODE <= sample {
      var out := START_CODE + AUD_NAL;
      out := out + sample;
      return Ok(out);
    }
    r := BuildAnnexBAUFromAVCC(sample);
  }

  function Build(sample: seq<byte>): Result<seq<byte>, BuildError> {
    if |sample| < 4 then Err(TooShort)
    else if START_CODE <= sample || SHORT_START_CODE <= sample then Ok(START_CODE + AUD_NAL + sample)
    else BuildFromAvcc(sample)
  }

  // ---------- exactly the well-formed samples, read in exactly one way ----------

  function Prepend(nal: Nal, parsed: Result<seq<Nal>, BuildError>): Result<seq<Nal>, BuildError> {
    match parsed
    case Ok(nals) => Ok([nal] + nals)
    case Err(e) => Err(e)
  }

  lemma ParseStep(length: seq<byte>, nal: Nal, rest: seq<byte>)
    requires |length| == 4 && FromBigEndian(length) == |nal| && nal != []
    ensures ParseAvcc(length + nal + rest) == Prepend(nal, ParseAvcc(rest))
  {
    var a := length + nal + rest;
    assert a[..4] == length;
    assert a[4..4 + |nal|] == nal;
    assert a[4 + |nal|..] == rest;
  }

  lemma {:induction false} ParsePrinted(nals: seq<Nal>)
    requires Sized(nals)
    ensures ParseAvcc(AvccBytes(nals)) == Ok(nals)
  {
    if nals != [] {
      ParsePrinted(nals[1..]);
      Pow256Of4();
      BigEndianInverse(|nals[0]|, WORD);
      ParseStep(BigEndian(|nals[0]|, WORD), nals[0], AvccBytes(nals[1..]));
      assert [nals[0]] + nals[1..] == nals;
    }
  }

  lemma {:induction false} PrintParsed(avcc: seq<byte>)
    requires ParseAvcc(avcc).Ok?
    ensures Sized(ParseAvcc(avcc).value)
    ensures AvccBytes(ParseAvcc(avcc).value) == avcc
  {
    if avcc != [] {
      var n := FromBigEndian(avcc[..4]);
      var rest := avcc[4 + n..];
      PrintParsed(rest);
      var nal, more := avcc[4..4 + n], ParseAvcc(rest).value;
      assert ParseAvcc(avcc) == Ok([nal] + more);
      ThreePieces(avcc, 4, 4 + n);
      PrintStep(avcc[..4], nal, more);
    }
  }

  lemma ThreePieces(b: seq<byte>, i: nat, j: nat)
    requires i <= j <= |b|
    ensures b == b[..i] + b[i..j] + b[j..]
  {
  }

  lemma PrintStep(length: seq<byte>, nal: Nal, more: seq<Nal>)
    requires |length| == 4 && FromBigEndian(length) == |nal| && nal != [] && Sized(more)
    ensures Sized([nal] + more) && AvccBytes([nal] + more) == length + nal + AvccBytes(more)
  {
    FromBigEndianInverse(length);
    FromBigEndianBound(length);
    Pow256Of4();
    assert ([nal] + more)[1..] == more;
  }

  /** The builder succeeds exactly on concatenations of one or more non-empty length-prefixed NALs,
      and such a sample is a concatenation of only one list of NALs. */
  lemma BuildSucceedsExactly(avcc: seq<byte>)
    ensures BuildFromAvcc(avcc).Ok? <==>
      exists nals: seq<Nal> :: nals != [] && Sized(nals) && avcc == AvccBytes(nals)
    ensures forall nals: seq<Nal> :: nals != [] && Sized(nals) && avcc == AvccBytes(nals) ==>
      BuildFromAvcc(avcc) == Ok(AccessUnit(nals))
    ensures forall a: seq<Nal>, b: seq<Nal> ::
      Sized(a) && Sized(b) && avcc == AvccBytes(a) && avcc == AvccBytes(b) ==> a == b
  {
    forall nals: seq<Nal> | Sized(nals) && avcc == AvccBytes(nals)
      ensures ParseAvcc(avcc) == Ok(nals)
    {
      ParsePrinted(nals);
    }
    if BuildFromAvcc(avcc).Ok? {
      PrintParsed(avcc);
    }
  }

  // ---------- what is refused, and why ----------

  lemma {:induction false} ParsePrefix(nals: seq<Nal>, tail: seq<byte>)
    requires Sized(nals)
    ensures ParseAvcc(AvccBytes(nals) + tail) == ThenNals(nals, ParseAvcc(tail))
  {
    if nals == [] {
      EmptyEnds(tail);
      ThenNalsEmpty(ParseAvcc(tail));
    } else {
      ParsePrefix(nals[1..], tail);
      Pow256Of4();
      BigEndianInverse(|nals[0]|, WORD);
      var length := BigEndian(|nals[0]|, WORD);
      ParseStep(length, nals[0], AvccBytes(nals[1..]) + tail);
      Assoc(length + nals[0], AvccBytes(nals[1..]), tail);
      PrependIsThen(nals[0], nals[1..], ParseAvcc(tail));
      assert [nals[0]] + nals[1..] == nals;
    }
  }

  lemma PrependIsThen(nal: Nal, nals: seq<Nal>, rest: Result<seq<Nal>, BuildError>)
    ensures Prepend(nal, ThenNals(nals, rest)) == ThenNals([nal] + nals, rest)
  {
    if rest.Ok? {
      Assoc([nal], nals, rest.value);
    }
  }

  /** Four bytes or more that begin with a length of zero, or one that reaches beyond them. */
  predicate BadLength(tail: seq<byte>) {
    |tail| >= 4 && (FromBigEndian(tail[..4]) == 0 || 4 + FromBigEndian(tail[..4]) > |tail|)
  }

  /** Whole NALs, and then something that is not one. */
  ghost predicate BreaksOff(avcc: seq<byte>, nals: seq<Nal>, tail: seq<byte>) {
    Sized(nals) && avcc == AvccBytes(nals) + tail
  }

  lemma {:induction false} ParseBreaks(avcc: seq<byte>) returns (nals: seq<Nal>, tail: seq<byte>)
    ensures BreaksOff(avcc, nals, tail) && (tail == [] || |tail| < 4 || BadLength(tail))
    decreases |avcc|
  {
    if |avcc| < 4 || BadLength(avcc) {
      nals, tail := [], avcc;
      EmptyEnds(avcc);
    } else {
      var n := FromBigEndian(avcc[..4]);
      var nal := avcc[4..4 + n];
      var more;
      more, tail := ParseBreaks(avcc[4 + n..]);
      nals := [nal] + more;
      PrintStep(avcc[..4], nal, more);
      ThreePieces(avcc, 4, 4 + n);
      Assoc(avcc[..4] + nal, AvccBytes(more), tail);
    }
  }

  /** A sample is refused as too short below four bytes; otherwise for a bad length if one follows its whole NALs,
      and for having none if one to three bytes do. */
  lemma RefusedExactly(avcc: seq<byte>)
    ensures BuildFromAvcc(avcc) == Err(TooShort) <==> |avcc| < 4
    ensures BuildFromAvcc(avcc) == Err(InvalidLength) <==>
      exists nals: seq<Nal>, tail: seq<byte> :: BreaksOff(avcc, nals, tail) && BadLength(tail)
    ensures BuildFromAvcc(avcc) == Err(NoNals) <==>
      |avcc| >= 4 && exists nals: seq<Nal>, tail: seq<byte> :: BreaksOff(avcc, nals, tail) && 0 < |tail| < 4
  {
    forall nals: seq<Nal>, tail: seq<byte> | BreaksOff(avcc, nals, tail)
      ensures ParseAvcc(avcc) == ThenNals(nals, ParseAvcc(tail))
    {
      ParsePrefix(nals, tail);
    }
    var nals, tail := ParseBreaks(avcc);
    assert tail == [] ==> ParseAvcc(tail).Ok?;
  }

  // ---------- byte streams ----------

  predicate BeginsWithCode(sample: seq<byte>) {
    |sample| >= 4 && sample[0] == 0 && sample[1] == 0 && (sample[2] == 1 || (sample[2] == 0 && sample[3] == 1))
  }

  /** A sample that begins with a start code of either length is passed on untouched behind a delimiter, any
      other is read as AVCC, and fewer than four bytes are refused whatever they are. */
  lemma ByteStreamKept(sample: seq<byte>)
    ensures BeginsWithCode(sample) ==> Build(sample) == Ok([0, 0, 0, 1, 9, 0xF0] + sample)
    ensures !BeginsWithCode(sample) ==> Build(sample) == BuildFromAvcc(sample)
    ensures |sample| < 4 ==> Build(sample) == Err(TooShort)
  {
    assert START_CODE + AUD_NAL == [0, 0, 0, 1, 9, 0xF0];
    assert SHORT_START_CODE == [0, 0, 1] && START_CODE == [0, 0, 0, 1];
  }

  /** The same NALs give the same access unit in either format. */
  lemma FormatsAgree(nals: seq<Nal>)
    requires nals != [] && Sized(nals)
    ensures Build(AnnexBytes(nals)) == BuildFromAvcc(AvccBytes(nals)) == Ok([0, 0, 0, 1, 9, 0xF0] + AnnexBytes(nals))
  {
    BuildSucceedsExactly(AvccBytes(nals));
    ByteStreamKept(AnnexBytes(nals));
    AnnexBytesAppend([AUD_NAL], nals);
    AnnexBytesOne(AUD_NAL);
    assert START_CODE + AUD_NAL == [0, 0, 0, 1, 9, 0xF0];
  }

  predicate AllOneByte(nals: seq<Nal>) {
    forall k :: 0 <= k < |nals| ==> |nals[k]| == 1
  }

  lemma {:induction false} AvccIsAnnexB(nals: seq<Nal>)
    requires Sized(nals)
    ensures AvccBytes(nals) == AnnexBytes(nals) <==> AllOneByte(nals)
    decreases |nals|
  {
    if nals != [] {
      AvccIsAnnexB(nals[1..]);
      LengthIsStartCode(|nals[0]|);
      SamePieces(BigEndian(|nals[0]|, WORD), START_CODE, nals[0], AvccBytes(nals[1..]), AnnexBytes(nals[1..]));
      assert AllOneByte(nals) <==> |nals[0]| == 1 && AllOneByte(nals[1..]) by {
        assert nals == [nals[0]] + nals[1..];
      }
    }
  }

  lemma SamePieces(a: seq<byte>, b: seq<byte>, nal: Nal, p: seq<byte>, q: seq<byte>)
    requires |a| == |b|
    ensures a + nal + p == b + nal + q <==> a == b && p == q
  {
    var l, r := a + nal + p, b + nal + q;
    assert l[..|a|] == a && r[..|a|] == b && l[|a| + |nal|..] == p && r[|a| + |nal|..] == q;
  }

  lemma LengthIsStartCode(n: u32)
    ensures BigEndian(n, WORD) == START_CODE <==> n == 1
  {
    Pow256Of4();
    BigEndianInverse(n, WORD);
    FromBigEndianFour(START_CODE);
    FromBigEndianInverse(START_CODE);
  }

  /** On AVCC input, the auto-detecting builder reads a first length of 1 or of 256 to 511 as a
      start code. It then agrees with the AVCC builder only if every NAL is one byte long. */
  lemma AutoDetectAgreesExactly(nals: seq<Nal>)
    requires nals != [] && Sized(nals)
    ensures var s := AvccBytes(nals);
      Build(s) == BuildFromAvcc(s) <==>
        (|nals[0]| != 1 && !(256 <= |nals[0]| <= 511)) || AllOneByte(nals)
  {
    var s := AvccBytes(nals);
    var n := |nals[0]|;
    ParsePrinted(nals);
    AvccIsAnnexB(nals);
    assert s[..4] == BigEndian(n, WORD);
    ReadsAsStartCode(n, s);
    assert ([AUD_NAL] + nals)[1..] == nals;
    assert AccessUnit(nals) == START_CODE + AUD_NAL + AnnexBytes(nals);
    if n == 1 || 256 <= n <= 511 {
      assert Build(s) == Ok(START_CODE + AUD_NAL + s);
      var head := START_CODE + AUD_NAL;
      assert (head + s)[6..] == s && (head + AnnexBytes(nals))[6..] == AnnexBytes(nals);
    }
  }

  lemma ReadsAsStartCode(n: u32, s: seq<byte>)
    requires BigEndian(n, WORD) <= s
    ensures START_CODE <= s || SHORT_START_CODE <= s <==> n == 1 || 256 <= n <= 511
  {
    var b := s[..4];
    assert b == BigEndian(n, WORD);
    Pow256Of4();
    BigEndianInverse(n, WORD);
    FromBigEndianFour(b);
    assert START_CODE <= s <==> b[0] == b[1] == b[2] == 0 && b[3] == 1;
    assert SHORT_START_CODE <= s <==> b[0] == b[1] == 0 && b[2] == 1;
  }
}
