/** hasAnnexBNALType of hud/stream/frame_sources.go: the scan behind the IDR gate. */
module NalScan {
  import opened Bytes
  import opened AnnexB

  const IDR_TYPE := 5

  /** A start code in d, of either length, has a NAL of this type behind it. Every four-byte code
      ends in a three-byte one, so the three-byte codes are all of them. */
  ghost predicate Contains(d: seq<byte>, wanted: nat) {
    exists p: nat :: ThreeByteCode(d, p) && NalType(d[p + 3]) == wanted
  }

  /** The start codes the scan stops at. It resumes one past the header byte, so a code that begins
      on the header byte of another one - that header is then zero - is passed over, unless that
      other one was itself passed over. */
  predicate Seen(d: seq<byte>, p: nat) {
    ThreeByteCode(d, p) && !(p >= 3 && Seen(d, p - 3))
  }

  predicate SeenBelow(d: seq<byte>, wanted: nat, n: nat) {
    exists p: nat :: p < n && Seen(d, p) && NalType(d[p + 3]) == wanted
  }

  /** The value hasAnnexBNALType computes. */
  predicate Reports(d: seq<byte>, wanted: nat) {
    SeenBelow(d, wanted, |d|)
  }

  predicate CarriesIdr(au: seq<byte>) {
    Reports(au, IDR_TYPE)
  }

  method HasAnnexBNALType(data: seq<byte>, wanted: byte) returns (found: bool)
    ensures found == Reports(data, wanted)
  {
    var i := 0;
    while i + 3 < |data|
      invariant i <= |data|
      invariant !SeenBelow(data, wanted, i)
      // no code the scan stopped at has its header byte at i or later
      invariant forall q: nat :: i <= q < i + 3 && ThreeByteCode(data, q) ==> Seen(data, q)
    {
      var startCodeLen := 0;
      if data[i] == 0 && data[i + 1] == 0 && data[i + 2] == 1 {
        startCodeLen := 3;
      } else if i + 4 < |data| && data[i] == 0 && data[i + 1] == 0 && data[i + 2] == 0 && data[i + 3] == 1 {
        startCodeLen := 4;
      }
      if startCodeLen == 0 {
        assert !ThreeByteCode(data, i);
        i := i + 1;
        continue;
      }
      var nalIndex := i + startCodeLen;
      assert Seen(data, nalIndex - 3) && (startCodeLen == 4 ==> !Seen(data, i));
      BehindACode(data, nalIndex - 3);
      if nalIndex < |data| && NalType(data[nalIndex]) == wanted {
        assert Seen(data, nalIndex - 3);
        return true;
      }
      i := nalIndex + 1;
    }
    return false;
  }

  /** A code the scan stops at is followed by three positions where it would not stop. */
  lemma BehindACode(d: seq<byte>, c: nat)
    requires Seen(d, c)
    ensures !Seen(d, c + 1) && !Seen(d, c + 2) && !Seen(d, c + 3)
    ensures forall q: nat :: c + 4 <= q < c + 7 && ThreeByteCode(d, q) ==> Seen(d, q)
  {
    forall q: nat | c + 4 <= q < c + 7 && ThreeByteCode(d, q) ensures Seen(d, q) {
      assert q - 3 == c + 1 || q - 3 == c + 2 || q - 3 == c + 3;
    }
  }

  // ---------- sound always, complete exactly when nothing is passed over ----------

  /** How many start codes stand directly before the one at p, each on the header of the last. */
  function ChainBefore(d: seq<byte>, p: nat): nat {
    if p >= 3 && ThreeByteCode(d, p - 3) then 1 + ChainBefore(d, p - 3) else 0
  }

  lemma {:induction false} SeenIsEvenInChain(d: seq<byte>, p: nat)
    requires ThreeByteCode(d, p)
    ensures Seen(d, p) <==> ChainBefore(d, p) % 2 == 0
    ensures !Seen(d, p) ==> p >= 3 && Seen(d, p - 3) && d[p] == 0
  {
    if p >= 3 && ThreeByteCode(d, p - 3) {
      SeenIsEvenInChain(d, p - 3);
    }
  }

  /** Nothing is reported that is not there; and what is there is reported exactly when one of the
      start codes before it has an even number of start codes chained directly in front of it. */
  lemma ReportsExactly(d: seq<byte>, wanted: nat)
    ensures Reports(d, wanted) ==> Contains(d, wanted)
    ensures Reports(d, wanted) <==>
      exists p: nat :: ThreeByteCode(d, p) && NalType(d[p + 3]) == wanted && ChainBefore(d, p) % 2 == 0
  {
    if Reports(d, wanted) {
      var p: nat :| p < |d| && Seen(d, p) && NalType(d[p + 3]) == wanted;
      SeenIsEvenInChain(d, p);
    }
    if p: nat :| ThreeByteCode(d, p) && NalType(d[p + 3]) == wanted && ChainBefore(d, p) % 2 == 0 {
      SeenIsEvenInChain(d, p);
      assert p < |d|;
    }
  }

  ghost predicate NoZeroHeader(d: seq<byte>) {
    forall p: nat :: ThreeByteCode(d, p) ==> d[p + 3] != 0
  }

  /** Complete on every input where no start code is followed by a zero header byte. */
  lemma CompleteWithoutZeroHeaders(d: seq<byte>, wanted: nat)
    requires NoZeroHeader(d)
    ensures Reports(d, wanted) <==> Contains(d, wanted)
  {
    ReportsExactly(d, wanted);
    if p: nat :| ThreeByteCode(d, p) && NalType(d[p + 3]) == wanted {
      assert p >= 3 ==> !ThreeByteCode(d, p - 3);
      assert ChainBefore(d, p) == 0;
    }
  }

  /** Two adjacent start codes: the IDR behind the second is missed. */
  lemma AdjacentCodesHideAnIdr()
    ensures var d: seq<byte> := [0, 0, 1, 0, 0, 1, 0x65];
      Contains(d, IDR_TYPE) && !Reports(d, IDR_TYPE) && !NoZeroHeader(d)
  {
    var d: seq<byte> := [0, 0, 1, 0, 0, 1, 0x65];
    assert ThreeByteCode(d, 3) && NalType(d[6]) == IDR_TYPE;
    assert ThreeByteCode(d, 0) && d[3] == 0;
    assert Seen(d, 0);
    forall p: nat | p < |d| && Seen(d, p) ensures NalType(d[p + 3]) != IDR_TYPE {
      assert p == 0 || p == 3;
    }
  }
}
