/** The legacy PKCS#1 v1.5 transport of hud/net/crypto.go: block type 1 padding (RFC 2313 section 8.1)
    around integer conversion (OS2IP and I2OSP, RFC 8017 sections 4.2 and 4.1). */
module Pkcs1 {
  import opened Bytes

  datatype PublicKey = PublicKey(n: nat, e: nat)
  datatype PrivateKey = PrivateKey(n: nat, d: nat)

  datatype CryptoError =
    | MessageTooLong | PaddingTooLong
    | CiphertextTooLong | BadFirstByte | BadBlockType | NoSeparator | PaddingTooShort

  function Pow(b: nat, e: nat): nat {
    if e == 0 then 1 else b * Pow(b, e - 1)
  }

  /** big.Int.Exp for a non-negative exponent; modulus 0 means none. */
  function ModExp(b: nat, e: nat, n: nat): (r: nat)
    ensures n > 0 ==> r < n
  {
    if n == 0 then Pow(b, e) else Pow(b, e) % n
  }

  /** big.Int.BitLen */
  function BitLen(n: nat): nat {
    if n == 0 then 0 else 1 + BitLen(n / 2)
  }

  /** The size of a modulus in bytes. */
  function ByteLen(n: nat): nat {
    (BitLen(n) + 7) / 8
  }

  /** big.Int.Bytes: the shortest big-endian form, empty for zero. */
  function MinBytes(x: nat): seq<byte> {
    if x == 0 then [] else MinBytes(x / 256) + [x % 256]
  }

  function Repeat(v: byte, n: nat): (r: seq<byte>)
    ensures |r| == n && forall k :: 0 <= k < n ==> r[k] == v
  {
    seq(n, _ => v)
  }

  function LeftPad(b: seq<byte>, k: nat): seq<byte> {
    if |b| < k then Repeat(0, k - |b|) + b else b
  }

  /** The padded block: 00 01 FF..FF 00 message. */
  function Block(msg: seq<byte>, k: nat): (r: seq<byte>)
    requires |msg| + 3 <= k
    ensures |r| == k
  {
    [0, 1] + Repeat(0xFF, k - |msg| - 3) + [0] + msg
  }

  function Encrypt(key: PrivateKey, msg: seq<byte>): Result<seq<byte>, CryptoError> {
    var k := ByteLen(key.n);
    if |msg| > k - 11 then Err(MessageTooLong)
    else if k - |msg| - 3 < 8 then Err(PaddingTooLong)
    else Ok(LeftPad(MinBytes(ModExp(FromBigEndian(Block(msg, k)), key.d, key.n)), k))
  }

  /** Where the first zero byte at or after i is, or the length if there is none. */
  function FirstZero(em: seq<byte>, i: nat): (r: nat)
    requires i <= |em|
    ensures i <= r <= |em|
    ensures r < |em| ==> em[r] == 0
    ensures forall k :: i <= k < r ==> em[k] != 0
    decreases |em| - i
  {
    if i == |em| || em[i] == 0 then i else FirstZero(em, i + 1)
  }

  /** The code looks at the first byte, and at the second one if the first is zero. */
  predicate Inspectable(em: seq<byte>) {
    |em| > 0 && (em[0] == 0 ==> |em| > 1)
  }

  /** Stripping the padding of a recovered block. */
  function Unpad(em: seq<byte>): Result<seq<byte>, CryptoError>
    requires Inspectable(em)
  {
    if em[0] != 0 then Err(BadFirstByte)
    else if em[1] != 1 && em[1] != 2 then Err(BadBlockType)
    else
      var i := FirstZero(em, 2);
      if i >= |em| then Err(NoSeparator)
      else if i < 10 then Err(PaddingTooShort)
      else Ok(em[i + 1..])
  }

  /** The k bytes that exponentiation gives back. */
  function Recovered(key: PublicKey, ciphertext: seq<byte>): seq<byte> {
    var k := ByteLen(key.n);
    LeftPad(MinBytes(ModExp(FromBigEndian(LeftPad(ciphertext, k)), key.e, key.n)), k)
  }

  /** The calls that return at all: on any other one the code indexes past its block. */
  predicate Returns(key: PublicKey, ciphertext: seq<byte>) {
    |ciphertext| > ByteLen(key.n) || Inspectable(Recovered(key, ciphertext))
  }

  function Decrypt(key: PublicKey, ciphertext: seq<byte>): Result<seq<byte>, CryptoError>
    requires Returns(key, ciphertext)
  {
    if |ciphertext| > ByteLen(key.n) then Err(CiphertextTooLong)
    else Unpad(Recovered(key, ciphertext))
  }

  // ---------- integers and octets ----------

  /** A modulus fills its bytes: 256^(k-1) <= n < 256^k. */
  lemma {:induction false} ByteLenExact(n: nat)
    requires n > 0
    ensures ByteLen(n) >= 1 && Pow256(ByteLen(n) - 1) <= n < Pow256(ByteLen(n))
    decreases n
  {
    if n < 256 {
      SmallBitLen(n);
      assert Pow256(1) == 256;
    } else {
      EightHalvings(n);
      ByteLenExact(n / 256);
    }
  }

  lemma SmallBitLen(n: nat)
    requires 0 < n < 256
    ensures 1 <= BitLen(n) <= 8
  {
    var a := n / 2;
    var b := a / 2;
    var c := b / 2;
    var d := c / 2;
    assert d < 16;
    assert BitLen(n) <= 1 + BitLen(a) && BitLen(a) <= 1 + BitLen(b);
    assert BitLen(b) <= 1 + BitLen(c) && BitLen(c) <= 1 + BitLen(d);
    assert BitLen(d) <= 1 + BitLen(d / 2) && d / 2 < 8;
    assert BitLen(d / 2) <= 1 + BitLen(d / 2 / 2) && d / 2 / 2 < 4;
    assert BitLen(d / 2 / 2) <= 2;
  }

  lemma EightHalvings(n: nat)
    requires n >= 256
    ensures BitLen(n) == 8 + BitLen(n / 256)
  {
    FourHalvings(n);
    FourHalvings(n / 16);
    assert n / 16 / 16 == n / 256;
  }

  lemma FourHalvings(n: nat)
    requires n >= 16
    ensures BitLen(n) == 4 + BitLen(n / 16)
  {
    assert n / 2 / 2 / 2 / 2 == n / 16;
    assert BitLen(n) == 1 + BitLen(n / 2);
    assert BitLen(n / 2) == 1 + BitLen(n / 2 / 2);
    assert BitLen(n / 2 / 2) == 1 + BitLen(n / 2 / 2 / 2);
  }

  /** I2OSP, written as the code writes it: shortest form, then zeros in front. */
  lemma {:induction false} PaddedIsBigEndian(x: nat, k: nat)
    requires x < Pow256(k)
    ensures |MinBytes(x)| <= k && LeftPad(MinBytes(x), k) == BigEndian(x, k)
    decreases k
  {
    if k > 0 {
      PaddedIsBigEndian(x / 256, k - 1);
      if x == 0 {
        assert BigEndian(0, k) == BigEndian(0, k - 1) + [0];
        assert LeftPad([], k) == LeftPad([], k - 1) + [0];
      } else {
        assert LeftPad(MinBytes(x), k) == LeftPad(MinBytes(x / 256), k - 1) + [x % 256];
      }
    }
  }

  lemma {:induction false} LeadingZeros(n: nat, b: seq<byte>)
    ensures FromBigEndian(Repeat(0, n) + b) == FromBigEndian(b)
    decreases n + |b|
  {
    var all := Repeat(0, n) + b;
    if b != [] {
      LeadingZeros(n, b[..|b| - 1]);
      assert all[..|all| - 1] == Repeat(0, n) + b[..|b| - 1];
    } else if n > 0 {
      LeadingZeros(n - 1, []);
      assert all[..|all| - 1] == Repeat(0, n - 1) + [];
    } else {
      assert all == b;
    }
  }

  lemma RecoveredLength(key: PublicKey, ciphertext: seq<byte>)
    requires key.n > 0
    ensures |Recovered(key, ciphertext)| == ByteLen(key.n)
  {
    var x := ModExp(FromBigEndian(LeftPad(ciphertext, ByteLen(key.n))), key.e, key.n);
    ByteLenExact(key.n);
    PaddedIsBigEndian(x, ByteLen(key.n));
  }

  // ---------- the promises ----------

  /** Every call under a modulus of two bytes or more returns, and so does every ciphertext longer than the
      modulus. Of the rest, with a one-byte modulus those do whose recovered byte is not zero, and with modulus
      zero the empty one under exponent zero. */
  lemma ReturnsExactly(key: PublicKey, ciphertext: seq<byte>)
    ensures Returns(key, ciphertext) <==>
      || |ciphertext| > ByteLen(key.n) || ByteLen(key.n) >= 2
      || (ByteLen(key.n) == 1 && ModExp(FromBigEndian(LeftPad(ciphertext, 1)), key.e, key.n) != 0)
      || (key.n == 0 && key.e == 0)
  {
    if key.n > 0 {
      ByteLenExact(key.n);
      RecoveredLength(key, ciphertext);
      var x := ModExp(FromBigEndian(LeftPad(ciphertext, ByteLen(key.n))), key.e, key.n);
      PaddedIsBigEndian(x, ByteLen(key.n));
      if ByteLen(key.n) == 1 {
        assert x < 256 by { assert Pow256(1) == 256; }
        assert BigEndian(x, 1) == [x];
      }
    } else if ciphertext == [] {
      assert FromBigEndian(LeftPad([], 0)) == 0;
      assert key.e > 0 ==> Pow(0, key.e) == 0;
      assert MinBytes(1) == [1];
    }
  }

  lemma {:induction false} BigEndianAppend(a: seq<byte>, b: seq<byte>)
    ensures FromBigEndian(a + b) == FromBigEndian(a) * Pow256(|b|) + FromBigEndian(b)
    decreases |b|
  {
    if b == [] {
      assert a + b == a;
    } else {
      var c := b[..|b| - 1];
      BigEndianAppend(a, c);
      assert (a + b)[..|a + b| - 1] == a + c;
      assert 256 * (FromBigEndian(a) * Pow256(|c|)) == FromBigEndian(a) * (256 * Pow256(|c|));
    }
  }

  /** The padded block is always below the modulus, so exponentiation loses nothing of it. */
  lemma BlockBelowModulus(msg: seq<byte>, n: nat)
    requires n > 0 && |msg| <= ByteLen(n) - 11
    ensures FromBigEndian(Block(msg, ByteLen(n))) < n
  {
    var k := ByteLen(n);
    var block := Block(msg, k);
    ByteLenExact(n);
    var rest := block[1..];
    assert block == [0] + rest;
    BigEndianAppend([0], rest);
    assert FromBigEndian([0]) == 0 by { assert [0][..0] == []; }
    FromBigEndianBound(rest);
  }

  /** Exponentiation by d, then by e, is the identity below the modulus. */
  ghost predicate KeyPair(prv: PrivateKey, pub: PublicKey) {
    && prv.n == pub.n && prv.n > 0
    && forall m: nat :: m < prv.n ==> ModExp(ModExp(m, prv.d, prv.n), pub.e, pub.n) == m
  }

  // ---------- exponentiation ----------

  lemma {:induction false} PowAdds(b: nat, d: nat, e: nat)
    ensures Pow(b, d + e) == Pow(b, d) * Pow(b, e)
    decreases d
  {
    if d > 0 {
      PowAdds(b, d - 1, e);
      assert b * (Pow(b, d - 1) * Pow(b, e)) == b * Pow(b, d - 1) * Pow(b, e);
    }
  }

  /** Exponents add up and multiply as residues do; with the exponents 0 and 1 this fixes every power. */
  lemma ModExpExactly(b: nat, d: nat, e: nat, n: nat)
    requires n > 0
    ensures ModExp(b, 0, n) == 1 % n && ModExp(b, 1, n) == b % n
    ensures ModExp(b, d + e, n) == ModExp(b, d, n) * ModExp(b, e, n) % n
  {
    assert Pow(b, 1) == b * Pow(b, 0) == b;
    PowAdds(b, d, e);
    ProductOfResidues(Pow(b, d), Pow(b, e), n);
  }

  lemma ProductOfResidues(x: nat, y: nat, n: nat)
    requires n > 0
    ensures x * y % n == (x % n) * (y % n) % n
  {
    var p, r, q, s := x / n, x % n, y / n, y % n;
    TakeOut(p, n, r, y);
    TakeOut(q, n, s, r);
    assert x == p * n + r && y == q * n + s;
    assert x * y == p * y * n + r * y;
    assert r * y == y * r;
    SameResidue(p * y, r * y, n);
    SameResidue(q * r, r * s, n);
  }

  lemma TakeOut(p: nat, n: nat, r: nat, y: nat)
    ensures (p * n + r) * y == p * y * n + r * y
  {
    assert (p * n + r) * y == p * n * y + r * y;
    assert p * n * y == p * (n * y) == p * (y * n) == p * y * n;
  }

  lemma SameResidue(t: nat, x: nat, n: nat)
    requires n > 0
    ensures (t * n + x) % n == x % n
  {
    assert (t + x / n) * n == t * n + x / n * n;
    UniqueResidue(t * n + x, t + x / n, x % n, n);
  }

  lemma UniqueResidue(a: nat, q: nat, r: nat, n: nat)
    requires r < n && a == q * n + r
    ensures a % n == r
  {
    var p := a / n;
    assert (q - p) * n == a % n - r by {
      assert (q - p) * n == q * n - p * n;
    }
    assert q - p >= 1 ==> (q - p) * n >= n;
    assert q - p <= -1 ==> (q - p) * n + n <= 0;
  }

  lemma UnpadBlock(msg: seq<byte>, k: nat)
    requires |msg| <= k - 11
    ensures Unpad(Block(msg, k)) == Ok(msg)
  {
    var em := Block(msg, k);
    var ps := k - |msg| - 3;
    var i := FirstZero(em, 2);
    assert em[2 + ps] == 0;
    assert forall j :: 2 <= j < 2 + ps ==> em[j] == 0xFF;
    assert i == 2 + ps;
    assert em[i + 1..] == msg;
  }

  /** Every message the key has room for - whatever its bytes, zeros included - encrypts to k bytes and
      comes back byte for byte; a longer one is refused, and the second length check never fires. */
  lemma DecryptUndoesEncrypt(prv: PrivateKey, pub: PublicKey, msg: seq<byte>)
    requires KeyPair(prv, pub)
    ensures Encrypt(prv, msg).Ok? <==> |msg| <= ByteLen(prv.n) - 11
    ensures Encrypt(prv, msg).Err? ==> Encrypt(prv, msg) == Err(MessageTooLong)
    ensures Encrypt(prv, msg).Ok? ==>
      |Encrypt(prv, msg).value| == ByteLen(prv.n) && Decrypt(pub, Encrypt(prv, msg).value) == Ok(msg)
  {
    if |msg| + 11 <= ByteLen(prv.n) {
      RecoveredBlock(prv, pub, msg);
      UnpadBlock(msg, ByteLen(prv.n));
    }
  }

  lemma RecoveredBlock(prv: PrivateKey, pub: PublicKey, msg: seq<byte>)
    requires KeyPair(prv, pub) && |msg| + 11 <= ByteLen(prv.n)
    ensures Encrypt(prv, msg).Ok? && |Encrypt(prv, msg).value| == ByteLen(prv.n)
    ensures Recovered(pub, Encrypt(prv, msg).value) == Block(msg, ByteLen(prv.n))
  {
    var k := ByteLen(prv.n);
    var block := Block(msg, k);
    var m := FromBigEndian(block);
    BlockBelowModulus(msg, prv.n);
    ByteLenExact(prv.n);
    var c := ModExp(m, prv.d, prv.n);
    PaddedIsBigEndian(c, k);
    BigEndianInverse(c, k);
    assert LeftPad(BigEndian(c, k), k) == BigEndian(c, k);
    PaddedIsBigEndian(m, k);
    FromBigEndianInverse(block);
  }

  /** What the other side finds when it opens an encryption, byte by byte: the type 1 block that section 8.1 of
      RFC 2313 asks of a private-key operation, with the message behind it. */
  lemma EncryptedBlock(prv: PrivateKey, pub: PublicKey, msg: seq<byte>)
    requires KeyPair(prv, pub) && |msg| + 11 <= ByteLen(prv.n)
    ensures Encrypt(prv, msg).Ok?
    ensures var k, em := ByteLen(prv.n), Recovered(pub, Encrypt(prv, msg).value);
      && |em| == k && em[0] == 0 && em[1] == 1
      && (forall j :: 2 <= j < k - |msg| - 1 ==> em[j] == 0xFF)
      && em[k - |msg| - 1] == 0 && em[k - |msg|..] == msg
  {
    RecoveredBlock(prv, pub, msg);
  }

  /** Why a ciphertext is refused: the first of the checks that its recovered block fails. */
  lemma RefusedExactly(key: PublicKey, ciphertext: seq<byte>)
    requires Returns(key, ciphertext)
    ensures var r, em := Decrypt(key, ciphertext), Recovered(key, ciphertext);
      if |ciphertext| > ByteLen(key.n) then r == Err(CiphertextTooLong)
      else if em[0] != 0 then r == Err(BadFirstByte)
      else if em[1] != 1 && em[1] != 2 then r == Err(BadBlockType)
      else if forall j :: 2 <= j < |em| ==> em[j] != 0 then r == Err(NoSeparator)
      else r == Err(PaddingTooShort) <==> exists j :: 2 <= j < 10 && j < |em| && em[j] == 0
  {
  }

  /** A ciphertext that lost leading zero bytes on its way decrypts to the same thing. */
  lemma LeadingZerosDoNotMatter(key: PublicKey, ciphertext: seq<byte>, j: nat)
    requires Returns(key, ciphertext) && j <= |ciphertext| <= ByteLen(key.n)
    requires forall i :: 0 <= i < j ==> ciphertext[i] == 0
    ensures Returns(key, ciphertext[j..]) && Decrypt(key, ciphertext[j..]) == Decrypt(key, ciphertext)
  {
    var k := ByteLen(key.n);
    assert ciphertext == Repeat(0, j) + ciphertext[j..];
    assert LeftPad(ciphertext, k) == LeftPad(ciphertext[j..], k);
  }

  /** What decryption accepts, exactly: a block 00, type 1 or 2, at least eight non-zero bytes, 00. */
  lemma DecryptExactly(key: PublicKey, ciphertext: seq<byte>, msg: seq<byte>)
    requires Returns(key, ciphertext)
    ensures Decrypt(key, ciphertext) == Ok(msg) <==>
      (&& |ciphertext| <= ByteLen(key.n)
       && exists bt: byte, ps: seq<byte> :: PaddedAs(Recovered(key, ciphertext), bt, ps, msg))
  {
    var em := Recovered(key, ciphertext);
    if Decrypt(key, ciphertext) == Ok(msg) {
      var i := FirstZero(em, 2);
      assert em == [0] + [em[1]] + em[2..i] + [0] + msg;
      assert PaddedAs(em, em[1], em[2..i], msg);
    }
    if bt: byte, ps: seq<byte> :| PaddedAs(em, bt, ps, msg) {
      assert forall j :: 2 <= j < 2 + |ps| ==> em[j] == ps[j - 2];
      assert em[2 + |ps|] == 0;
      assert FirstZero(em, 2) == 2 + |ps|;
      assert em[3 + |ps|..] == msg;
    }
  }

  predicate PaddedAs(em: seq<byte>, bt: byte, ps: seq<byte>, msg: seq<byte>) {
    && em == [0] + [bt] + ps + [0] + msg && (bt == 1 || bt == 2)
    && |ps| >= 8 && forall k :: 0 <= k < |ps| ==> ps[k] != 0
  }

  // ---------- the code ----------

  /** Both functions pad a short byte string on the left by copying it into a longer buffer. */
  method PadTo(b: seq<byte>, k: nat) returns (r: seq<byte>)
    ensures r == LeftPad(b, k)
  {
    r := b;
    if |b| < k {
      var tmp := new byte[k](_ => 0);
      for i := 0 to |b|
        invariant tmp[..] == Repeat(0, k - |b|) + b[..i] + Repeat(0, |b| - i)
      {
        tmp[k - |b| + i] := b[i];
      }
      r := tmp[..];
    }
  }

  method LegacyPrivateEncryptPKCS1v15(prv: PrivateKey, msg: seq<byte>) returns (r: Result<seq<byte>, CryptoError>)
    ensures r == Encrypt(prv, msg)
  {
    var k := ByteLen(prv.n);
    if |msg| > k - 11 {
      return Err(MessageTooLong);
    }
    var em := new byte[k](_ => 0);
    em[0] := 0x00;
    em[1] := 0x01;
    var psLen := k - |msg| - 3;
    if psLen < 8 {
      return Err(PaddingTooLong);
    }
    for i := 0 to psLen
      invariant em[..] == [0, 1] + Repeat(0xFF, i) + Repeat(0, k - 2 - i)
    {
      em[2 + i] := 0xFF;
    }
    em[2 + psLen] := 0x00;
    for i := 0 to |msg|
      invariant em[..] == [0, 1] + Repeat(0xFF, psLen) + [0] + msg[..i] + Repeat(0, |msg| - i)
    {
      em[3 + psLen + i] := msg[i];
    }
    assert em[..] == Block(msg, k);
    var m := FromBigEndian(em[..]);
    var c := ModExp(m, prv.d, prv.n);
    var out := PadTo(MinBytes(c), k);
    return Ok(out);
  }

  method LegacyPublicDecryptPKCS1v15(pub: PublicKey, ciphertext: seq<byte>)
    returns (r: Result<seq<byte>, CryptoError>)
    requires Returns(pub, ciphertext)
    ensures r == Decrypt(pub, ciphertext)
  {
    var k := ByteLen(pub.n);
    if |ciphertext| > k {
      return Err(CiphertextTooLong);
    }
    var padded := PadTo(ciphertext, k);
    var c := FromBigEndian(padded);
    var m := ModExp(c, pub.e, pub.n);
    var em := PadTo(MinBytes(m), k);
    if em[0] != 0x00 {
      return Err(BadFirstByte);
    }
    var bt := em[1];
    if bt != 0x01 && bt != 0x02 {
      return Err(BadBlockType);
    }
    var i := 2;
    while i < |em| && em[i] != 0x00
      invariant 2 <= i <= |em|
      invariant FirstZero(em, 2) == FirstZero(em, i)
    {
      i := i + 1;
    }
    if i >= |em| {
      return Err(NoSeparator);
    }
    if i < 10 {
      return Err(PaddingTooShort);
    }
    return Ok(em[i + 1..]);
  }
}
