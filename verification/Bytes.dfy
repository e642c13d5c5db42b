/** Octets, fixed-width integers and the small sequence vocabulary every other module uses. */
module Bytes {

  type byte = b: int | 0 <= b < 256

  datatype Option<+T> = None | Some(value: T)

  datatype Result<+T, +E> = Ok(value: T) | Err(error: E)

  const TWO_32: int := 0x1_0000_0000

  /** A uint32 value. */
  type u32 = n: int | 0 <= n < 0x1_0000_0000

  /** The width in bytes of every length, index and header field on the wire. It is the length of a sequence and
      not a literal, because the verifier unrolls BigEndian and LittleEndian at a literal width. */
  const WORD: nat := |ZERO_WORD|

  const ZERO_WORD: seq<byte> := [0, 0, 0, 0]

  /** Go's conversion of a non-negative int to uint32. */
  function Truncate32(n: int): (r: u32) {
    n % 0x1_0000_0000
  }

  function Concat<T>(parts: seq<seq<T>>): seq<T> {
    if parts == [] then [] else parts[0] + Concat(parts[1..])
  }

  lemma Assoc<T>(a: seq<T>, b: seq<T>, c: seq<T>)
    ensures (a + b) + c == a + (b + c)
  {
  }

  lemma EmptyEnds<T>(a: seq<T>)
    ensures [] + a == a && a + [] == a
  {
  }

  lemma {:induction false} ConcatAppend<T>(a: seq<seq<T>>, b: seq<seq<T>>)
    ensures Concat(a + b) == Concat(a) + Concat(b)
  {
    if a == [] {
      assert a + b == b;
    } else {
      ConcatAppend(a[1..], b);
      assert (a + b)[1..] == a[1..] + b;
      Assoc(a[0], Concat(a[1..]), Concat(b));
    }
  }

  lemma ConcatSingle<T>(a: seq<T>)
    ensures Concat([a]) == a
  {
    assert Concat([a]) == a + Concat<T>([]);
  }

  lemma ConcatSnoc<T>(a: seq<seq<T>>, x: seq<T>)
    ensures Concat(a + [x]) == Concat(a) + x
  {
    ConcatAppend(a, [x]);
    ConcatSingle(x);
  }

  /** The slice d[a..b], or nothing when the bounds are not in order. */
  function Slice<T>(d: seq<T>, a: nat, b: nat): seq<T> {
    if a <= b <= |d| then d[a..b] else []
  }

  // ---------- fixed-width integers ----------

  function Pow256(n: nat): (r: nat)
    ensures r > 0
  {
    if n == 0 then 1 else 256 * Pow256(n - 1)
  }

  lemma Pow256Of4()
    ensures Pow256(4) == TWO_32
  {
    assert Pow256(2) == 256 * Pow256(1) == 65536;
    assert Pow256(4) == 256 * Pow256(3);
  }

  /** The unsigned integer a byte string spells, most significant byte first. */
  function FromBigEndian(b: seq<byte>): nat {
    if b == [] then 0 else 256 * FromBigEndian(b[..|b| - 1]) + b[|b| - 1] as nat
  }

  /** The low `width` bytes of n, most significant first. */
  function BigEndian(n: nat, width: nat): (r: seq<byte>)
    ensures |r| == width
    decreases width
  {
    if width == 0 then [] else BigEndian(n / 256, width - 1) + [n % 256]
  }

  lemma {:induction false} FromBigEndianBound(b: seq<byte>)
    ensures FromBigEndian(b) < Pow256(|b|)
  {
    if b != [] {
      FromBigEndianBound(b[..|b| - 1]);
    }
  }

  lemma {:induction false} BigEndianInverse(n: nat, width: nat)
    requires n < Pow256(width)
    ensures FromBigEndian(BigEndian(n, width)) == n
    decreases width
  {
    if width > 0 {
      BigEndianInverse(n / 256, width - 1);
      assert BigEndian(n, width)[..width - 1] == BigEndian(n / 256, width - 1);
    }
  }

  lemma {:induction false} FromBigEndianInverse(b: seq<byte>)
    ensures BigEndian(FromBigEndian(b), |b|) == b
    decreases |b|
  {
    if b != [] {
      var n, last := FromBigEndian(b[..|b| - 1]), b[|b| - 1];
      FromBigEndianInverse(b[..|b| - 1]);
      assert (256 * n + last) / 256 == n && (256 * n + last) % 256 == last;
      assert b == b[..|b| - 1] + [last];
    }
  }

  lemma FromBigEndianFour(b: seq<byte>)
    requires |b| == 4
    ensures FromBigEndian(b) ==
      16777216 * b[0] as int + 65536 * b[1] as int + 256 * b[2] as int + b[3] as int
  {
    var b3, b2, b1 := b[..3], b[..2], b[..1];
    assert b3[..2] == b2 && b2[..1] == b1 && b1[..0] == [];
    assert FromBigEndian(b1) == b[0] as int;
    assert FromBigEndian(b2) == 256 * FromBigEndian(b1) + b[1] as int;
    assert FromBigEndian(b3) == 256 * FromBigEndian(b2) + b[2] as int;
  }

  /** The unsigned integer a byte string spells, least significant byte first. */
  function FromLittleEndian(b: seq<byte>): nat {
    if b == [] then 0 else b[0] as nat + 256 * FromLittleEndian(b[1..])
  }

  lemma FromLittleEndianFour(b: seq<byte>)
    requires |b| == 4
    ensures FromLittleEndian(b) ==
      b[0] as int + 256 * b[1] as int + 65536 * b[2] as int + 16777216 * b[3] as int
  {
    var b1, b2, b3 := b[1..], b[2..], b[3..];
    assert b1[1..] == b2 && b2[1..] == b3 && b3[1..] == [];
    assert FromLittleEndian(b3) == b[3] as int;
    assert FromLittleEndian(b2) == b[2] as int + 256 * FromLittleEndian(b3);
    assert FromLittleEndian(b1) == b[1] as int + 256 * FromLittleEndian(b2);
  }

  /** The low `width` bytes of n, least significant first. */
  function LittleEndian(n: nat, width: nat): (r: seq<byte>)
    ensures |r| == width
    decreases width
  {
    if width == 0 then [] else [n % 256] + LittleEndian(n / 256, width - 1)
  }

  lemma {:induction false} FromLittleEndianBound(b: seq<byte>)
    ensures FromLittleEndian(b) < Pow256(|b|)
  {
    if b != [] {
      FromLittleEndianBound(b[1..]);
    }
  }

  lemma {:induction false} LittleEndianInverse(n: nat, width: nat)
    requires n < Pow256(width)
    ensures FromLittleEndian(LittleEndian(n, width)) == n
    decreases width
  {
    if width > 0 {
      LittleEndianInverse(n / 256, width - 1);
      assert LittleEndian(n, width)[1..] == LittleEndian(n / 256, width - 1);
    }
  }
}
