/** Numbers as little-endian bytes, and parsing from the front of a byte string. */
module ByteCodec {
  import opened Keys
  import opened Wrappers

  type Bytes = seq<Byte>

  /** The lowest `width` bytes of a number, least significant first. */
  function LittleEndian(n: nat, width: nat): (b: Bytes)
    ensures |b| == width
    decreases width
  {
    if width == 0 then [] else [n % 0x100] + LittleEndian(n / 0x100, width - 1)
  }

  function FromLittleEndian(b: Bytes): (n: nat)
    decreases |b|
  {
    if b == [] then 0 else b[0] + 0x100 * FromLittleEndian(b[1..])
  }

  function Power256(width: nat): (p: nat)
    ensures p > 0
  {
    if width == 0 then 1 else 0x100 * Power256(width - 1)
  }

  /** Reading the bytes back gives the number cut to the width. */
  lemma {:induction false} LittleEndianCuts(n: nat, width: nat)
    ensures FromLittleEndian(LittleEndian(n, width)) == n % Power256(width)
    decreases width
  {
    if width > 0 {
      LittleEndianCuts(n / 0x100, width - 1);
      var p, q := Power256(width - 1), n / 0x100;
      assert LittleEndian(n, width)[1..] == LittleEndian(q, width - 1);
      DivModStep(n, q, p);
    }
  }

  lemma DivModStep(n: nat, q: nat, p: nat)
    requires q == n / 0x100 && p > 0
    ensures n % 0x100 + 0x100 * (q % p) == n % (0x100 * p)
  {
    var d, r := q / p, q % p;
    assert n == 0x100 * (d * p + r) + n % 0x100;
    assert n == d * (0x100 * p) + (0x100 * r + n % 0x100);
    assert 0 <= 0x100 * r + n % 0x100 < 0x100 * p;
    DivModUnique(n, 0x100 * p, d, 0x100 * r + n % 0x100);
  }

  lemma MultipleAtLeast(x: int, p: int)
    requires p > 0
    ensures x >= 1 ==> x * p >= p
    ensures x <= -1 ==> x * p <= -p
  {
    assert x * p - p == (x - 1) * p;
    assert x * p + p == (x + 1) * p;
  }

  lemma DivModUnique(n: int, p: int, d: int, r: int)
    requires p > 0 && n == d * p + r && 0 <= r < p
    ensures n % p == r
  {
    var d', r' := n / p, n % p;
    assert n == p * d' + r' && 0 <= r' < p;
    assert (d - d') * p == r' - r;
    MultipleAtLeast(d - d', p);
  }

  lemma Widths()
    ensures Power256(1) == 0x100 && Power256(2) == 0x1_0000 && Power256(4) == 0x1_0000_0000
  {
    assert Power256(3) == 0x100_0000;
  }

  // ------------------------------------------------------------ reading

  function ReadNumber(b: Bytes, width: nat): Option<(nat, Bytes)> {
    if |b| < width then None else Some((FromLittleEndian(b[..width]), b[width..]))
  }

  lemma ReadNumberBack(n: nat, width: nat, rest: Bytes)
    requires n < Power256(width)
    ensures ReadNumber(LittleEndian(n, width) + rest, width) == Some((n, rest))
  {
    LittleEndianCuts(n, width);
    assert (LittleEndian(n, width) + rest)[..width] == LittleEndian(n, width);
    assert (LittleEndian(n, width) + rest)[width..] == rest;
    DivModUnique(n, Power256(width), 0, n);
  }

  function ReadBytes(b: Bytes, n: nat): Option<(Bytes, Bytes)> {
    if |b| < n then None else Some((b[..n], b[n..]))
  }

  lemma ReadBytesBack(s: Bytes, rest: Bytes)
    ensures ReadBytes(s + rest, |s|) == Some((s, rest))
  {
  }

  /** The pattern of a 32-bit integer. */
  function IntBits(i: Int32): (u: nat)
    ensures u < 0x1_0000_0000
  {
    if i < 0 then i + 0x1_0000_0000 else i
  }

  function BitsInt(u: nat): Int32
    requires u < 0x1_0000_0000
  {
    if u < 0x8000_0000 then u else u - 0x1_0000_0000
  }

  predicate IsFloatBits(u: nat) { u <= 0x7F80_0000 || 0x8000_0000 < u <= 0xFF80_0000 }
}
