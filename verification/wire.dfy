/**
 * Byte-level building blocks of the record format: bytes, the conversion of a
 * size to a 32-bit unsigned integer, and the 4-byte encoding of such an integer.
 *
 * The program copies each `uint32_t` into the byte stream through its memory
 * representation, so the byte order is the machine's. This model fixes it to
 * little-endian, the order of the common platforms the program runs on.
 */
module Wire {

  newtype byte = b: int | 0 <= b < 0x100

  type Bytes = seq<byte>

  /** 2^32: every `uint32_t` is below it. */
  const U32_LIMIT: nat := 0x1_0000_0000

  /** Conversion of a `size_t` to `uint32_t`: the value modulo 2^32. */
  function Wrap32(n: nat): (r: nat)
    ensures r < U32_LIMIT
    ensures n < U32_LIMIT ==> r == n
    ensures r <= n
  {
    n % U32_LIMIT
  }

  /** `n` bytes of value zero, the contents of `std::string(n, '\0')`. */
  function Zeros(n: nat): Bytes
  {
    seq(n, _ => 0)
  }

  lemma AppendAssoc(a: Bytes, b: Bytes, c: Bytes)
    ensures a + (b + c) == a + b + c
  {
  }

  /**
   * Four byte strings placed one after another after `x` are found at their
   * offsets from `|x|`.
   */
  lemma PiecesAt(x: Bytes, a: Bytes, b: Bytes, c: Bytes, d: Bytes, y: Bytes)
    ensures var s, p := x + (a + b + c + d) + y, |x|;
      && s[p..p + |a|] == a
      && s[p + |a|..p + |a| + |b|] == b
      && s[p + |a| + |b|..p + |a| + |b| + |c|] == c
      && s[p + |a| + |b| + |c|..p + |a| + |b| + |c| + |d|] == d
  {
    var s, p := x + (a + b + c + d) + y, |x|;
    var i, j, k, l := p + |a|, p + |a| + |b|, p + |a| + |b| + |c|, p + |a| + |b| + |c| + |d|;
    assert s[p..i] == a by { assert forall m | 0 <= m < |a| :: s[p..i][m] == a[m]; }
    assert s[i..j] == b by { assert forall m | 0 <= m < |b| :: s[i..j][m] == b[m]; }
    assert s[j..k] == c by { assert forall m | 0 <= m < |c| :: s[j..k][m] == c[m]; }
    assert s[k..l] == d by { assert forall m | 0 <= m < |d| :: s[k..l][m] == d[m]; }
  }

  /** A window that lies within a prefix of `b` is the same window of `b`. */
  lemma PrefixWindow(a: Bytes, b: Bytes, x: nat, y: nat)
    requires a <= b && x <= y <= |a|
    ensures a[x..y] == b[x..y]
  {
    assert a == b[..|a|];
  }

  /**
   * The 4 bytes of a `uint32_t` as written through `reinterpret_cast`: its
   * bytes from the least significant one up.
   */
  function EncodeU32(n: nat): (r: Bytes)
    requires n < U32_LIMIT
    ensures |r| == 4
  {
    [(n % 0x100) as byte, (n / 0x100 % 0x100) as byte, (n / 0x1_0000 % 0x100) as byte, (n / 0x100_0000) as byte]
  }

  /** The `uint32_t` whose 4 bytes, least significant first, are `b`. */
  function DecodeU32(b: Bytes): (r: nat)
    requires |b| == 4
    ensures r < U32_LIMIT
  {
    b[0] as nat + 0x100 * b[1] as nat + 0x1_0000 * b[2] as nat + 0x100_0000 * b[3] as nat
  }

  /** Decoding the 4 bytes of a `uint32_t` gives it back. */
  lemma U32DecodeEncode(n: nat)
    requires n < U32_LIMIT
    ensures DecodeU32(EncodeU32(n)) == n
  {
    var q1, q2, q3 := n / 0x100, n / 0x1_0000, n / 0x100_0000;
    assert q2 == q1 / 0x100 && q3 == q2 / 0x100;
  }

  /** Division by 256 splits off the lowest byte. */
  lemma DivMod256(m: nat, q: nat, r: nat)
    requires m == 0x100 * q + r && r < 0x100
    ensures m / 0x100 == q && m % 0x100 == r
  {
  }

  /** Every 4 bytes are the encoding of the `uint32_t` they decode to. */
  lemma U32EncodeDecode(b: Bytes)
    requires |b| == 4
    ensures EncodeU32(DecodeU32(b)) == b
  {
    var m := DecodeU32(b);
    var b0, b1, b2, b3 := b[0] as nat, b[1] as nat, b[2] as nat, b[3] as nat;
    var t1, t2 := b1 + 0x100 * b2 + 0x1_0000 * b3, b2 + 0x100 * b3;
    DivMod256(m, t1, b0);
    DivMod256(t1, t2, b1);
    DivMod256(t2, b3, b2);
    assert m / 0x1_0000 == t1 / 0x100 && m / 0x100_0000 == t2 / 0x100;
  }
}
