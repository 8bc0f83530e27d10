/** Little-endian encoding of fixed-width unsigned integers.

    A typed read or write (`read::<T>`, `write::<T>`) reinterprets the bytes
    at an address as a value of `T`. This model restricts `T` to the unsigned
    integer types of 1, 2, 4 and 8 bytes on a little-endian machine, so a value
    of width `n` occupies `n` bytes, least significant byte first.
 */
module LittleEndian {
  import opened Mem

  /** The unsigned integer types a typed access may use. */
  datatype Width = U8 | U16 | U32 | U64
  {
    /** `size_of::<T>()`. */
    function Size(): nat
    {
      match this
      case U8 => 1
      case U16 => 2
      case U32 => 4
      case U64 => 8
    }

    /** One more than the largest value of the type. */
    function Bound(): nat
    {
      Pow256(Size())
    }
  }

  /** The pointer-sized unsigned integer (`usize` on a 64-bit target). */
  const PointerWidth: Width := U64

  function Pow256(n: nat): (r: nat)
    ensures r >= 1
  {
    if n == 0 then 1 else 256 * Pow256(n - 1)
  }

  /** The `n` bytes of `v`, least significant first. */
  function Encode(v: nat, n: nat): (r: seq<byte>)
    requires v < Pow256(n)
    ensures |r| == n
  {
    if n == 0 then [] else [v % 256] + Encode(v / 256, n - 1)
  }

  /** The value whose little-endian bytes are `s`. */
  function Decode(s: seq<byte>): (v: nat)
    ensures v < Pow256(|s|)
  {
    if |s| == 0 then 0
    else
      var rest := Decode(s[1..]);
      assert s[0] + 256 * rest <= 255 + 256 * (Pow256(|s| - 1) - 1);
      s[0] + 256 * rest
  }

  /** Byte `i` of the encoding is digit `i` of `v` in base 256. */
  lemma {:induction false} EncodeDigit(v: nat, n: nat, i: nat)
    requires v < Pow256(n)
    requires i < n
    ensures Encode(v, n)[i] == (v / Pow256(i)) % 256
  {
    if i > 0 {
      EncodeDigit(v / 256, n - 1, i - 1);
      DivDiv(v, Pow256(i - 1));
    }
  }

  lemma DivDiv(v: nat, p: nat)
    requires p >= 1
    ensures v / 256 / p == v / (256 * p)
  {
    var q := v / 256;
    var r := v % 256;
    var q2 := q / p;
    var r2 := q % p;
    assert q == p * q2 + r2;
    assert v == 256 * q + r;
    assert 256 * q == 256 * (p * q2) + 256 * r2;
    assert 256 * (p * q2) == (256 * p) * q2;
    assert 256 * r2 <= 256 * (p - 1);
    DivUnique(v, 256 * p, q2, 256 * r2 + r);
  }

  lemma DivUnique(v: nat, d: nat, q: nat, r: nat)
    requires d >= 1 && 0 <= r < d
    requires v == d * q + r
    ensures v / d == q
  {
    var q' := v / d;
    var r' := v % d;
    assert d * q + r == d * q' + r';
    if q < q' {
      MulAtLeast(d, q' - q);
    } else if q' < q {
      MulAtLeast(d, q - q');
    }
  }

  lemma MulAtLeast(d: nat, k: nat)
    requires k >= 1
    ensures d * k >= d
  {
  }

  /** Decoding an encoding gives back the value. */
  lemma {:induction false} DecodeEncode(v: nat, n: nat)
    requires v < Pow256(n)
    ensures Decode(Encode(v, n)) == v
  {
    if n > 0 {
      var s := Encode(v, n);
      assert s[1..] == Encode(v / 256, n - 1);
      DecodeEncode(v / 256, n - 1);
    }
  }

  /** Encoding a decoded byte sequence gives back the bytes. */
  lemma {:induction false} EncodeDecode(s: seq<byte>)
    ensures Encode(Decode(s), |s|) == s
  {
    if |s| > 0 {
      var v := Decode(s);
      assert v % 256 == s[0];
      assert v / 256 == Decode(s[1..]);
      EncodeDecode(s[1..]);
    }
  }
}
