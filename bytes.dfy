/** Bytes, big-endian integers and the small arithmetic facts the codecs rest on. */
module Bytes {

  /** An unsigned 8-bit value (C++ `uint8`). */
  type Byte = x: int | 0 <= x < 256

  datatype Option<T> = None | Some(value: T)

  /** Concatenation is associative. */
  lemma SeqAssoc<T>(a: seq<T>, b: seq<T>, c: seq<T>)
    ensures (a + b) + c == a + (b + c)
  {
  }

  /** A sequence is its part before i, element i, and its part after i. */
  lemma SplitAt<T>(s: seq<T>, i: nat)
    requires i < |s|
    ensures s == s[..i] + ([s[i]] + s[i + 1..])
  {
  }

  /** Replacing element i puts the new element between the same two parts. */
  lemma UpdateSplit<T>(s: seq<T>, i: nat, x: T)
    requires i < |s|
    ensures s[i := x] == s[..i] + ([x] + s[i + 1..])
  {
  }

  /** Each character of a BString is one byte. */
  function AsBytes(s: string): (b: seq<Byte>)
    ensures |b| == |s|
    ensures forall i :: 0 <= i < |s| && (s[i] as int) < 256 ==> b[i] == s[i] as int
  {
    seq(|s|, i requires 0 <= i < |s| => (s[i] as int) % 256)
  }

  /** 256^n: one more than the largest value n big-endian bytes can carry. */
  function Pow256(n: nat): (p: nat)
    ensures p >= 1
  {
    if n == 0 then 1 else 256 * Pow256(n - 1)
  }

  /** 2^64, the range of `size_t` / `uint64` on the target. */
  const TWO_64: nat := 0x1_0000_0000_0000_0000

  /** The value of a big-endian byte string, read most significant byte first. */
  function BeValue(s: seq<Byte>): nat
  {
    if s == [] then 0 else BeValue(s[..|s| - 1]) * 256 + s[|s| - 1]
  }

  /** The n-byte big-endian representation of v (v is reduced modulo 256^n). */
  function BeBytes(v: nat, n: nat): (r: seq<Byte>)
    ensures |r| == n
  {
    if n == 0 then [] else BeBytes(v / 256, n - 1) + [v % 256]
  }

  /** A two-byte big-endian value: high byte times 256 plus low byte (ntohs). */
  lemma BeValuePair(s: seq<Byte>)
    requires |s| == 2
    ensures BeValue(s) == (s[0] as int) * 256 + s[1]
  {
    var p := s[..1];
    assert p[..0] == [];
    assert BeValue(p) == BeValue(p[..0]) * 256 + p[0] == s[0];
    assert s[..|s| - 1] == p;
  }

  /** Multiplying by a positive number keeps order. */
  lemma MulMono(d: int, x: int, y: int)
    requires d > 0 && x <= y
    ensures d * x <= d * y
  {}

  /** Division is unique: a quotient and remainder in range are THE quotient and remainder. */
  lemma DivModUnique(v: int, d: int, q: int, r: int)
    requires d > 0 && 0 <= r < d && v == d * q + r
    ensures v / d == q && v % d == r
  {
    var q0 := v / d;
    if q0 < q {
      MulMono(d, q0 + 1, q);
    } else if q0 > q {
      MulMono(d, q + 1, q0);
    }
  }

  /** Dividing twice is dividing by the product. */
  lemma DivDiv(v: nat, a: nat, b: nat)
    requires a > 0 && b > 0
    ensures v / a / b == v / (a * b)
  {
    var q, r := v / a, v % a;
    var q2, r2 := q / b, q % b;
    assert v == a * q + r;
    assert q == b * q2 + r2;
    assert v == (a * b) * q2 + (a * r2 + r) by {
      assert a * q == a * (b * q2 + r2) == (a * b) * q2 + a * r2;
    }
    MulMono(a, r2, b - 1);
    DivModUnique(v, a * b, q2, a * r2 + r);
  }

  /** Byte i of the big-endian representation is v shifted right by 8 * (n - 1 - i) bits, masked to 8 bits. */
  lemma {:induction false} BeBytesAt(v: nat, n: nat, i: nat)
    requires i < n
    ensures BeBytes(v, n)[i] == (v / Pow256(n - 1 - i)) % 256
  {
    if i == n - 1 {
      assert Pow256(0) == 1;
    } else {
      BeBytesAt(v / 256, n - 1, i);
      DivDiv(v, 256, Pow256(n - 2 - i));
    }
  }

  /** Big-endian decoding undoes big-endian encoding for every value that fits. */
  lemma {:induction false} BeRoundTrip(v: nat, n: nat)
    requires v < Pow256(n)
    ensures BeValue(BeBytes(v, n)) == v
  {
    if n > 0 {
      var s := BeBytes(v, n);
      assert s[..n - 1] == BeBytes(v / 256, n - 1);
      assert s[n - 1] == v % 256;
      var q := v / 256;
      assert v == 256 * q + v % 256;
      assert q < Pow256(n - 1);
      BeRoundTrip(q, n - 1);
      assert BeValue(s) == BeValue(s[..n - 1]) * 256 + s[n - 1];
    }
  }

  /** A big-endian string of n bytes carries a value below 256^n. */
  lemma {:induction false} BeValueBound(s: seq<Byte>)
    ensures BeValue(s) < Pow256(|s|)
  {
    if s != [] {
      BeValueBound(s[..|s| - 1]);
    }
  }

  /** 2^n. */
  function Pow2(n: nat): (p: nat)
    ensures p >= 1
  {
    if n == 0 then 1 else 2 * Pow2(n - 1)
  }

  /** Bitwise exclusive or of the low n bits of a and b, built from the least significant bit up. */
  function XorBits(a: nat, b: nat, n: nat): (r: nat)
    ensures r < Pow2(n)
  {
    if n == 0 then 0 else 2 * XorBits(a / 2, b / 2, n - 1) + (if a % 2 == b % 2 then 0 else 1)
  }

  /** Bitwise exclusive or of two bytes (C++ `^` on `uint8`). */
  function Xor(a: Byte, b: Byte): (r: Byte)
  {
    XorBits(a, b, 8)
  }

  /** Exclusive or with the same b twice gives back every a of at most n bits. */
  lemma {:induction false} XorBitsTwice(a: nat, b: nat, n: nat)
    requires a < Pow2(n)
    ensures XorBits(XorBits(a, b, n), b, n) == a
  {
    if n > 0 {
      var x := XorBits(a, b, n);
      var low := XorBits(a / 2, b / 2, n - 1);
      assert x == 2 * low + (if a % 2 == b % 2 then 0 else 1);
      assert x / 2 == low;
      XorBitsTwice(a / 2, b / 2, n - 1);
      assert XorBits(x, b, n) == 2 * (a / 2) + a % 2;
    }
  }

  /** XOR with the same key byte twice gives the original byte back. */
  lemma XorInvolutive(a: Byte, k: Byte)
    ensures Xor(Xor(a, k), k) == a
  {
    XorBitsTwice(a, k, 8);
  }
}
