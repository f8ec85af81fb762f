/** The nonce schedule of section 5.2 of RFC 9180: base nonce XOR sequence number. */
module NonceSchedule {
  import opened Io

  type Nonce = n: Bytes | |n| == 12 witness seq(12, _ => 0)

  // ---------- Exclusive or ----------

  /** XOR of the `width` low bits of two numbers. */
  function XorBits(a: nat, b: nat, width: nat): (x: nat) {
    if width == 0 then 0
    else (a % 2 + b % 2) % 2 + 2 * XorBits(a / 2, b / 2, width - 1)
  }

  function Pow2(width: nat): (p: nat)
    ensures p > 0
  {
    if width == 0 then 1 else 2 * Pow2(width - 1)
  }

  lemma {:induction false} XorBitsBound(a: nat, b: nat, width: nat)
    ensures XorBits(a, b, width) < Pow2(width)
  {
    if width > 0 {
      XorBitsBound(a / 2, b / 2, width - 1);
    }
  }

  lemma HalfOf(low: nat, high: nat)
    requires low < 2
    ensures (low + 2 * high) % 2 == low && (low + 2 * high) / 2 == high
  {}

  lemma BitXor(x: nat, y: nat)
    requires x < 2 && y < 2
    ensures ((x + y) % 2 + y) % 2 == x
  {}

  lemma XorBitsSplit(low: nat, high: nat, b: nat, width: nat)
    requires low < 2 && width > 0
    ensures XorBits(low + 2 * high, b, width) == (low + b % 2) % 2 + 2 * XorBits(high, b / 2, width - 1)
  {
    HalfOf(low, high);
  }

  lemma {:induction false} XorBitsInvolution(a: nat, b: nat, width: nat)
    requires a < Pow2(width)
    ensures XorBits(XorBits(a, b, width), b, width) == a
  {
    if width > 0 {
      var low, high := (a % 2 + b % 2) % 2, XorBits(a / 2, b / 2, width - 1);
      XorBitsInvolution(a / 2, b / 2, width - 1);
      XorBitsSplit(low, high, b, width);
      BitXor(a % 2, b % 2);
    }
  }

  function Xor(a: byte, b: byte): (x: byte) {
    XorBitsBound(a, b, 8);
    assert Pow2(8) == 256;
    XorBits(a, b, 8)
  }

  /** The bits of an exclusive or are set where those of the operands differ. */
  lemma {:induction false} XorBitsBit(a: nat, b: nat, width: nat, i: nat)
    requires i < width
    ensures XorBits(a, b, width) / Pow2(i) % 2 == 1 <==> a / Pow2(i) % 2 != b / Pow2(i) % 2
  {
    var low, high := (a % 2 + b % 2) % 2, XorBits(a / 2, b / 2, width - 1);
    HalfOf(low, high);
    if i > 0 {
      XorBitsBit(a / 2, b / 2, width - 1, i - 1);
      HalfTwice(a, Pow2(i - 1));
      HalfTwice(b, Pow2(i - 1));
      HalfTwice(low + 2 * high, Pow2(i - 1));
    }
  }

  lemma HalfTwice(n: nat, m: nat)
    requires m > 0
    ensures n / (2 * m) == n / 2 / m
  {
    var q, r := n / 2 / m, n / 2 % m;
    assert n / 2 == m * q + r;
    assert 2 * (m * q + r) == 2 * m * q + 2 * r;
    DivUnique(n, 2 * m, q, 2 * r + n % 2);
  }

  lemma XorBit(a: byte, b: byte, i: nat)
    requires i < 8
    ensures Xor(a, b) / Pow2(i) % 2 == 1 <==> a / Pow2(i) % 2 != b / Pow2(i) % 2
  {
    XorBitsBit(a, b, 8, i);
  }

  lemma XorInvolution(a: byte, b: byte)
    ensures Xor(Xor(a, b), b) == a
  {
    assert Pow2(8) == 256;
    XorBitsInvolution(a, b, 8);
  }

  lemma {:induction false} XorBitsSymmetric(a: nat, b: nat, width: nat)
    ensures XorBits(a, b, width) == XorBits(b, a, width)
  {
    if width > 0 {
      XorBitsSymmetric(a / 2, b / 2, width - 1);
    }
  }

  /** XOR with a fixed byte loses nothing: two sequence bytes stay apart. */
  lemma XorInjective(k: byte, a: byte, b: byte)
    requires Xor(k, a) == Xor(k, b)
    ensures a == b
  {
    XorBitsSymmetric(k, a, 8);
    XorBitsSymmetric(k, b, 8);
    XorInvolution(a, k);
    XorInvolution(b, k);
  }

  // ---------- Nonces ----------

  /** Most significant byte first: the reverse of the little-endian form. */
  function BE64(n: nat): (b: Bytes)
    ensures |b| == 8
  {
    var le := LE(n, 8);
    seq(8, i requires 0 <= i < 8 => le[7 - i])
  }

  lemma BE64Injective(m: nat, n: nat)
    requires m < U64_LIMIT && n < U64_LIMIT
    requires BE64(m) == BE64(n)
    ensures m == n
  {
    forall i | 0 <= i < 8
      ensures LE(m, 8)[i] == LE(n, 8)[i]
    {
      assert BE64(m)[7 - i] == BE64(n)[7 - i];
    }
    assert LE(m, 8) == LE(n, 8);
    U64RoundTrip(m);
    U64RoundTrip(n);
  }

  /** The nonce of sequence number `s`: its last eight bytes are XORed with `s`. */
  function NonceFor(base: Nonce, s: nat): (n: Nonce) {
    seq(12, i requires 0 <= i < 12 => if i < 4 then base[i] else Xor(base[i], BE64(s)[i - 4]))
  }

  /** Byte for byte: the first four are the base's, and the last has the lowest byte of `s` in it. */
  lemma NonceBytes(base: Nonce, s: nat)
    ensures NonceFor(base, s)[..4] == base[..4]
    ensures forall i :: 0 <= i < 8 ==> NonceFor(base, s)[11 - i] == Xor(base[11 - i], s / Pow256(i) % 256)
  {
    forall i | 0 <= i < 8
      ensures NonceFor(base, s)[11 - i] == Xor(base[11 - i], s / Pow256(i) % 256)
    {
      LEByte(s, 8, i);
    }
  }

  method ComputeNonce(base: Nonce, s: nat) returns (r: Nonce)
    requires s < U64_LIMIT
    ensures r == NonceFor(base, s)
    ensures r[..4] == base[..4]
    ensures forall i :: 0 <= i < 8 ==> r[11 - i] == Xor(base[11 - i], s / Pow256(i) % 256)
  {
    NonceBytes(base, s);
    var nonce := new byte[12](i requires 0 <= i < 12 => base[i]);
    var seqBe := BE64(s);
    for i := 0 to 8
      invariant forall k :: 0 <= k < 12 ==>
        nonce[k] == if 4 <= k < 4 + i then Xor(base[k], seqBe[k - 4]) else base[k]
    {
      var nonceIdx := i + nonce.Length - |seqBe|;
      nonce[nonceIdx] := Xor(nonce[nonceIdx], seqBe[i]);
    }
    r := nonce[..];
  }

  /** Distinct 64-bit sequence numbers give distinct nonces under one base nonce. */
  lemma NonceInjective(base: Nonce, m: nat, n: nat)
    requires m < U64_LIMIT && n < U64_LIMIT
    requires NonceFor(base, m) == NonceFor(base, n)
    ensures m == n
  {
    forall i | 0 <= i < 8
      ensures BE64(m)[i] == BE64(n)[i]
    {
      assert NonceFor(base, m)[i + 4] == NonceFor(base, n)[i + 4];
      XorInjective(base[i + 4], BE64(m)[i], BE64(n)[i]);
    }
    assert BE64(m) == BE64(n);
    BE64Injective(m, n);
  }
}
