/**
 * 256-bit node identifiers and the XOR log2 distance between them.
 *
 * An identifier is 32 raw bytes read big-endian as one unsigned 256-bit
 * integer. The log2 distance of two identifiers is `256 - leading_zeros(a XOR b)`,
 * absent when that is 0 (the identifiers are equal). Equivalently it is the
 * 1-based position of the highest bit in which they differ.
 */
module NodeIds {
  import opened Wrappers

  /** An unsigned 8-bit value. */
  type byte = x: nat | x < 256

  /** Bytes in a raw identifier (and in a key hash). */
  const RAW_LENGTH: nat := 32

  /** Bits in a raw identifier; the largest log2 distance. */
  const ID_BITS: nat := 256

  /** The 32 raw bytes of an identifier, most significant byte first. */
  type Raw = s: seq<byte> | |s| == RAW_LENGTH witness seq(RAW_LENGTH, _ => 0)

  datatype NodeId = NodeId(raw: Raw)

  /* ----- unsigned integer reading of byte strings ----- */

  function Pow2(n: nat): (p: nat)
    ensures p >= 1
  {
    if n == 0 then 1 else 2 * Pow2(n - 1)
  }

  lemma {:induction false} Pow2Add(a: nat, b: nat)
    ensures Pow2(a + b) == Pow2(a) * Pow2(b)
  {
    if a > 0 {
      Pow2Add(a - 1, b);
      assert Pow2(a + b) == 2 * Pow2(a - 1 + b);
    }
  }

  /** A byte holds values below 2^8. */
  lemma Pow2Eight()
    ensures Pow2(8) == 256
  {
  }

  lemma {:induction false} Pow2Monotone(a: nat, b: nat)
    requires a <= b
    ensures Pow2(a) <= Pow2(b)
  {
    if a < b {
      Pow2Monotone(a, b - 1);
    }
  }

  /** The number of significant bits of `n`: its highest set bit, counted from 1. */
  function BitLength(n: nat): (k: nat)
    ensures n == 0 <==> k == 0
    ensures n > 0 ==> Pow2(k - 1) <= n < Pow2(k)
  {
    if n == 0 then 0 else 1 + BitLength(n / 2)
  }

  lemma BitLengthAtMost(n: nat, k: nat)
    requires n < Pow2(k)
    ensures BitLength(n) <= k
  {
    if n > 0 && BitLength(n) > k {
      Pow2Monotone(k, BitLength(n) - 1);
    }
  }

  /** The unsigned integer a byte string denotes, most significant byte first. */
  function ToNat(s: seq<byte>): nat
  {
    if |s| == 0 then 0 else s[0] * Pow2(8 * (|s| - 1)) + ToNat(s[1..])
  }

  /** A non-empty string is its first byte, scaled past the rest, plus the rest. */
  lemma ToNatHead(s: seq<byte>)
    requires |s| > 0
    ensures ToNat(s) == s[0] * Pow2(8 * |s[1..]|) + ToNat(s[1..])
  {
  }

  lemma {:induction false} ToNatBound(s: seq<byte>)
    ensures ToNat(s) < Pow2(8 * |s|)
  {
    if |s| > 0 {
      ToNatHead(s);
      ToNatBound(s[1..]);
      ByteScaledBound(s[0], 8 * |s[1..]|, ToNat(s[1..]), 8 * |s|);
    }
  }

  /** A byte scaled past e bits, plus something below 2^e, is below 2^(e + 8). */
  lemma ByteScaledBound(b: byte, e: nat, r: nat, n: nat)
    requires r < Pow2(e) && n == e + 8
    ensures b * Pow2(e) + r < Pow2(n)
  {
    Pow2Eight();
    ScaledBounds(0, b, Pow2(8), Pow2(e), r);
    Pow2Add(8, e);
  }

  lemma MulMonotone(a: nat, b: nat, c: nat)
    requires a <= b
    ensures a * c <= b * c
  {
  }

  lemma {:induction false} ToNatZero(s: seq<byte>)
    requires forall i :: 0 <= i < |s| ==> s[i] == 0
    ensures ToNat(s) == 0
  {
    if |s| > 0 {
      ToNatZero(s[1..]);
    }
  }

  /* ----- the XOR metric ----- */

  /** Bitwise exclusive or of two naturals, one bit at a time from the least significant. */
  function BitXor(a: nat, b: nat): (r: nat)
    decreases a + b
    ensures r == 0 <==> a == b
  {
    if a == 0 && b == 0 then 0
    else 2 * BitXor(a / 2, b / 2) + (if a % 2 == b % 2 then 0 else 1)
  }

  lemma {:induction false} BitXorBound(a: nat, b: nat, k: nat)
    requires a < Pow2(k) && b < Pow2(k)
    ensures BitXor(a, b) < Pow2(k)
    decreases k
  {
    if k > 0 && !(a == 0 && b == 0) {
      BitXorBound(a / 2, b / 2, k - 1);
    }
  }

  lemma {:induction false} BitXorSymmetric(a: nat, b: nat)
    ensures BitXor(a, b) == BitXor(b, a)
    decreases a + b
  {
    if !(a == 0 && b == 0) {
      BitXorSymmetric(a / 2, b / 2);
    }
  }

  /** Zero is the identity of exclusive or. */
  lemma {:induction false} BitXorZero(a: nat)
    ensures BitXor(a, 0) == a
  {
    if a > 0 {
      BitXorZero(a / 2);
    }
  }

  /** The exclusive or of two bytes is a byte. */
  function XorByte(a: byte, b: byte): (r: byte)
    ensures r == 0 <==> a == b
  {
    Pow2Eight();
    BitXorBound(a, b, 8);
    BitXor(a, b)
  }

  /** Byte-wise exclusive or of two raw identifiers. */
  function Xor(a: Raw, b: Raw): (x: Raw)
    ensures forall i :: 0 <= i < RAW_LENGTH ==> (x[i] == 0 <==> a[i] == b[i])
  {
    seq(RAW_LENGTH, i requires 0 <= i < RAW_LENGTH => XorByte(a[i], b[i]))
  }

  /** The number of leading zero bits of a big-endian byte string. */
  function LeadingZeros(s: seq<byte>): (z: nat)
    ensures z <= 8 * |s|
    ensures z == 8 * |s| <==> forall i :: 0 <= i < |s| ==> s[i] == 0
  {
    if |s| == 0 then 0
    else if s[0] == 0 then 8 + LeadingZeros(s[1..])
    else
      Pow2Eight();
      BitLengthAtMost(s[0], 8);
      8 - BitLength(s[0])
  }

  /** A string whose first nonzero byte is at index `k` has 8k zeros plus those of that byte. */
  lemma {:induction false} LeadingZerosAt(s: seq<byte>, k: nat)
    requires k < |s| && s[k] != 0
    requires forall i :: 0 <= i < k ==> s[i] == 0
    ensures LeadingZeros(s) == 8 * k + 8 - BitLength(s[k])
  {
    if k > 0 {
      LeadingZerosAt(s[1..], k - 1);
    }
  }

  /**
   * The log2 distance: `256 - leading_zeros(a XOR b)`, absent when it is 0.
   * It is absent exactly for equal identifiers and otherwise lies in [1, 256].
   */
  function Log2Distance(a: Raw, b: Raw): (r: Option<nat>)
    ensures r.None? <==> a == b
    ensures r.Some? ==> 1 <= r.value <= ID_BITS
  {
    var x := Xor(a, b);
    var logDistance := ID_BITS - LeadingZeros(x);
    assert logDistance == 0 <==> a == b by {
      if logDistance == 0 {
        assert forall i :: 0 <= i < RAW_LENGTH ==> a[i] == b[i];
      }
    }
    if logDistance == 0 then None else Some(logDistance)
  }

  /**
   * The leading-zero count locates the highest set bit: a string with `z`
   * leading zeros out of `n` bits denotes a number in [2^(n-z-1), 2^(n-z)).
   */
  lemma {:induction false} LeadingZerosLocateTopBit(s: seq<byte>)
    requires LeadingZeros(s) < 8 * |s|
    ensures Pow2(8 * |s| - LeadingZeros(s) - 1) <= ToNat(s) < Pow2(8 * |s| - LeadingZeros(s))
  {
    var rest := s[1..];
    if s[0] == 0 {
      LeadingZerosLocateTopBit(rest);
      assert ToNat(s) == ToNat(rest);
    } else {
      TopByteLocatesTopBit(s, 8 * |s| - LeadingZeros(s));
    }
  }

  lemma {:induction false} TopByteLocatesTopBit(s: seq<byte>, n: nat)
    requires |s| > 0 && s[0] != 0 && n == 8 * |s| - LeadingZeros(s)
    ensures 1 <= n && Pow2(n - 1) <= ToNat(s) < Pow2(n)
  {
    var rest := s[1..];
    var k := TopByteLeadingZeros(s);
    var e := 8 * |rest|;
    var r := ToNat(rest);
    assert n == k + e;
    assert ToNat(s) == s[0] * Pow2(e) + r by { ToNatHead(s); }
    assert r < Pow2(e) by { ToNatBound(rest); }
    TopBitBounds(s[0], k, e, r, n);
  }

  /** A string with a nonzero first byte has only that byte's leading zeros. */
  lemma TopByteLeadingZeros(s: seq<byte>) returns (k: nat)
    requires |s| > 0 && s[0] != 0
    ensures k == BitLength(s[0]) && 1 <= k <= 8
    ensures LeadingZeros(s) == 8 - k
  {
    k := BitLength(s[0]);
    Pow2Eight();
    BitLengthAtMost(s[0], 8);
  }

  /** A top digit with k significant bits above e lower bits gives a number with k + e bits. */
  lemma TopBitBounds(b: nat, k: nat, e: nat, r: nat, n: nat)
    requires 1 <= k && Pow2(k - 1) <= b < Pow2(k) && r < Pow2(e) && n == k + e
    ensures Pow2(n - 1) <= b * Pow2(e) + r < Pow2(n)
  {
    ScaledBounds(Pow2(k - 1), b, Pow2(k), Pow2(e), r);
    Pow2Add(k - 1, e);
    Pow2Add(k, e);
  }

  /** If lo <= b < hi and r < p, then lo * p <= b * p + r < hi * p. */
  lemma ScaledBounds(lo: nat, b: nat, hi: nat, p: nat, r: nat)
    requires lo <= b < hi && r < p
    ensures lo * p <= b * p + r < hi * p
  {
    MulMonotone(lo, b, p);
    MulMonotone(b + 1, hi, p);
  }

  /** A number between 2^(k-1) and 2^k has exactly k significant bits. */
  lemma BitLengthBetween(n: nat, k: nat)
    requires 1 <= k && Pow2(k - 1) <= n < Pow2(k)
    ensures BitLength(n) == k
  {
    var m := BitLength(n);
    if m < k {
      Pow2Monotone(m, k - 1);
    } else if m > k {
      Pow2Monotone(k, m - 1);
    }
  }

  /**
   * The log2 distance is the bit length of the XOR read as a 256-bit
   * unsigned integer, floor(log2(a XOR b)) + 1, and absent exactly when that XOR is 0.
   */
  lemma Log2DistanceIsTopBit(a: Raw, b: Raw)
    ensures var x := ToNat(Xor(a, b));
      Log2Distance(a, b) == if x == 0 then None else Some(BitLength(x))
  {
    var x := Xor(a, b);
    if LeadingZeros(x) == 8 * |x| {
      ToNatZero(x);
    } else {
      LeadingZerosLocateTopBit(x);
      BitLengthBetween(ToNat(x), 8 * |x| - LeadingZeros(x));
    }
  }

  /** The metric is symmetric. */
  lemma Log2DistanceSymmetric(a: Raw, b: Raw)
    ensures Log2Distance(a, b) == Log2Distance(b, a)
  {
    forall i | 0 <= i < RAW_LENGTH
      ensures Xor(a, b)[i] == Xor(b, a)[i]
    {
      BitXorSymmetric(a[i], b[i]);
    }
    assert Xor(a, b) == Xor(b, a);
  }
}
