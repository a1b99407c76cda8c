/** Integer answers of simulator/snmp.py: `bit_length`, the octet count, and signed big-endian octets
    (section 8.3 of ITU-T X.690). */
module IntegerOctets {
  import opened Basics

  function Pow2(n: nat): (p: nat)
    ensures p >= 1
  {
    if n == 0 then 1 else 2 * Pow2(n - 1)
  }

  function Abs(n: int): nat {
    if n < 0 then -n else n
  }

  /** `n.bit_length()` of a magnitude. */
  function BitLength(n: nat): nat {
    if n == 0 then 0 else 1 + BitLength(n / 2)
  }

  /** `max((val.bit_length() + 8) // 8, 1)`. */
  function OctetCount(n: int): nat {
    var length := (BitLength(Abs(n)) + 8) / 8;
    if length > 1 then length else 1
  }

  /** n lies in the range of `len` signed octets. */
  predicate Fits(n: int, len: nat)
    requires len >= 1
  {
    -(Pow2(8 * len - 1) as int) <= n < Pow2(8 * len - 1)
  }

  function ToBytes(u: nat, len: nat): (b: bytes)
    ensures |b| == len
  {
    if len == 0 then [] else ToBytes(u / 256, len - 1) + [u % 256]
  }

  /** `n.to_bytes(len, 'big', signed=True)` for an n that fits: two's complement. */
  function ToSigned(n: int, len: nat): (b: bytes)
    requires len >= 1 && Fits(n, len)
    ensures |b| == len
  {
    ToBytes(if n < 0 then n + Pow2(8 * len) else n, len)
  }

  /** The signed big-endian value of octets. */
  function FromSigned(b: bytes): int {
    if b != [] && b[0] >= 128 then FromBytes(b) - Pow2(8 * |b|) else FromBytes(b)
  }

  lemma {:induction false} Pow2Monotone(a: nat, b: nat)
    requires a <= b
    ensures Pow2(a) <= Pow2(b)
    ensures a < b ==> Pow2(a) < Pow2(b)
    decreases b
  {
    if a < b { Pow2Monotone(a, b - 1); }
  }

  lemma {:induction false} Pow2Octet(n: nat)
    ensures Pow2(n + 8) == 256 * Pow2(n)
  {
    assert Pow2(n + 8) == 2 * Pow2(n + 7) == 4 * Pow2(n + 6) == 8 * Pow2(n + 5) == 16 * Pow2(n + 4);
    assert Pow2(n + 4) == 2 * Pow2(n + 3) == 4 * Pow2(n + 2) == 8 * Pow2(n + 1) == 16 * Pow2(n);
  }

  lemma {:induction false} BitLengthBounds(n: nat)
    ensures n < Pow2(BitLength(n))
    ensures n > 0 ==> BitLength(n) >= 1 && Pow2(BitLength(n) - 1) <= n
  {
    if n > 0 { BitLengthBounds(n / 2); }
  }

  lemma {:induction false} ToBytesValue(u: nat, len: nat)
    requires u < Pow2(8 * len)
    ensures FromBytes(ToBytes(u, len)) == u
  {
    if len > 0 {
      Pow2Octet(8 * len - 8);
      ToBytesValue(u / 256, len - 1);
      var b := ToBytes(u, len);
      assert b[..|b| - 1] == ToBytes(u / 256, len - 1);
    }
  }

  /** The sign bit of the first octet tells the upper half of the range. */
  lemma {:induction false} FirstOctet(b: bytes)
    requires b != []
    ensures FromBytes(b) < Pow2(8 * |b|)
    ensures b[0] >= 128 <==> FromBytes(b) >= Pow2(8 * |b| - 1)
  {
    var front, last := b[..|b| - 1], b[|b| - 1];
    if |b| == 1 {
      assert front == [];
      assert Pow2(7) == 128 by { Pow2Octet(0); assert Pow2(8) == 2 * Pow2(7); }
      assert Pow2(8) == 2 * Pow2(7);
    } else {
      FirstOctet(front);
      Pow2Octet(8 * |front|);
      Pow2Octet(8 * |front| - 1);
    }
  }

  lemma OctetCountFits(n: int)
    ensures Fits(n, OctetCount(n))
  {
    var bits, len := BitLength(Abs(n)), OctetCount(n);
    BitLengthBounds(Abs(n));
    hide BitLength, Pow2;
    assert bits <= 8 * len - 1;
    Pow2Monotone(bits, 8 * len - 1);
  }

  /** The octet count always holds the integer, and the octets read back as it: every integer, either sign. */
  lemma SignedRoundTrip(n: int)
    ensures Fits(n, OctetCount(n))
    ensures FromSigned(ToSigned(n, OctetCount(n))) == n
  {
    var len := OctetCount(n);
    OctetCountFits(n);
    assert Pow2(8 * len) == 2 * Pow2(8 * len - 1);
    hide OctetCount, Pow2, ToBytes, FromBytes;
    var u := if n < 0 then n + Pow2(8 * len) else n;
    ToBytesValue(u, len);
    FirstOctet(ToBytes(u, len));
  }

  /** n is one of -2^7, -2^15, -2^23, ... */
  ghost predicate IsLowestOfSomeWidth(n: int) {
    exists k: nat {:trigger Pow2(8 * k + 7)} :: n == -(Pow2(8 * k + 7) as int)
  }

  ghost predicate IsMinimalCount(n: int, len: nat)
    requires len >= 1 && Fits(n, len)
  {
    forall shorter: nat | 1 <= shorter < len :: !Fits(n, shorter)
  }

  /** Section 8.3.2 asks for the fewest octets. The count is minimal exactly for the integers that are not the
      lowest of a whole number of octets; in particular for every non-negative one. */
  lemma CountIsMinimal(n: int)
    ensures Fits(n, OctetCount(n))
    ensures IsMinimalCount(n, OctetCount(n)) <==> !IsLowestOfSomeWidth(n)
  {
    OctetCountFits(n);
    if IsLowestOfSomeWidth(n) {
      var k: nat :| n == -(Pow2(8 * k + 7) as int);
      LowestGetsOneTooMany(k);
      hide Fits, OctetCount, Pow2;
      assert !Fits(n, k + 1) || !IsMinimalCount(n, OctetCount(n));
    } else {
      forall shorter: nat | 1 <= shorter < OctetCount(n) ensures !Fits(n, shorter) {
        ShorterDoesNotFit(n, shorter);
      }
    }
  }

  lemma {:induction false} LowestGetsOneTooMany(k: nat)
    ensures var n := -(Pow2(8 * k + 7) as int);
            Fits(n, k + 1) && OctetCount(n) == k + 2
  {
    BitLengthOfPow2(8 * k + 7);
    hide BitLength, Pow2;
    assert 8 * (k + 1) - 1 == 8 * k + 7;
    assert (8 * k + 8 + 8) / 8 == k + 2;
  }

  lemma ShorterDoesNotFit(n: int, shorter: nat)
    requires 1 <= shorter < OctetCount(n) && !IsLowestOfSomeWidth(n)
    ensures !Fits(n, shorter)
  {
    var bits, top := BitLength(Abs(n)), 8 * shorter - 1;
    BitLengthBounds(Abs(n));
    assert n != 0;
    hide BitLength, Pow2;
    assert top <= bits - 1;
    Pow2Monotone(top, bits - 1);
    assert 8 * (shorter - 1) + 7 == top;
    assert n != -(Pow2(8 * (shorter - 1) + 7) as int);
  }

  lemma {:induction false} BitLengthOfPow2(n: nat)
    ensures BitLength(Pow2(n)) == n + 1
  {
    if n > 0 { BitLengthOfPow2(n - 1); }
  }

  /** The octets -128 would need are one fewer than it gets. */
  lemma NotMinimalExample()
    ensures OctetCount(-128) == 2 && Fits(-128, 1)
  {
    Pow2Octet(0);
    assert Pow2(8) == 2 * Pow2(7);
    assert BitLength(128) == 1 + BitLength(64) && BitLength(64) == 3 + BitLength(8) && BitLength(8) == 4;
  }
}
