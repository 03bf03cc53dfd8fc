/** Bytes, powers of 256 and the two byte orders of an unsigned integer,
    plus the two's-complement reinterpretation used for signed fields. */
module Bytes {

  /** An `unsigned char` of the caller's buffer. */
  newtype byte = x: int | 0 <= x < 0x100

  /** 256^n, the modulus of an n-byte unsigned integer. */
  function Pow256(n: nat): (r: nat)
    ensures r >= 1
    ensures n >= 1 ==> r >= 256 && r % 2 == 0
  {
    if n == 0 then 1 else 256 * Pow256(n - 1)
  }

  /** The largest signed value of an n-byte field (0x7f, 0x7fff, 0x7fffffff, ...). */
  function SignedMax(n: nat): (r: int)
    requires n >= 1
    ensures 2 * (r + 1) == Pow256(n)
  {
    Pow256(n) / 2 - 1
  }

  /** The n low-order bytes of v, least significant first:
      the shifts by 0, 8, 16, ... bits, each stored at the cursor. */
  function LeBytes(v: nat, n: nat): (r: seq<byte>)
    ensures |r| == n
  {
    if n == 0 then [] else [(v % 256) as byte] + LeBytes(v / 256, n - 1)
  }

  /** The n low-order bytes of v, most significant first:
      the same shifts in the opposite order. */
  function BeBytes(v: nat, n: nat): (r: seq<byte>)
    ensures |r| == n
  {
    if n == 0 then [] else BeBytes(v / 256, n - 1) + [(v % 256) as byte]
  }

  /** The unsigned integer whose least significant byte comes first. */
  function LeValue(s: seq<byte>): (r: nat)
    ensures r < Pow256(|s|)
  {
    if s == [] then 0 else s[0] as nat + 256 * LeValue(s[1..])
  }

  /** The unsigned integer whose most significant byte comes first. */
  function BeValue(s: seq<byte>): (r: nat)
    ensures r < Pow256(|s|)
  {
    if s == [] then 0 else 256 * BeValue(s[..|s| - 1]) + s[|s| - 1] as nat
  }

  /** The same sequence read backwards. */
  function Reverse(s: seq<byte>): (r: seq<byte>)
    ensures |r| == |s|
  {
    if s == [] then [] else Reverse(s[1..]) + [s[0]]
  }

  /** C's conversion of any integer to an n-byte unsigned type:
      the value modulo 256^n. */
  function Wrap(v: int, n: nat): (r: nat)
    ensures r < Pow256(n)
  {
    v % Pow256(n)
  }

  /** Euclidean remainder pinned down by a known quotient k. */
  lemma {:induction false} ModByQuotient(v: int, m: int, k: int)
    requires m > 0 && 0 <= v - k * m < m
    ensures v % m == v - k * m
  {
    var q, r := v / m, v % m;
    assert v == q * m + r;
    var d := q - k;
    assert d * m == (v - k * m) - r;
    OnlyZeroFits(d, m);
  }

  /** The only multiple of m strictly between -m and m is 0. */
  lemma {:induction false} OnlyZeroFits(d: int, m: int)
    requires m > 0 && -m < d * m < m
    ensures d == 0
  {
    if d > 0 {
      assert d * m == (d - 1) * m + m;
      NonNegProduct(d - 1, m);
    } else if d < 0 {
      assert d * m == -((-d - 1) * m) - m;
      NonNegProduct(-d - 1, m);
    }
  }

  lemma {:induction false} NonNegProduct(a: int, b: int)
    requires a >= 0 && b >= 0
    ensures a * b >= 0
  {
  }

  /** Wrapping leaves a value that already fits unchanged. */
  lemma {:induction false} WrapFits(v: int, n: nat)
    requires 0 <= v < Pow256(n)
    ensures Wrap(v, n) == v
  {
    ModByQuotient(v, Pow256(n), 0);
  }

  /** Two's-complement reinterpretation of an n-byte unsigned value:
      raw itself up to the signed maximum, raw - 256^n above it. */
  function ToSigned(raw: nat, n: nat): (r: int)
    requires n >= 1
  {
    if raw <= SignedMax(n) then raw else raw - Pow256(n)
  }

  /** Whether v is a value of the n-byte signed type. */
  predicate InSignedRange(v: int, n: nat)
    requires n >= 1
  {
    -SignedMax(n) - 1 <= v <= SignedMax(n)
  }

  /** Encoding least significant byte first, then decoding, gives back
      every value that fits in n bytes. */
  lemma {:induction false} LeRoundTrip(v: nat, n: nat)
    requires v < Pow256(n)
    ensures LeValue(LeBytes(v, n)) == v
  {
    if n > 0 {
      LeRoundTrip(v / 256, n - 1);
      assert LeBytes(v, n)[1..] == LeBytes(v / 256, n - 1);
    }
  }

  /** Encoding most significant byte first, then decoding, gives back
      every value that fits in n bytes. */
  lemma {:induction false} BeRoundTrip(v: nat, n: nat)
    requires v < Pow256(n)
    ensures BeValue(BeBytes(v, n)) == v
  {
    if n > 0 {
      BeRoundTrip(v / 256, n - 1);
      assert BeBytes(v, n)[..n - 1] == BeBytes(v / 256, n - 1);
    }
  }

  /** A number with one more low-order byte: dividing by 256 drops the byte
      and the remainder is the byte. */
  lemma {:induction false} SplitByte(high: nat, low: nat)
    requires low < 256
    ensures (256 * high + low) % 256 == low && (256 * high + low) / 256 == high
  {
    ModByQuotient(256 * high + low, 256, high);
  }

  /** Decoding least significant byte first, then encoding, gives back
      every byte sequence: no two byte sequences decode to the same value. */
  lemma {:induction false} LeBytesOfValue(s: seq<byte>)
    ensures LeBytes(LeValue(s), |s|) == s
  {
    if s != [] {
      LeBytesOfValue(s[1..]);
      SplitByte(LeValue(s[1..]), s[0] as nat);
    }
  }

  /** Decoding most significant byte first, then encoding, gives back
      every byte sequence. */
  lemma {:induction false} BeBytesOfValue(s: seq<byte>)
    ensures BeBytes(BeValue(s), |s|) == s
  {
    if s != [] {
      var init := s[..|s| - 1];
      BeBytesOfValue(init);
      SplitByte(BeValue(init), s[|s| - 1] as nat);
      assert s == init + [s[|s| - 1]];
    }
  }

  /** Most-significant-first is exactly least-significant-first reversed. */
  lemma {:induction false} BeIsReversedLe(v: nat, n: nat)
    ensures BeBytes(v, n) == Reverse(LeBytes(v, n))
  {
    if n > 0 {
      BeIsReversedLe(v / 256, n - 1);
      var le := LeBytes(v, n);
      assert le[1..] == LeBytes(v / 256, n - 1);
    }
  }

  /** Reading a sequence backwards twice gives it back. */
  lemma {:induction false} ReverseTwice(s: seq<byte>)
    ensures Reverse(Reverse(s)) == s
  {
    if s != [] {
      ReverseTwice(s[1..]);
      ReverseAppend(Reverse(s[1..]), [s[0]]);
      assert Reverse([s[0]]) == [s[0]];
    }
  }

  /** Reversal turns a concatenation around. */
  lemma {:induction false} ReverseAppend(a: seq<byte>, b: seq<byte>)
    ensures Reverse(a + b) == Reverse(b) + Reverse(a)
  {
    if a == [] {
      assert a + b == b;
    } else {
      ReverseAppend(a[1..], b);
      assert (a + b)[1..] == a[1..] + b;
    }
  }

  /** Sign recovery is exact: wrapping a signed value to n bytes and
      reinterpreting the result gives the value back. */
  lemma {:induction false} SignedRoundTrip(v: int, n: nat)
    requires n >= 1 && InSignedRange(v, n)
    ensures ToSigned(Wrap(v, n), n) == v
  {
    if v < 0 {
      ModByQuotient(v, Pow256(n), -1);
    } else {
      ModByQuotient(v, Pow256(n), 0);
    }
  }

  /** The reinterpreted value always lies in the signed range, and wrapping it
      back gives the raw bytes' value: the two conversions are inverse. */
  lemma {:induction false} SignedOfRaw(raw: nat, n: nat)
    requires n >= 1 && raw < Pow256(n)
    ensures InSignedRange(ToSigned(raw, n), n)
    ensures Wrap(ToSigned(raw, n), n) == raw
  {
    if raw > SignedMax(n) {
      ModByQuotient(raw - Pow256(n), Pow256(n), -1);
    } else {
      ModByQuotient(raw, Pow256(n), 0);
    }
  }
}
