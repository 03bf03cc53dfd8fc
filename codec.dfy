/** The fixed-width integer codec of src/struct.c: `pack_int16_t`,
    `pack_int32_t`, `pack_int64_t` and the matching `unpack_int*` /
    `unpack_uint*`.  The three widths share one method per direction,
    parameterised by the width in bytes; each writes or reads one byte at a
    time through the cursor `bp` of a caller buffer. */
module IntCodec {
  import opened Bytes

  /** A byte order: the one a format string asks for, or the host's own. */
  datatype Order = Little | Big

  /** The bytes `pack_intN` stores for an unsigned value: least significant
      first when the requested order equals the host order, most significant
      first otherwise. */
  function IntBytes(val: nat, w: nat, order: Order, host: Order): (r: seq<byte>)
    ensures |r| == w
  {
    if order == host then LeBytes(val, w) else BeBytes(val, w)
  }

  /** The unsigned value `unpack_uintN` assembles from w bytes, under the same
      host-order test as the packer. */
  function UIntOf(s: seq<byte>, order: Order, host: Order): (r: nat)
    ensures r < Pow256(|s|)
  {
    if order == host then LeValue(s) else BeValue(s)
  }

  /** Packing then unpacking in the same order gives back every unsigned
      value of the width, 0 and the maximum included. */
  lemma {:induction false} UnsignedRoundTrip(val: nat, w: nat, order: Order, host: Order)
    requires val < Pow256(w)
    ensures UIntOf(IntBytes(val, w, order, host), order, host) == val
  {
    if order == host { LeRoundTrip(val, w); } else { BeRoundTrip(val, w); }
  }

  /** Unpacking then packing in the same order gives back every byte pattern,
      so the codec is a bijection between w-byte patterns and values below 256^w. */
  lemma {:induction false} BytesRoundTrip(s: seq<byte>, order: Order, host: Order)
    ensures IntBytes(UIntOf(s, order, host), |s|, order, host) == s
  {
    if order == host { LeBytesOfValue(s); } else { BeBytesOfValue(s); }
  }

  /** Signed fields: wrapping to w bytes, packing, unpacking and recovering
      the sign gives back every value of the signed type. */
  lemma {:induction false} SignedFieldRoundTrip(v: int, w: nat, order: Order, host: Order)
    requires w >= 1 && InSignedRange(v, w)
    ensures ToSigned(UIntOf(IntBytes(Wrap(v, w), w, order, host), order, host), w) == v
  {
    UnsignedRoundTrip(Wrap(v, w), w, order, host);
    SignedRoundTrip(v, w);
  }

  /** The two orders give mirror images of each other. */
  lemma {:induction false} OrdersMirror(val: nat, w: nat, host: Order)
    ensures IntBytes(val, w, Big, host) == Reverse(IntBytes(val, w, Little, host))
  {
    BeIsReversedLe(val, w);
    ReverseTwice(LeBytes(val, w));
  }

  /** The same-order half of `pack_intN`: val, val >> 8, val >> 16, ...
      at bp, bp + 1, bp + 2, ... */
  method PackLe(buf: array<byte>, bp: nat, val: nat, w: nat)
    requires bp + w <= buf.Length
    modifies buf
    ensures buf[..] == old(buf[..bp]) + LeBytes(val, w) + old(buf[bp + w..])
  {
    var rest := val;
    var k := 0;
    while k < w
      invariant 0 <= k <= w
      invariant LeBytes(val, w) == buf[bp..bp + k] + LeBytes(rest, w - k)
      invariant buf[..bp] == old(buf[..bp]) && buf[bp + w..] == old(buf[bp + w..])
    {
      buf[bp + k] := (rest % 256) as byte;
      rest := rest / 256;
      k := k + 1;
    }
    assert buf[..] == buf[..bp] + buf[bp..bp + w] + buf[bp + w..];
  }

  /** The opposite-order half of `pack_intN`: the same bytes, most
      significant at bp, so byte k of the value sits at bp + w - 1 - k. */
  method PackBe(buf: array<byte>, bp: nat, val: nat, w: nat)
    requires bp + w <= buf.Length
    modifies buf
    ensures buf[..] == old(buf[..bp]) + BeBytes(val, w) + old(buf[bp + w..])
  {
    var rest := val;
    var k := 0;
    while k < w
      invariant 0 <= k <= w
      invariant BeBytes(val, w) == BeBytes(rest, w - k) + buf[bp + w - k..bp + w]
      invariant buf[..bp] == old(buf[..bp]) && buf[bp + w..] == old(buf[bp + w..])
    {
      buf[bp + w - 1 - k] := (rest % 256) as byte;
      rest := rest / 256;
      k := k + 1;
    }
    assert buf[..] == buf[..bp] + buf[bp..bp + w] + buf[bp + w..];
  }

  /** `pack_intN(&bp, val, endian)`: stores the w bytes of `val` at `bp` and
      returns the advanced cursor.  Nothing else in the buffer changes. */
  method PackInt(buf: array<byte>, bp: nat, val: nat, w: nat, order: Order, host: Order)
    returns (next: nat)
    requires val < Pow256(w)
    requires bp + w <= buf.Length
    modifies buf
    ensures next == bp + w
    ensures buf[..] == old(buf[..bp]) + IntBytes(val, w, order, host) + old(buf[bp + w..])
  {
    if order == host {
      PackLe(buf, bp, val, w);
    } else {
      PackBe(buf, bp, val, w);
    }
    next := bp + w;
  }

  /** The same-order half of `unpack_uintN`: the byte at bp + k weighs 256^k. */
  method UnpackLe(buf: array<byte>, bp: nat, w: nat) returns (val: nat)
    requires bp + w <= buf.Length
    ensures val == LeValue(buf[bp..bp + w])
  {
    val := 0;
    var k := w;
    // fold from the most significant end
    while k > 0
      invariant 0 <= k <= w
      invariant val == LeValue(buf[bp + k..bp + w])
    {
      k := k - 1;
      assert buf[bp + k..bp + w][1..] == buf[bp + k + 1..bp + w];
      val := buf[bp + k] as nat + 256 * val;
    }
  }

  /** The opposite-order half of `unpack_uintN`: the byte at bp comes first
      and weighs most. */
  method UnpackBe(buf: array<byte>, bp: nat, w: nat) returns (val: nat)
    requires bp + w <= buf.Length
    ensures val == BeValue(buf[bp..bp + w])
  {
    val := 0;
    var k := 0;
    while k < w
      invariant 0 <= k <= w
      invariant val == BeValue(buf[bp..bp + k])
    {
      assert buf[bp..bp + k + 1][..k] == buf[bp..bp + k];
      val := 256 * val + buf[bp + k] as nat;
      k := k + 1;
    }
  }

  /** `unpack_uintN(&bp, &dst, endian)`: reads w bytes at `bp` into an
      unsigned value and returns it with the advanced cursor. */
  method UnpackUInt(buf: array<byte>, bp: nat, w: nat, order: Order, host: Order)
    returns (val: nat, next: nat)
    requires bp + w <= buf.Length
    ensures next == bp + w
    ensures val == UIntOf(buf[bp..bp + w], order, host)
    ensures val < Pow256(w)
  {
    if order == host {
      val := UnpackLe(buf, bp, w);
    } else {
      val := UnpackBe(buf, bp, w);
    }
    next := bp + w;
  }

  /** `unpack_intN(&bp, &dst, endian)`: reads an unsigned value and, when it
      exceeds the signed maximum, takes `-1 - (max_unsigned - val)`, which is
      the value minus 256^w. */
  method UnpackInt(buf: array<byte>, bp: nat, w: nat, order: Order, host: Order)
    returns (val: int, next: nat)
    requires w >= 1 && bp + w <= buf.Length
    ensures next == bp + w
    ensures val == ToSigned(UIntOf(buf[bp..bp + w], order, host), w)
    ensures InSignedRange(val, w)
  {
    var raw;
    raw, next := UnpackUInt(buf, bp, w, order, host);
    if raw <= SignedMax(w) {
      val := raw;
    } else {
      val := -1 - ((Pow256(w) - 1) - raw);
    }
  }
}
