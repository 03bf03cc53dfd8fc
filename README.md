# struct: a verified model of the C `struct` packing library

The library packs C values into a byte buffer and unpacks them again under
the direction of a Python-style format string.

- A byte-order marker picks the order for what follows: `=` host, `<` little, `>` and `!` big.
- Decimal digits give a repeat count.
- The type codes are `b B h H i I l L q Q f d s`.

`struct_calcsize` computes the byte size of a format. `struct_pack` and
`struct_pack_into` store arguments into a buffer, and `struct_unpack` and
`struct_unpack_from` read them back. A character the interpreter does not
recognize makes every entry point return -1.

The model has six modules:

- `Bytes` (bytes.dfy): little- and big-endian digit sequences of a natural
  number, wrap-around to a width, and the two's-complement reading of an
  unsigned word. It also proves their round trips.
- `IntCodec` (codec.dfy): `pack_int16_t` / `pack_int32_t` / `pack_int64_t`
  and the `unpack_int*` / `unpack_uint*` readers. Each is an imperative
  method that moves one byte at a time through a cursor into an `array<byte>`.
  Each is proved against the functions `IntBytes` and `UIntOf`.
- `Format` (format.dfy): the format language.
  - `CStr` is the part of a format the C loops see: everything before the first NUL.
  - `ScanFmt` is the state machine that `pack_va_list` and `unpack_va_list` share. It holds the directives resolved so far, the pending digits of `num_buf`, the active order and the refused flag.
  - `TallyFmt` / `CalcSizeOf` is the separate machine of `struct_calcsize`.
- `Layout` (layout.dfy): the bytes a list of directives stores (`PackAll`)
  and the values it reads back (`UnpackAll`), as functions. The variadic
  arguments and destinations are modelled as a sequence of tagged `Value`s.
- `Repetition` (repeat.dfy): a repeat count is shorthand. `4h` gives the same
  size, the same bytes and the same values as `hhhh`.
- `Struct` (struct.dfy): `pack_va_list`, `unpack_va_list`,
  `struct_calcsize` and the four exported wrappers, as methods. Each walks
  the format once, character by character, as the C loop does. Each loop
  invariant ties the state after `p` characters to `ScanFmt` (or `TallyFmt`)
  of the prefix `fmt[..p]`.

The host's byte order (`myendian`, detected once by `get_endian`) is a
parameter `host` of every operation that depends on it.

The library's header documents the byte-order markers (include/struct.h:11-22):
`=` native, `<` little-endian, `>` and `!` big-endian. The code keeps that
promise only on a little-endian host, and the model follows the code.
- `pack_int16_t` and its siblings (src/struct.c:130-177) test only whether the requested order equals the host order. When it does, they store the least significant byte first. When it does not, they store the most significant byte first. `IntCodec.IntBytes` states this test as written.
- On a little-endian host, this gives exactly the documented orders.
- On a big-endian host, the orders come out wrong:
  - `<` stores the most significant byte first;
  - `>` and `!` store the least significant byte first;
  - `=` also stores the least significant byte first, which is not the native layout.
- So on a big-endian host the memcpy comparison in test/struct_test.cpp:40-50 would fail.
- The round trips proved below hold on either host, because the unpackers make the same test.

## Model

| member | source | states |
|---|---|---|
| Bytes.LeRoundTrip | src/struct.c:208-217 | reading back the little-endian digits of any value below 256^n gives that value |
| Bytes.BeRoundTrip | src/struct.c:208-217 | reading back the big-endian digits of any value below 256^n gives that value |
| Bytes.LeBytesOfValue | src/struct.c:130-139 | storing the value of any byte string least-significant first gives the same bytes |
| Bytes.BeBytesOfValue | src/struct.c:130-139 | storing the value of any byte string most-significant first gives the same bytes |
| Bytes.BeIsReversedLe | src/struct.c:130-139 | the most-significant-first bytes are the least-significant-first bytes reversed |
| Bytes.SignedRoundTrip | src/struct.c:191-206 | wrapping a value of the signed n-byte type to n bytes, then applying the two's-complement reading, gives the value back |
| Bytes.SignedOfRaw | src/struct.c:191-206 | the two's-complement reading of any n-byte word lies in the signed range, and wrapping it gives the word back |
| IntCodec.PackLe | src/struct.c:130-139 | the host-order branch of `pack_intN`: the w bytes at the cursor become the value's bytes least significant first, and nothing else changes |
| IntCodec.PackBe | src/struct.c:130-139 | the other branch: the w bytes at the cursor become the value's bytes most significant first, and nothing else changes |
| IntCodec.PackInt | src/struct.c:130-177 | `pack_int16_t`/`pack_int32_t`/`pack_int64_t`: the cursor advances by w, the w bytes there become `IntBytes` of the value under the host-order test, and every other byte is unchanged |
| IntCodec.UnpackLe | src/struct.c:208-217 | the host-order branch of `unpack_uintN`: the w bytes at the cursor read least significant first |
| IntCodec.UnpackBe | src/struct.c:208-217 | the other branch: the w bytes read most significant first |
| IntCodec.UnpackUInt | src/struct.c:208-305 | `unpack_uint16_t`/`unpack_uint32_t`/`unpack_uint64_t`: the cursor advances by w, and the result is `UIntOf` of the w bytes, below 256^w |
| IntCodec.UnpackInt | src/struct.c:191-282 | `unpack_int16_t`/`unpack_int32_t`/`unpack_int64_t`: the cursor advances by w, and the result is the two's-complement reading of the unsigned word, which lies in the signed range |
| IntCodec.UnsignedRoundTrip | src/struct.c:130-217 | unpacking what was packed in the same order gives back every unsigned value of the width |
| IntCodec.BytesRoundTrip | src/struct.c:130-217 | packing what was unpacked gives back every byte pattern, so the codec is a bijection |
| IntCodec.SignedFieldRoundTrip | src/struct.c:191-206 | packing a signed value, unpacking it and recovering the sign gives it back |
| IntCodec.OrdersMirror | src/struct.c:130-177 | for a given value and host, the two orders store mirror images of each other |
| Format.CStr | src/struct.c:357 | the characters the loops see are never more than the string holds |
| Format.CStrIsPrefix | src/struct.c:357 | those characters are the string's prefix before its first NUL: none of them is NUL, and a NUL follows them when the string is longer |
| Format.CStrAt | src/struct.c:494 | the loop goes on at `p` (inside the string, and not at a NUL) exactly while `p` is inside `CStr(fmt)`, where the characters agree |
| Format.CStrOfPlain | src/struct.c:669 | a format with no NUL is seen whole |
| Format.Width | src/struct.c:678-720 | the `sizeof` of each type code is 1, 2, 4 or 8 |
| Format.SpanIsProduct | src/struct.c:678-720 | the bytes of `count` repetitions are `num * sizeof(...)` |
| Format.RepeatCount | src/struct.c:29-41 | with no digits pending, CHECK_REPETITION gives a count of 1 |
| Format.ScanFmt | src/struct.c:357-459 | every pending character is a digit, and every resolved directive carries a type code |
| Format.RepeatCountResolution | src/struct.c:29-41 | digits, then a marker, then a type code resolve to one directive. Its count is the decimal value of the digits (1 when there are none), and its order is the marker's. The marker does not clear the digits, and `num_buf` is empty afterwards |
| Format.RepeatCountInCurrentOrder | src/struct.c:29-41 | digits then a type code resolve to one directive in the order already active |
| Format.FailureIsFinal | src/struct.c:453-458 | after a refused character the rest of the format changes nothing, since the loop has returned |
| Format.TallyFailureIsFinal | src/struct.c:722-727 | the same for `struct_calcsize` |
| Format.ScanPrefix | src/struct.c:357-459 | the directives of a prefix are a prefix of the whole format's directives, and a refusal in a prefix is a refusal of the whole |
| Format.RefusedIff | src/struct.c:453-458 | the interpreter refuses a format if and only if some character is neither a digit, a marker nor a type code |
| Format.TallyAgreesWithScan | src/struct.c:655-731 | `struct_calcsize` and the interpreters agree: same refusal, same pending digits, and its running total is the byte size of the interpreters' directives |
| Format.CalcSizeRefusedIff | src/struct.c:722-727 | `struct_calcsize` returns -1 if and only if the format has an unrecognized character, and never less than -1 |
| Format.CalcSizeAddsDirective | src/struct.c:676-720 | a directive adds its count times its width to the size |
| Format.CalcSizeIgnoresMarker | src/struct.c:671-675 | a byte-order marker adds nothing to the size |
| Layout.Encode | src/struct.c:374-445 | one repetition of a numeric code stores exactly `Width(c)` bytes |
| Layout.ValueRoundTrip | src/struct.c:511-582 | decoding what was encoded in the same order gives back every value of the code's C type, signed codes included |
| Layout.ArgsFitPrefix | src/struct.c:374-452 | arguments that match a directive list also match every prefix of it |
| Layout.RepRoundTrip | src/struct.c:511-567 | reading n repetitions where they were stored gives back the n arguments |
| Layout.ItemRoundTrip | src/struct.c:511-589 | unpacking one directive where it was packed gives back its arguments; for `s`, a string of exactly `count` bytes comes back whole |
| Layout.RecordRoundTrip | src/struct.c:464-599 | unpacking a packed record gives back exactly the arguments it consumed |
| Repetition.RepeatSameSize | src/struct.c:29-41 | digits `d` then a code `c` scan like `RepeatCount(d)` copies of `c`, one directive of count n against n of count 1, and `struct_calcsize` gives both the same size |
| Repetition.CountReadsAsOnes | src/struct.c:511-567 | one directive of count n reads the same values from any bytes as n directives of count 1, and needs as many destinations |
| Repetition.RepeatSameValues | src/struct.c:511-567 | `4h`-style and `hhhh`-style formats unpack the same values from any bytes |
| Repetition.RepeatSameBytes | src/struct.c:374-431 | the two formats accept the same argument lists and pack them into the same bytes |
| Struct.StoreNumber | src/struct.c:374-445 | one repetition of a numeric case stores `Encode` of the argument at the cursor and nothing else |
| Struct.PackNumbers | src/struct.c:374-445 | the inner loop of a numeric case stores the `num` encodings one after another and advances the cursor by their span |
| Struct.CopyString | src/struct.c:446-452 | the `s` case copies exactly the first `num` bytes of the string |
| Struct.PackDirective | src/struct.c:374-452 | one case of the switch stores `PackItem` of the directive, consuming `Uses` arguments |
| Struct.PackVaList | src/struct.c:321-462 | `pack_va_list` returns offset plus `struct_calcsize` of the format, or -1 when a character is refused. The buffer holds the original bytes before `offset`, the packing of every directive before the end or the refusal, and the original bytes after them |
| Struct.ReadNumber | src/struct.c:511-582 | one repetition of a numeric case reads `Decode` of the bytes at the cursor |
| Struct.UnpackNumbers | src/struct.c:511-582 | the inner loop of a numeric case reads `num` values one after another |
| Struct.ReadString | src/struct.c:583-589 | the `s` case reads exactly `num` bytes and no terminator |
| Struct.UnpackDirective | src/struct.c:511-589 | one case of the switch reads `UnpackItem` of the directive |
| Struct.UnpackVaList | src/struct.c:464-599 | `unpack_va_list` returns the same result as `pack_va_list` would, and stores through the destinations the values of every directive before the end or the refusal |
| Struct.CalcSize | src/struct.c:655-731 | `struct_calcsize` returns `CalcSizeOf` of the characters before the first NUL |
| Struct.Pack | src/struct.c:607-617 | `struct_pack` packs from offset 0 and returns the format's size, or -1 |
| Struct.PackInto | src/struct.c:619-629 | `struct_pack_into` packs from the caller's offset |
| Struct.Unpack | src/struct.c:631-641 | `struct_unpack` reads from offset 0 and returns the format's size, or -1 |
| Struct.UnpackFrom | src/struct.c:643-653 | `struct_unpack_from` reads from the caller's offset |
| Struct.PackedAllUnpacks | src/struct.c:607-653 | a buffer `pack_va_list` filled with values of the right types unpacks to exactly those values |
| Struct.PackThenUnpack | src/struct.c:607-653 | `struct_pack_into` followed by `struct_unpack_from` at the same offset returns the same length and gives back the arguments |

## Left out

- Layout.Encode, Layout.Decode: the IEEE-754 conversions `pack_ieee754` / `unpack_ieee754` (src/struct.c:50-128) are floating point. A `f` or `d` value is the 4- or 8-byte unsigned word those conversions produce, and the model moves it like any other unsigned word.
- `get_endian`, `myendian` and `CHECK_PREREQUISITE` (src/struct.c:23-48) are the host probe and its cache. The model has a parameter `host` instead.
- Struct.PackVaList, Struct.UnpackVaList: `va_list` and the default argument promotions are not modelled. The arguments are a sequence of tagged `Value`s. An argument of the wrong C type is undefined behaviour in C, so `ArgsFit` is a precondition.
- Struct.CalcSize, Struct.PackVaList, Struct.UnpackVaList, Format.RepeatCount: repeat counts are unbounded naturals. The C code stores `strtol`'s `long` into `int num` (src/struct.c:32), which truncates counts beyond `int`. It takes the `errno` branch of CHECK_REPETITION when `strtol` overflows. It keeps the total `ret` in an `int` (src/struct.c:657, 678-720), so a large total overflows. None of this is modelled, and the contracts are exact only for counts and totals that fit in an `int`.
- Struct.Pack, Struct.PackInto, Struct.Unpack, Struct.UnpackFrom: the same unbounded counts as the methods they call.
- Format.ScanFmt: `num_buf` is a 32-byte array, and more than 31 pending digits overflow it (src/struct.c:455). The model keeps every digit.
- Struct.PackVaList, Struct.UnpackVaList: the C code does not check buffer bounds. The model requires the format's bytes to fit (`Room`, `Within`). It also requires every `s` string to hold at least `count` bytes.
- Struct.PackVaList, Struct.UnpackVaList: destinations are returned as a sequence of values rather than stored through pointers, so aliasing between destinations and the buffer is not modelled.
- Format.RefusedIff: the repository's tests use the pad byte `x`, the length-prefixed string `p` and the variable-length integers `v`/`V`, but the C switch has no case for them. They are refused with -1 like any other unknown character, as the code does.
- Layout.Decode: `b` reads as a signed `char` (`IsSigned`), as on the common platforms. Where `char` is unsigned, `b` unpacks as `B` does.
- IntCodec.PackInt, IntCodec.UnpackUInt, IntCodec.UnpackInt: the C code unrolls each width by hand. The model uses one loop per direction, parameterised by the width.
- Struct.PackVaList: the C code writes the bytes in order, through one cursor. The model states only the final buffer, not the order of the writes.
- Layout.UnpackAll: a read past the end of the bytes gives zeros (`Window`). The entry points' contracts never reach that case, because they require `Within`. The lemmas of `Repetition` hold for any bytes, zero-filled reads included.
