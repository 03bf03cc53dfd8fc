/** What `pack_va_list` writes and `unpack_va_list` reads for a list of
    directives, as functions: the byte layout of a record.

    The C variadic argument list becomes a sequence of tagged values, and the
    unpack destinations a sequence of the values stored through them. */
module Layout {
  import opened Bytes
  import opened IntCodec
  import opened Format

  /** The C type of an argument or destination: `char`, `unsigned char`,
      `int16_t`, `uint16_t`, `int32_t`, `uint32_t`, `int64_t`, `uint64_t`,
      `float`, `double`. */
  datatype Kind = Char | UChar | Short | UShort | Int | UInt | LongLong | ULongLong | Float | Double

  /** One argument or destination.  A `Float` or `Double` number is the
      IEEE-754 bit pattern the float codec produces, an unsigned word of
      4 or 8 bytes.  `Chars` is the `char *` of an `s` directive. */
  datatype Value = Num(kind: Kind, n: int) | Chars(bytes: seq<byte>)

  /** Every type code except `s`: one value per repetition. */
  predicate IsNumeric(c: char) {
    IsTypeCode(c) && c != 's'
  }

  /** The codes whose unpacked value is signed. */
  predicate IsSigned(c: char) {
    c == 'b' || c == 'h' || c == 'i' || c == 'l' || c == 'q'
  }

  function KindOf(c: char): Kind
    requires IsNumeric(c)
  {
    if c == 'b' then Char
    else if c == 'B' then UChar
    else if c == 'h' then Short
    else if c == 'H' then UShort
    else if c == 'i' || c == 'l' then Int
    else if c == 'I' || c == 'L' then UInt
    else if c == 'q' then LongLong
    else if c == 'Q' then ULongLong
    else if c == 'f' then Float
    else Double
  }

  /** The values a code's C type can hold. */
  predicate InRange(c: char, n: int)
    requires IsNumeric(c)
  {
    if IsSigned(c) then InSignedRange(n, Width(c)) else 0 <= n < Pow256(Width(c))
  }

  /** An argument of the type a numeric code reads. */
  predicate Fits(c: char, v: Value)
    requires IsNumeric(c)
  {
    v.Num? && v.kind == KindOf(c)
  }

  /** The bytes one repetition of a numeric code stores for the number n:
      `b` and `B` store the low byte at the cursor whatever the order; the
      other codes convert n to their unsigned width and call `pack_intN`. */
  function Encode(c: char, n: int, order: Order, host: Order): (r: seq<byte>)
    requires IsNumeric(c)
    ensures |r| == Width(c)
  {
    if Width(c) == 1 then [Wrap(n, 1) as byte]
    else IntBytes(Wrap(n, Width(c)), Width(c), order, host)
  }

  /** The value one repetition of a numeric code stores through its
      destination: the byte itself for `b` / `B`, otherwise what
      `unpack_uintN` assembles; signed codes then recover the sign. */
  function Decode(c: char, s: seq<byte>, order: Order, host: Order): Value
    requires IsNumeric(c) && |s| == Width(c)
  {
    var raw: nat := if Width(c) == 1 then s[0] as nat else UIntOf(s, order, host);
    Num(KindOf(c), if IsSigned(c) then ToSigned(raw, Width(c)) else raw)
  }

  /** Every number of a code's C type survives encoding and decoding in the
      same order: unsigned values through the integer codec, signed ones
      through it and the two's-complement recovery. */
  lemma {:induction false} ValueRoundTrip(c: char, n: int, order: Order, host: Order)
    requires IsNumeric(c) && InRange(c, n)
    ensures Decode(c, Encode(c, n, order, host), order, host) == Num(KindOf(c), n)
  {
    var w := Width(c);
    if IsSigned(c) {
      SignedRoundTrip(n, w);
    } else {
      WrapFits(n, w);
    }
    if w > 1 {
      UnsignedRoundTrip(Wrap(n, w), w, order, host);
    }
  }

  /** Values a directive consumes: `count` of them, or one string for `s`. */
  function Uses(it: Item): nat {
    if it.code == 's' then 1 else it.count
  }

  function Needed(items: seq<Item>): nat {
    if items == [] then 0 else Needed(items[..|items| - 1]) + Uses(items[|items| - 1])
  }

  /** The arguments from position `from` on are what the directive reads
      with `va_arg`: enough of them, each of the code's type, and for `s` a
      string of at least `count` bytes. */
  predicate ItemFits(it: Item, vals: seq<Value>, from: nat)
    requires IsTypeCode(it.code)
  {
    && from + Uses(it) <= |vals|
    && if it.code == 's' then vals[from].Chars? && |vals[from].bytes| >= it.count
       else forall j :: from <= j < from + it.count ==> Fits(it.code, vals[j])
  }

  /** The argument list matches the directives. */
  predicate ArgsFit(items: seq<Item>, vals: seq<Value>)
    requires AllCodes(items)
  {
    items == [] ||
    (ArgsFit(items[..|items| - 1], vals) && ItemFits(items[|items| - 1], vals, Needed(items[..|items| - 1])))
  }

  /** Besides matching, every number is within its type and every string is
      exactly as long as its directive: what a round trip can give back. */
  predicate ItemExact(it: Item, vals: seq<Value>, from: nat)
    requires IsTypeCode(it.code) && ItemFits(it, vals, from)
  {
    if it.code == 's' then |vals[from].bytes| == it.count
    else forall j :: from <= j < from + it.count ==> InRange(it.code, vals[j].n)
  }

  predicate ArgsExact(items: seq<Item>, vals: seq<Value>)
    requires AllCodes(items) && ArgsFit(items, vals)
  {
    items == [] ||
    (ArgsExact(items[..|items| - 1], vals) && ItemExact(items[|items| - 1], vals, Needed(items[..|items| - 1])))
  }

  /** A prefix of a matching directive list matches too. */
  lemma {:induction false} ArgsFitPrefix(a: seq<Item>, b: seq<Item>, vals: seq<Value>)
    requires AllCodes(b) && a <= b && ArgsFit(b, vals)
    ensures AllCodes(a) && ArgsFit(a, vals) && Needed(a) <= Needed(b)
    decreases |b|
  {
    if |a| < |b| {
      var init := b[..|b| - 1];
      assert a <= init;
      ArgsFitPrefix(a, init, vals);
    } else {
      assert a == b;
    }
  }

  /** `n` repetitions of a numeric code: the values from `from` on, encoded
      one after the other. */
  function PackRep(c: char, order: Order, vals: seq<Value>, from: nat, n: nat, host: Order): (r: seq<byte>)
    requires IsNumeric(c) && from + n <= |vals|
    requires forall j :: from <= j < from + n ==> Fits(c, vals[j])
    ensures |r| == Span(n, Width(c))
  {
    if n == 0 then []
    else
      assert Fits(c, vals[from + n - 1]);
      PackRep(c, order, vals, from, n - 1, host) + Encode(c, vals[from + n - 1].n, order, host)
  }

  /** One more repetition stores one more encoding, after the others. */
  ghost predicate PackGrows(c: char, order: Order, vals: seq<Value>, from: nat, m: nat, n: nat, host: Order)
    requires IsNumeric(c) && m + 1 == n && from + n <= |vals|
    requires forall j :: from <= j < from + n ==> Fits(c, vals[j])
  {
    PackRep(c, order, vals, from, n, host) == PackRep(c, order, vals, from, m, host) + Encode(c, vals[from + m].n, order, host)
  }

  lemma {:induction false} PackUnfold(c: char, order: Order, vals: seq<Value>, from: nat, m: nat, n: nat, host: Order)
    requires IsNumeric(c) && m + 1 == n && from + n <= |vals|
    requires forall j :: from <= j < from + n ==> Fits(c, vals[j])
    ensures PackGrows(c, order, vals, from, m, n, host)
  {
  }

  /** The bytes one directive stores: for `s`, the first `count` bytes of
      its one string, in order; otherwise `count` encoded numbers. */
  function PackItem(it: Item, vals: seq<Value>, from: nat, host: Order): (r: seq<byte>)
    requires IsTypeCode(it.code) && ItemFits(it, vals, from)
    ensures |r| == Span(it.count, Width(it.code))
  {
    if it.code == 's' then SpanOfBytes(it.count); vals[from].bytes[..it.count]
    else PackRep(it.code, it.order, vals, from, it.count, host)
  }

  /** The bytes the directives store, from the first to the last. */
  function PackAll(items: seq<Item>, vals: seq<Value>, host: Order): (r: seq<byte>)
    requires AllCodes(items) && ArgsFit(items, vals)
    ensures |r| == Size(items)
  {
    if items == [] then []
    else
      var init := items[..|items| - 1];
      PackAll(init, vals, host) + PackItem(items[|items| - 1], vals, Needed(init), host)
  }

  /** w zero bytes. */
  function Zeros(w: nat): (r: seq<byte>)
    ensures |r| == w
  {
    if w == 0 then [] else Zeros(w - 1) + [0]
  }

  /** The w bytes of `s` from `at` on; bytes past the end of `s` read as 0
      (every property below keeps reads inside `s`). */
  function Window(s: seq<byte>, at: nat, w: nat): (r: seq<byte>)
    ensures |r| == w
    ensures at + w <= |s| ==> r == s[at..at + w]
  {
    if at + w <= |s| then s[at..at + w] else Zeros(w)
  }

  /** `n` repetitions of a numeric code read from `s` at `pos`. */
  function UnpackRep(c: char, order: Order, s: seq<byte>, pos: nat, n: nat, host: Order): (r: seq<Value>)
    requires IsNumeric(c)
    ensures |r| == n
  {
    if n == 0 then []
    else
      var at := pos + Span(n - 1, Width(c));
      UnpackRep(c, order, s, pos, n - 1, host) + [Decode(c, Window(s, at, Width(c)), order, host)]
  }

  /** One more repetition reads one more value, at `at`. */
  ghost predicate RepGrows(c: char, order: Order, s: seq<byte>, base: nat, m: nat, n: nat, at: nat, host: Order) {
    && IsNumeric(c)
    && UnpackRep(c, order, s, base, n, host)
       == UnpackRep(c, order, s, base, m, host) + [Decode(c, Window(s, at, Width(c)), order, host)]
  }

  lemma {:induction false} RepUnfold(c: char, order: Order, s: seq<byte>, base: nat, m: nat, n: nat, at: nat, host: Order)
    requires IsNumeric(c) && m == n - 1 && at == base + Span(m, Width(c))
    ensures RepGrows(c, order, s, base, m, n, at, host)
  {
  }

  /** The values one directive stores through its destinations: for `s`,
      exactly `count` bytes into one string (no terminator is added). */
  function UnpackItem(it: Item, s: seq<byte>, pos: nat, host: Order): (r: seq<Value>)
    requires IsTypeCode(it.code)
    ensures |r| == Uses(it)
  {
    if it.code == 's' then [Chars(Window(s, pos, it.count))]
    else UnpackRep(it.code, it.order, s, pos, it.count, host)
  }

  /** The values the directives read from `s` starting at `pos`. */
  function UnpackAll(items: seq<Item>, s: seq<byte>, pos: nat, host: Order): (r: seq<Value>)
    requires AllCodes(items)
    ensures |r| == Needed(items)
  {
    if items == [] then []
    else
      var init := items[..|items| - 1];
      UnpackAll(init, s, pos, host) + UnpackItem(items[|items| - 1], s, pos + Size(init), host)
  }

  /** Splitting a slice that holds a concatenation. */
  lemma {:induction false} SliceSplit(s: seq<byte>, a: nat, b: nat, c: nat, whole: seq<byte>, x: seq<byte>, y: seq<byte>)
    requires a <= b <= c <= |s| && s[a..c] == whole && whole == x + y && |x| == b - a
    ensures s[a..b] == x && s[b..c] == y
  {
    assert s[a..b] == s[a..c][..b - a];
    assert s[b..c] == s[a..c][b - a..];
  }

  /** `s` holds, at `pos`, `n` repetitions packed from numbers that a round
      trip can give back. */
  ghost predicate RepPacked(c: char, order: Order, vals: seq<Value>, from: nat, n: nat, s: seq<byte>, pos: nat, host: Order)
  {
    && IsNumeric(c) && from + n <= |vals|
    && (forall j :: from <= j < from + n ==> Fits(c, vals[j]) && InRange(c, vals[j].n))
    && pos + Span(n, Width(c)) <= |s| && s[pos..pos + Span(n, Width(c))] == PackRep(c, order, vals, from, n, host)
  }

  /** Reading the `n` repetitions back gives the numbers they were packed from. */
  ghost predicate RepUnpacks(c: char, order: Order, vals: seq<Value>, from: nat, n: nat, s: seq<byte>, pos: nat, host: Order)
  {
    IsNumeric(c) && from + n <= |vals| && UnpackRep(c, order, s, pos, n, host) == vals[from..from + n]
  }

  /** The first `n - 1` of `n` packed repetitions are packed in front of the
      last, which reads back as its value. */
  ghost predicate RepSplits(c: char, order: Order, vals: seq<Value>, from: nat, n: nat, s: seq<byte>, pos: nat, host: Order)
  {
    && n > 0 && RepPacked(c, order, vals, from, n - 1, s, pos, host) && from + n <= |vals|
    && UnpackRep(c, order, s, pos, n, host) == UnpackRep(c, order, s, pos, n - 1, host) + [vals[from + n - 1]]
  }

  lemma {:induction false} RepLast(c: char, order: Order, vals: seq<Value>, from: nat, n: nat,
                                   s: seq<byte>, pos: nat, host: Order)
    requires n > 0 && RepPacked(c, order, vals, from, n, s, pos, host)
    ensures RepSplits(c, order, vals, from, n, s, pos, host)
  {
    var w := Width(c);
    var at := pos + Span(n - 1, w);
    assert at + w == pos + Span(n, w);
    var v := vals[from + n - 1];
    assert Fits(c, v) && InRange(c, v.n);
    var front := PackRep(c, order, vals, from, n - 1, host);
    var last := Encode(c, v.n, order, host);
    SliceSplit(s, pos, at, at + w, PackRep(c, order, vals, from, n, host), front, last);
    ValueRoundTrip(c, v.n, order, host);
    assert Window(s, at, w) == last;
  }

  /** Unpacking `n` repetitions where they were packed gives back the numbers. */
  lemma {:induction false} RepRoundTrip(c: char, order: Order, vals: seq<Value>, from: nat, n: nat,
                                        s: seq<byte>, pos: nat, host: Order)
    requires RepPacked(c, order, vals, from, n, s, pos, host)
    ensures RepUnpacks(c, order, vals, from, n, s, pos, host)
  {
    if n > 0 {
      RepLast(c, order, vals, from, n, s, pos, host);
      RepRoundTrip(c, order, vals, from, n - 1, s, pos, host);
      GrowSlice(UnpackRep(c, order, s, pos, n, host), UnpackRep(c, order, s, pos, n - 1, host), vals, from, n);
    }
  }

  /** A slice of the arguments grown by the next one. */
  lemma {:induction false} GrowSlice(x: seq<Value>, y: seq<Value>, vals: seq<Value>, from: nat, n: nat)
    requires 0 < n && from + n <= |vals| && y == vals[from..from + n - 1] && x == y + [vals[from + n - 1]]
    ensures x == vals[from..from + n]
  {
    assert vals[from..from + n] == vals[from..from + n - 1] + [vals[from + n - 1]];
  }

  /** `s` holds, at `pos`, one directive packed from arguments that a round
      trip can give back. */
  ghost predicate ItemPacked(it: Item, vals: seq<Value>, from: nat, s: seq<byte>, pos: nat, host: Order)
  {
    && IsTypeCode(it.code) && ItemFits(it, vals, from) && ItemExact(it, vals, from)
    && pos + Span(it.count, Width(it.code)) <= |s|
    && s[pos..pos + Span(it.count, Width(it.code))] == PackItem(it, vals, from, host)
  }

  /** Reading one directive from `s` at `pos` gives the arguments from
      `from` on. */
  ghost predicate ItemUnpacks(it: Item, vals: seq<Value>, from: nat, s: seq<byte>, pos: nat, host: Order)
  {
    && IsTypeCode(it.code) && pos + Span(it.count, Width(it.code)) <= |s| && from + Uses(it) <= |vals|
    && UnpackItem(it, s, pos, host) == vals[from..from + Uses(it)]
  }

  /** Unpacking one directive where it was packed gives back its values. */
  lemma {:induction false} ItemRoundTrip(it: Item, vals: seq<Value>, from: nat, s: seq<byte>, pos: nat, host: Order)
    requires ItemPacked(it, vals, from, s, pos, host)
    ensures ItemUnpacks(it, vals, from, s, pos, host)
  {
    if it.code == 's' {
      var b := vals[from].bytes;
      assert Width(it.code) == 1 && b[..it.count] == b;
      assert s[pos..pos + it.count] == b;
      assert vals[from] == Chars(b);
      assert vals[from..from + 1] == [vals[from]];
    } else {
      RepRoundTrip(it.code, it.order, vals, from, it.count, s, pos, host);
    }
  }

  lemma {:induction false} SeqSplit<T>(s: seq<T>, a: nat, b: nat)
    requires a <= b <= |s|
    ensures s[..b] == s[..a] + s[a..b]
  {
  }

  /** Exact arguments for a list ending in `it` are exact for its front and
      for `it`. */
  ghost predicate ExactThen(items: seq<Item>, it: Item, vals: seq<Value>) {
    && AllCodes(items) && IsTypeCode(it.code) && ArgsFit(items, vals) && ItemFits(it, vals, Needed(items))
    && ArgsExact(items, vals) && ItemExact(it, vals, Needed(items))
  }

  lemma {:induction false} ExactAppend(all: seq<Item>, items: seq<Item>, it: Item, vals: seq<Value>)
    requires all == items + [it] && AllCodes(all) && ArgsFit(all, vals) && ArgsExact(all, vals)
    ensures ExactThen(items, it, vals)
  {
    Unsnoc(all, items, it);
  }

  /** `s` holds, at `pos`, a record packed from arguments that a round trip
      can give back. */
  ghost predicate Packed(items: seq<Item>, vals: seq<Value>, s: seq<byte>, pos: nat, host: Order)
  {
    && AllCodes(items) && ArgsFit(items, vals) && ArgsExact(items, vals)
    && pos + Size(items) <= |s| && s[pos..pos + Size(items)] == PackAll(items, vals, host)
  }

  /** A packed record `all` made of `items` and then `it`: the bytes before
      `it` hold the packing of `items`, and the bytes after hold `it`'s. */
  ghost predicate PackedThen(all: seq<Item>, items: seq<Item>, it: Item, vals: seq<Value>, s: seq<byte>, pos: nat, host: Order)
  {
    && AllCodes(all) && Packed(items, vals, s, pos, host)
    && ItemPacked(it, vals, Needed(items), s, pos + Size(items), host)
    && Needed(all) == Needed(items) + Uses(it) <= |vals|
  }

  lemma {:induction false} RecordParts(all: seq<Item>, items: seq<Item>, it: Item, vals: seq<Value>, s: seq<byte>, pos: nat, host: Order)
    requires all == items + [it] && Packed(all, vals, s, pos, host)
    ensures PackedThen(all, items, it, vals, s, pos, host)
  {
    RecordBytes(all, items, it, vals, s, pos, host);
    ExactAppend(all, items, it, vals);
    FrontPacked(all, items, it, vals, s, pos, host);
    LastPacked(all, items, it, vals, s, pos, host);
  }

  lemma {:induction false} FrontPacked(all: seq<Item>, items: seq<Item>, it: Item, vals: seq<Value>, s: seq<byte>, pos: nat, host: Order)
    requires BytesThen(all, items, it, vals, s, pos, host) && ExactThen(items, it, vals)
    ensures Packed(items, vals, s, pos, host)
  {
  }

  lemma {:induction false} LastPacked(all: seq<Item>, items: seq<Item>, it: Item, vals: seq<Value>, s: seq<byte>, pos: nat, host: Order)
    requires BytesThen(all, items, it, vals, s, pos, host) && ExactThen(items, it, vals)
    ensures ItemPacked(it, vals, Needed(items), s, pos + Size(items), host)
  {
  }

  /** Where `all` was packed, its bytes split at the end of `items`. */
  ghost predicate BytesThen(all: seq<Item>, items: seq<Item>, it: Item, vals: seq<Value>, s: seq<byte>, pos: nat, host: Order)
  {
    && AllCodes(all) && AllCodes(items) && IsTypeCode(it.code) && ArgsFit(items, vals) && ItemFits(it, vals, Needed(items))
    && Needed(all) == Needed(items) + Uses(it)
    && pos + Size(all) == pos + Size(items) + Span(it.count, Width(it.code)) <= |s|
    && s[pos..pos + Size(items)] == PackAll(items, vals, host)
    && s[pos + Size(items)..pos + Size(all)] == PackItem(it, vals, Needed(items), host)
  }

  lemma {:induction false} RecordBytes(all: seq<Item>, items: seq<Item>, it: Item, vals: seq<Value>, s: seq<byte>, pos: nat, host: Order)
    requires all == items + [it] && AllCodes(all) && ArgsFit(all, vals)
    requires pos + Size(all) <= |s| && s[pos..pos + Size(all)] == PackAll(all, vals, host)
    ensures BytesThen(all, items, it, vals, s, pos, host)
  {
    PackAllAppend(all, items, it, vals, Needed(items), host);
    SliceSplit(s, pos, pos + Size(items), pos + Size(all), PackAll(all, vals, host),
               PackAll(items, vals, host), PackItem(it, vals, Needed(items), host));
  }

  /** The same record, with its last directive read back. */
  ghost predicate UnpacksThen(all: seq<Item>, items: seq<Item>, it: Item, vals: seq<Value>, s: seq<byte>, pos: nat, host: Order)
  {
    && AllCodes(all) && AllCodes(items)
    && ItemUnpacks(it, vals, Needed(items), s, pos + Size(items), host)
    && Needed(all) == Needed(items) + Uses(it) <= |vals|
  }

  lemma {:induction false} RecordLast(all: seq<Item>, items: seq<Item>, it: Item, vals: seq<Value>, s: seq<byte>, pos: nat, host: Order)
    requires PackedThen(all, items, it, vals, s, pos, host)
    ensures UnpacksThen(all, items, it, vals, s, pos, host)
  {
    ItemRoundTrip(it, vals, Needed(items), s, pos + Size(items), host);
  }

  /** Reading a record back gives the arguments it was packed from. */
  ghost predicate Unpacks(items: seq<Item>, vals: seq<Value>, s: seq<byte>, pos: nat, host: Order)
  {
    AllCodes(items) && Needed(items) <= |vals| && UnpackAll(items, s, pos, host) == vals[..Needed(items)]
  }

  /** The two shares of `UnpackAll` put back together. */
  lemma {:induction false} JoinLast(all: seq<Item>, items: seq<Item>, it: Item, vals: seq<Value>, s: seq<byte>, pos: nat, host: Order)
    requires all == items + [it] && UnpacksThen(all, items, it, vals, s, pos, host)
    requires Unpacks(items, vals, s, pos, host)
    ensures Unpacks(all, vals, s, pos, host)
  {
    var at := pos + Size(items);
    var k, m := Needed(items), Needed(all);
    UnpackAllAppend(all, items, it, s, pos, at, host);
    SeqSplit(vals, k, m);
    Rewrap(UnpackAll(all, s, pos, host), UnpackAll(items, s, pos, host), UnpackItem(it, s, at, host), vals[..k], vals[k..m]);
  }

  /** Equal parts make equal concatenations. */
  lemma {:induction false} Rewrap<T>(whole: seq<T>, front: seq<T>, back: seq<T>, front2: seq<T>, back2: seq<T>)
    requires whole == front + back && front == front2 && back == back2
    ensures whole == front2 + back2
  {
  }

  /** The round trip of a whole record: wherever `PackAll` put the bytes,
      unpacking the same directives from there gives back exactly the
      values packed, signed minima and maxima included. */
  lemma {:induction false} RecordRoundTrip(items: seq<Item>, vals: seq<Value>, s: seq<byte>, pos: nat, host: Order)
    requires Packed(items, vals, s, pos, host)
    ensures Unpacks(items, vals, s, pos, host)
    decreases |items|
  {
    if items != [] {
      var init := items[..|items| - 1];
      var it := items[|items| - 1];
      assert items == init + [it];
      RecordParts(items, init, it, vals, s, pos, host);
      RecordLast(items, init, it, vals, s, pos, host);
      RecordRoundTrip(init, vals, s, pos, host);
      JoinLast(items, init, it, vals, s, pos, host);
    }
  }

  /** `all` is `items` followed by `it`, with arguments for both: it packs
      what `items` packs, then what `it` packs from argument `at`, the first
      one `items` leaves. */
  ghost predicate PacksThen(all: seq<Item>, items: seq<Item>, it: Item, vals: seq<Value>, at: nat, host: Order) {
    && AllCodes(items) && IsTypeCode(it.code) && AllCodes(all)
    && ArgsFit(items, vals) && at == Needed(items) && ItemFits(it, vals, at) && ArgsFit(all, vals)
    && Needed(all) == at + Uses(it)
    && Size(all) == Size(items) + Span(it.count, Width(it.code))
    && PackAll(all, vals, host) == PackAll(items, vals, host) + PackItem(it, vals, at, host)
  }

  /** Arguments that match a list ending in `it` match the list before it,
      and `it` finds its own arguments right after. */
  ghost predicate FitsThen(items: seq<Item>, it: Item, vals: seq<Value>) {
    AllCodes(items) && IsTypeCode(it.code) && ArgsFit(items, vals) && ItemFits(it, vals, Needed(items))
  }

  lemma {:induction false} ArgsFitAppend(all: seq<Item>, items: seq<Item>, it: Item, vals: seq<Value>)
    requires all == items + [it] && AllCodes(all) && ArgsFit(all, vals)
    ensures FitsThen(items, it, vals)
  {
    Unsnoc(all, items, it);
  }

  /** Arguments for a list that ends in `it` are arguments for its front and
      for `it`, and it packs as its front followed by `it`. */
  lemma {:induction false} PackAllAppend(all: seq<Item>, items: seq<Item>, it: Item, vals: seq<Value>, at: nat, host: Order)
    requires all == items + [it] && AllCodes(all) && ArgsFit(all, vals) && at == Needed(items)
    ensures PacksThen(all, items, it, vals, at, host)
  {
    Unsnoc(all, items, it);
  }

  /** `all` is `items` followed by `it`: it reads what `items` reads, then
      what `it` reads at `at`, where the bytes of `items` end. */
  ghost predicate ReadsThen(all: seq<Item>, items: seq<Item>, it: Item, s: seq<byte>, pos: nat, at: nat, host: Order) {
    && AllCodes(items) && IsTypeCode(it.code) && AllCodes(all)
    && at == pos + Size(items) && pos + Size(all) == at + Span(it.count, Width(it.code))
    && ReadsOnFrom(all, items, it, s, pos, at, host)
  }

  /** The unpacking half of `ReadsThen`. */
  ghost predicate ReadsOnFrom(all: seq<Item>, items: seq<Item>, it: Item, s: seq<byte>, pos: nat, at: nat, host: Order)
    requires AllCodes(items) && IsTypeCode(it.code) && AllCodes(all)
  {
    UnpackAll(all, s, pos, host) == UnpackAll(items, s, pos, host) + UnpackItem(it, s, at, host)
  }

  lemma {:induction false} UnpackAllSnoc(all: seq<Item>, items: seq<Item>, it: Item, s: seq<byte>, pos: nat, at: nat, host: Order)
    requires all == items + [it] && AllCodes(items) && IsTypeCode(it.code) && AllCodes(all) && at == pos + Size(items)
    ensures ReadsOnFrom(all, items, it, s, pos, at, host)
  {
    Unsnoc(all, items, it);
    UnpackAllLast(all, s, pos, at, host);
  }

  /** The last directive of a list reads at `at`, where the bytes of the
      others end. */
  ghost predicate LastReadsAt(all: seq<Item>, s: seq<byte>, pos: nat, at: nat, host: Order)
    requires |all| > 0 && AllCodes(all)
  {
    UnpackAll(all, s, pos, host) == UnpackAll(all[..|all| - 1], s, pos, host) + UnpackItem(all[|all| - 1], s, at, host)
  }

  lemma {:induction false} UnpackAllLast(all: seq<Item>, s: seq<byte>, pos: nat, at: nat, host: Order)
    requires |all| > 0 && AllCodes(all) && at == pos + Size(all[..|all| - 1])
    ensures LastReadsAt(all, s, pos, at, host)
  {
  }

  /** The same for unpacking. */
  lemma {:induction false} UnpackAllAppend(all: seq<Item>, items: seq<Item>, it: Item, s: seq<byte>, pos: nat, at: nat, host: Order)
    requires all == items + [it] && AllCodes(items) && IsTypeCode(it.code) && at == pos + Size(items)
    ensures ReadsThen(all, items, it, s, pos, at, host)
  {
    SizeSnoc(items, it);
    UnpackAllSnoc(all, items, it, s, pos, at, host);
  }

  /** A numeric directive reads its repetitions one after the other. */
  ghost predicate ReadsAsRep(it: Item, s: seq<byte>, pos: nat, host: Order) {
    IsNumeric(it.code) && UnpackItem(it, s, pos, host) == UnpackRep(it.code, it.order, s, pos, it.count, host)
  }

  lemma {:induction false} UnpackNumeric(it: Item, s: seq<byte>, pos: nat, host: Order)
    requires IsNumeric(it.code)
    ensures ReadsAsRep(it, s, pos, host)
  {
  }

  /** Appending a directive whose arguments follow those of a list. */
  lemma {:induction false} PackAllSnoc(all: seq<Item>, items: seq<Item>, it: Item, vals: seq<Value>, at: nat, host: Order)
    requires all == items + [it] && AllCodes(items) && ArgsFit(items, vals) && IsTypeCode(it.code)
    requires at == Needed(items) && ItemFits(it, vals, at)
    ensures PacksThen(all, items, it, vals, at, host)
  {
    Unsnoc(all, items, it);
  }

  /** One more directive consumes its arguments after those of the list. */
  lemma {:induction false} NeededSnoc(items: seq<Item>, it: Item)
    ensures Needed(items + [it]) == Needed(items) + Uses(it)
  {
    var all := items + [it];
    Unsnoc(all, items, it);
  }
}
