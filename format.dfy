/** The format mini-language of src/struct.c as the three loops over `fmt`
    see it: byte-order markers, digits of a repeat count and type codes.

    `ScanFmt` is the state machine shared by `pack_va_list` and
    `unpack_va_list` (cursor aside): after a prefix of the format it knows the
    directives resolved so far (type code, repeat count, active order), the
    digits waiting in `num_buf`, the active order `*ep`, and whether a
    character has been refused.  `TallyFmt` is the separate machine of
    `struct_calcsize`, which keeps a running total instead and ignores order. */
module Format {
  import opened IntCodec

  predicate IsDigit(c: char) {
    '0' <= c <= '9'
  }

  /** `=`, `<`, `>` and `!`. */
  predicate IsOrderMark(c: char) {
    c == '=' || c == '<' || c == '>' || c == '!'
  }

  /** The thirteen type codes the switch statements handle. */
  predicate IsTypeCode(c: char) {
    || c == 'b' || c == 'B' || c == 'h' || c == 'H' || c == 'i' || c == 'I'
    || c == 'l' || c == 'L' || c == 'q' || c == 'Q' || c == 'f' || c == 'd' || c == 's'
  }

  /** The characters of the C string stored in `s`: those before its first
      NUL, or all of `s` when it holds none.  Every walk over a format stops
      at its first NUL, so these are the characters it sees. */
  function CStr(s: string): (r: string)
    ensures |r| <= |s|
  {
    if s == [] || s[0] == '\0' then [] else [s[0]] + CStr(s[1..])
  }

  /** The C string is the prefix of `s` up to, and not including, its
      first NUL. */
  lemma {:induction false} CStrIsPrefix(s: string)
    ensures CStr(s) == s[..|CStr(s)|]
    ensures forall i :: 0 <= i < |CStr(s)| ==> s[i] != '\0'
    ensures |CStr(s)| < |s| ==> s[|CStr(s)|] == '\0'
  {
    if s != [] && s[0] != '\0' {
      CStrIsPrefix(s[1..]);
      assert CStr(s) == [s[0]] + CStr(s[1..]);
      assert s == [s[0]] + s[1..];
    }
  }

  /** The loop test `*p != '\0'` at position `p`, no further than the
      terminator: it holds exactly at the positions of the C string. */
  lemma {:induction false} CStrAt(s: string, p: nat)
    requires p <= |CStr(s)|
    ensures p < |CStr(s)| <==> p < |s| && s[p] != '\0'
    ensures p < |CStr(s)| ==> CStr(s)[p] == s[p]
  {
    if s != [] && s[0] != '\0' && p > 0 {
      CStrAt(s[1..], p - 1);
    }
  }

  /** A string without a NUL is its own C string. */
  lemma {:induction false} CStrOfPlain(s: string)
    requires forall i :: 0 <= i < |s| ==> s[i] != '\0'
    ensures CStr(s) == s
  {
    CStrIsPrefix(s);
  }

  /** A character the loops accept; any other one makes them return -1. */
  predicate Recognized(c: char) {
    IsDigit(c) || IsOrderMark(c) || IsTypeCode(c)
  }

  /** The byte width of one repetition of a type code (for `s`, of one
      character of the string): the `sizeof` in each case of
      `struct_calcsize`, and the number of bytes each codec call moves. */
  function Width(c: char): (w: nat)
    requires IsTypeCode(c)
    ensures w == 1 || w == 2 || w == 4 || w == 8
  {
    if c == 'b' || c == 'B' || c == 's' then 1
    else if c == 'h' || c == 'H' then 2
    else if c == 'i' || c == 'I' || c == 'l' || c == 'L' || c == 'f' then 4
    else 8
  }

  /** The bytes `count` repetitions of a `w`-byte field take, added up one
      repetition at a time as the cursor advances. */
  function Span(count: nat, w: nat): nat {
    if count == 0 then 0 else Span(count - 1, w) + w
  }

  /** One more repetition spans one more width; m is the count before it. */
  lemma {:induction false} SpanStep(m: nat, n: nat, w: nat)
    requires m == n - 1
    ensures Span(n, w) == Span(m, w) + w
  {
  }

  /** The span is count times width, the `num * sizeof(...)` of the C code. */
  lemma {:induction false} SpanIsProduct(count: nat, w: nat)
    ensures Span(count, w) == count * w
  {
    if count > 0 {
      SpanIsProduct(count - 1, w);
    }
  }

  /** One-byte fields span as many bytes as there are repetitions. */
  lemma {:induction false} SpanOfBytes(count: nat)
    ensures Span(count, 1) == count
  {
    if count > 0 {
      SpanOfBytes(count - 1);
    }
  }

  /** More repetitions never take fewer bytes. */
  lemma {:induction false} SpanMono(a: nat, b: nat, w: nat)
    requires a <= b
    ensures Span(a, w) <= Span(b, w)
    decreases b
  {
    if a < b {
      SpanMono(a, b - 1, w);
    }
  }

  /** The order a marker selects: `=` the host's own,
      `<` little, `>` and `!` big. */
  function MarkOrder(c: char, host: Order): Order
    requires IsOrderMark(c)
  {
    if c == '=' then host else if c == '<' then Little else Big
  }

  predicate AllDigits(d: seq<char>) {
    forall i :: 0 <= i < |d| ==> IsDigit(d[i])
  }

  /** The decimal value `strtol` gives to the digits in base 10. */
  function DecimalValue(d: seq<char>): (r: nat)
    requires AllDigits(d)
  {
    if d == [] then 0
    else 10 * DecimalValue(d[..|d| - 1]) + (d[|d| - 1] as int - '0' as int)
  }

  /** CHECK_REPETITION: the accumulated digits' value, or 1 when there are none. */
  function RepeatCount(d: seq<char>): (r: nat)
    requires AllDigits(d)
    ensures d == [] ==> r == 1
  {
    if |d| > 0 then DecimalValue(d) else 1
  }

  /** One type code as executed: its repeat count (for `s`, the string's
      length) and the byte order active when it was met. */
  datatype Item = Item(code: char, count: nat, order: Order)

  predicate AllCodes(items: seq<Item>) {
    forall i :: 0 <= i < |items| ==> IsTypeCode(items[i].code)
  }

  /** The interpreter's state after a prefix of the format. */
  datatype Scan = Scan(items: seq<Item>, digits: seq<char>, order: Order, ok: bool)

  /** One character of `pack_va_list` / `unpack_va_list`'s switch.  After a
      refused character nothing changes any more (the loop has returned). */
  function ScanStep(s: Scan, c: char, host: Order): (r: Scan)
    requires AllDigits(s.digits) && AllCodes(s.items)
    ensures AllDigits(r.digits) && AllCodes(r.items)
  {
    if !s.ok then s
    else if IsOrderMark(c) then s.(order := MarkOrder(c, host))
    else if IsTypeCode(c) then
      Scan(s.items + [Item(c, RepeatCount(s.digits), s.order)], [], s.order, true)
    else if IsDigit(c) then s.(digits := s.digits + [c])
    else s.(ok := false)
  }

  /** The interpreter's state after the whole of `fmt`, starting from the
      host order and an empty `num_buf`. */
  function ScanFmt(fmt: string, host: Order): (r: Scan)
    ensures AllDigits(r.digits) && AllCodes(r.items)
    decreases |fmt|
  {
    if fmt == [] then Scan([], [], host, true)
    else ScanStep(ScanFmt(fmt[..|fmt| - 1], host), fmt[|fmt| - 1], host)
  }

  /** Bytes covered by a list of directives: count times width for each. */
  function Size(items: seq<Item>): (r: nat)
    requires AllCodes(items)
  {
    if items == [] then 0
    else Size(items[..|items| - 1]) + Span(items[|items| - 1].count, Width(items[|items| - 1].code))
  }

  /** `struct_calcsize`'s state after a prefix: `ret`, `num_buf`, and whether
      a character has been refused. */
  datatype Tally = Tally(total: nat, digits: seq<char>, ok: bool)

  function TallyStep(t: Tally, c: char): (r: Tally)
    requires AllDigits(t.digits)
    ensures AllDigits(r.digits)
  {
    if !t.ok then t
    else if IsOrderMark(c) then t
    else if IsTypeCode(c) then Tally(t.total + Span(RepeatCount(t.digits), Width(c)), [], true)
    else if IsDigit(c) then t.(digits := t.digits + [c])
    else t.(ok := false)
  }

  function TallyFmt(fmt: string): (r: Tally)
    ensures AllDigits(r.digits)
    decreases |fmt|
  {
    if fmt == [] then Tally(0, [], true)
    else TallyStep(TallyFmt(fmt[..|fmt| - 1]), fmt[|fmt| - 1])
  }

  /** What `struct_calcsize` returns: the total, or -1 for a refused character. */
  function CalcSizeOf(fmt: string): int {
    if TallyFmt(fmt).ok then TallyFmt(fmt).total else -1
  }

  /** Once a character is refused, the rest of the format changes nothing:
      the state after the whole format is the state at the refusal. */
  lemma {:induction false} FailureIsFinal(fmt: string, p: nat, host: Order)
    requires p <= |fmt| && !ScanFmt(fmt[..p], host).ok
    ensures ScanFmt(fmt, host) == ScanFmt(fmt[..p], host)
    decreases |fmt|
  {
    if p < |fmt| {
      var init := fmt[..|fmt| - 1];
      assert init[..p] == fmt[..p];
      FailureIsFinal(init, p, host);
    } else {
      assert fmt[..p] == fmt;
    }
  }

  /** The same for `struct_calcsize`'s state. */
  lemma {:induction false} TallyFailureIsFinal(fmt: string, p: nat)
    requires p <= |fmt| && !TallyFmt(fmt[..p]).ok
    ensures TallyFmt(fmt) == TallyFmt(fmt[..p])
    decreases |fmt|
  {
    if p < |fmt| {
      var init := fmt[..|fmt| - 1];
      assert init[..p] == fmt[..p];
      TallyFailureIsFinal(init, p);
    } else {
      assert fmt[..p] == fmt;
    }
  }

  /** The directives met in a prefix of the format are a prefix of those met
      in the whole format, and a format that is accepted has every prefix
      accepted. */
  lemma {:induction false} ScanPrefix(fmt: string, p: nat, host: Order)
    requires p <= |fmt|
    ensures ScanFmt(fmt[..p], host).items <= ScanFmt(fmt, host).items
    ensures ScanFmt(fmt, host).ok ==> ScanFmt(fmt[..p], host).ok
    decreases |fmt|
  {
    if p < |fmt| {
      var init := fmt[..|fmt| - 1];
      assert init[..p] == fmt[..p];
      ScanPrefix(init, p, host);
    } else {
      assert fmt[..p] == fmt;
    }
  }

  /** The size of a prefix of a directive list is at most the size of the list. */
  lemma {:induction false} SizePrefix(a: seq<Item>, b: seq<Item>)
    requires AllCodes(b) && a <= b
    ensures AllCodes(a) && Size(a) <= Size(b)
    decreases |b|
  {
    if |a| < |b| {
      var init := b[..|b| - 1];
      assert a <= init;
      SizePrefix(a, init);
    } else {
      assert a == b;
    }
  }

  /** `struct_calcsize` and the pack/unpack interpreter agree on every format
      and every host order: they refuse the same formats, keep the same
      pending digits, and calcsize's total is the size of the directives the
      interpreter executes, one width table serving both. */
  lemma {:induction false} TallyAgreesWithScan(fmt: string, host: Order)
    ensures TallyFmt(fmt).ok == ScanFmt(fmt, host).ok
    ensures TallyFmt(fmt).digits == ScanFmt(fmt, host).digits
    ensures TallyFmt(fmt).total == Size(ScanFmt(fmt, host).items)
    decreases |fmt|
  {
    if fmt != [] {
      var init := fmt[..|fmt| - 1];
      TallyAgreesWithScan(init, host);
      var s := ScanFmt(init, host);
      var c := fmt[|fmt| - 1];
      if s.ok && IsTypeCode(c) {
        var items := s.items + [Item(c, RepeatCount(s.digits), s.order)];
        assert items[..|items| - 1] == s.items;
      }
    }
  }

  /** A format is refused (pack, unpack and calcsize return -1) exactly when
      some character of it is neither a byte-order marker, a digit nor a
      type code. */
  lemma {:induction false} RefusedIff(fmt: string, host: Order)
    ensures !ScanFmt(fmt, host).ok <==> exists i :: 0 <= i < |fmt| && !Recognized(fmt[i])
    decreases |fmt|
  {
    if fmt != [] {
      var init := fmt[..|fmt| - 1];
      RefusedIff(init, host);
      if exists i :: 0 <= i < |init| && !Recognized(init[i]) {
        var i :| 0 <= i < |init| && !Recognized(init[i]);
        assert fmt[i] == init[i];
      }
      if exists i :: 0 <= i < |fmt| && !Recognized(fmt[i]) {
        var i :| 0 <= i < |fmt| && !Recognized(fmt[i]);
        if i < |init| { assert init[i] == fmt[i]; }
      }
    }
  }

  /** The same for `struct_calcsize`: it returns -1 exactly when some
      character is not recognized, and otherwise a size. */
  lemma {:induction false} CalcSizeRefusedIff(fmt: string)
    ensures CalcSizeOf(fmt) == -1 <==> exists i :: 0 <= i < |fmt| && !Recognized(fmt[i])
    ensures CalcSizeOf(fmt) >= -1
  {
    TallyAgreesWithScan(fmt, Little);
    RefusedIff(fmt, Little);
  }

  /** The interpreter's state after the whole of `fmt` is `r`. */
  ghost predicate ScansTo(fmt: string, host: Order, r: Scan) {
    ScanFmt(fmt, host) == r
  }

  /** One more character is one more step of the interpreter. */
  lemma {:induction false} ScanAppend(pre: string, c: char, host: Order)
    ensures ScansTo(pre + [c], host, ScanStep(ScanFmt(pre, host), c, host))
  {
    assert (pre + [c])[..|pre|] == pre;
  }

  /** One digit after an accepted prefix only joins `num_buf`. */
  lemma {:induction false} AppendDigit(pre: string, c: char, host: Order)
    requires ScanFmt(pre, host).ok && IsDigit(c)
    ensures ScansTo(pre + [c], host, ScanFmt(pre, host).(digits := ScanFmt(pre, host).digits + [c]))
  {
    ScanAppend(pre, c, host);
  }

  /** One more character is one more step of `struct_calcsize`. */
  lemma {:induction false} TallyAppend(pre: string, c: char)
    ensures TallyFmt(pre + [c]) == TallyStep(TallyFmt(pre), c)
  {
    assert (pre + [c])[..|pre|] == pre;
  }

  /** Digits only accumulate: appending them changes neither the directives
      nor the order, and extends `num_buf`. */
  lemma {:induction false} ScanDigits(pre: string, d: string, host: Order)
    requires ScanFmt(pre, host).ok && AllDigits(d)
    ensures ScansTo(pre + d, host, ScanFmt(pre, host).(digits := ScanFmt(pre, host).digits + d))
    decreases |d|
  {
    var s0 := ScanFmt(pre, host);
    if d == [] {
      assert pre + d == pre && s0.digits + d == s0.digits;
    } else {
      var init := d[..|d| - 1];
      var c := d[|d| - 1];
      ScanDigits(pre, init, host);
      DigitStep(pre, init, c, host);
      assert pre + init + [c] == pre + d && s0.digits + init + [c] == s0.digits + d;
      ScansToSame(pre + init + [c], pre + d, host,
                  s0.(digits := s0.digits + init + [c]), s0.(digits := s0.digits + d));
    }
  }

  /** One more digit after digits that only accumulated. */
  lemma {:induction false} DigitStep(pre: string, init: string, c: char, host: Order)
    requires ScanFmt(pre, host).ok && AllDigits(init) && IsDigit(c)
    requires ScansTo(pre + init, host, ScanFmt(pre, host).(digits := ScanFmt(pre, host).digits + init))
    ensures ScansTo(pre + init + [c], host, ScanFmt(pre, host).(digits := ScanFmt(pre, host).digits + init + [c]))
  {
    AppendDigit(pre + init, c, host);
  }

  /** Equal formats reach equal states. */
  lemma {:induction false} ScansToSame(f: string, g: string, host: Order, r: Scan, q: Scan)
    requires f == g && r == q && ScansTo(f, host, r)
    ensures ScansTo(g, host, q)
  {
  }

  /** Repeat counts as CHECK_REPETITION resolves them: after a type code (or
      at the start) the digits `d`, then a byte-order marker `m`, then a type
      code `c` give one directive for `c` whose count is the decimal value of
      `d` (1 when `d` is empty) and whose order is the one `m` selects — the
      marker changes the order but does not clear the pending digits — and
      `num_buf` is empty again afterwards. */
  lemma {:induction false} RepeatCountResolution(pre: string, d: string, m: char, c: char, host: Order)
    requires ScanFmt(pre, host).ok && ScanFmt(pre, host).digits == []
    requires AllDigits(d) && IsOrderMark(m) && IsTypeCode(c)
    ensures ScansTo(pre + d + [m] + [c], host,
                    Scan(ScanFmt(pre, host).items + [Item(c, RepeatCount(d), MarkOrder(m, host))],
                         [], MarkOrder(m, host), true))
  {
    ScanDigits(pre, d, host);
    var s0 := ScanFmt(pre, host);
    assert s0.digits + d == d;
    ScanAppend(pre + d, m, host);
    ScanAppend(pre + d + [m], c, host);
  }

  /** Without a marker in between: the digits then the type code give one
      directive in the order already active. */
  lemma {:induction false} RepeatCountInCurrentOrder(pre: string, d: string, c: char, host: Order)
    requires ScanFmt(pre, host).ok && ScanFmt(pre, host).digits == []
    requires AllDigits(d) && IsTypeCode(c)
    ensures ScansTo(pre + d + [c], host,
                    Scan(ScanFmt(pre, host).items + [Item(c, RepeatCount(d), ScanFmt(pre, host).order)],
                         [], ScanFmt(pre, host).order, true))
  {
    ScanDigits(pre, d, host);
    var s0 := ScanFmt(pre, host);
    assert s0.digits + d == d;
    ScanAppend(pre + d, c, host);
  }

  /** `struct_calcsize` adds count times width for each directive and
      nothing for a byte-order marker. */
  lemma {:induction false} CalcSizeAddsDirective(pre: string, d: string, c: char)
    requires TallyFmt(pre).ok && TallyFmt(pre).digits == []
    requires AllDigits(d) && IsTypeCode(c)
    ensures CalcSizeOf(pre + d + [c]) == CalcSizeOf(pre) + RepeatCount(d) * Width(c)
  {
    SpanIsProduct(RepeatCount(d), Width(c));
    TallyAgreesWithScan(pre, Little);
    RepeatCountInCurrentOrder(pre, d, c, Little);
    TallyAgreesWithScan(pre + d + [c], Little);
    var items := ScanFmt(pre + d + [c], Little).items;
    assert items[..|items| - 1] == ScanFmt(pre, Little).items;
  }

  lemma {:induction false} CalcSizeIgnoresMarker(pre: string, m: char)
    requires IsOrderMark(m)
    ensures CalcSizeOf(pre + [m]) == CalcSizeOf(pre)
  {
    assert (pre + [m])[..|pre|] == pre;
  }

  /** A sequence built by appending one element, taken apart again. */
  lemma {:induction false} Unsnoc<T>(all: seq<T>, init: seq<T>, last: T)
    requires all == init + [last]
    ensures all[..|all| - 1] == init && all[|all| - 1] == last
  {
  }

  /** One more directive: its code joins the codes, its bytes the size. */
  lemma {:induction false} SizeSnoc(items: seq<Item>, it: Item)
    requires AllCodes(items) && IsTypeCode(it.code)
    ensures AllCodes(items + [it])
    ensures Size(items + [it]) == Size(items) + Span(it.count, Width(it.code))
  {
    var all := items + [it];
    Unsnoc(all, items, it);
    assert AllCodes(all) by {
      forall i | 0 <= i < |all|
        ensures IsTypeCode(all[i].code)
      {
        if i < |items| {
          assert all[i] == items[i];
        }
      }
    }
  }
}
