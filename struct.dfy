/** The public operations of src/struct.c as imperative methods over a
    caller's byte buffer: `struct_pack`, `struct_pack_into`, `struct_unpack`,
    `struct_unpack_from` and `struct_calcsize`, with the interpreters
    `pack_va_list` and `unpack_va_list` behind them.

    Each method walks the format once, as the C loops do, and is proved
    against the functions of `Format` and `Layout`: the state after each
    character is `ScanFmt` (or `TallyFmt`) of the prefix read so far. */
module Struct {
  import opened Bytes
  import opened IntCodec
  import opened Format
  import opened Layout

  /** Overwriting w bytes at `at` of a buffer that holds the original bytes
      up to `start`, then `p`, then the original bytes again: the new bytes
      `e` extend `p`. */
  lemma {:induction false} Splice(o: seq<byte>, b: seq<byte>, b2: seq<byte>, start: nat, at: nat, w: nat,
               p: seq<byte>, e: seq<byte>)
    requires start + |p| == at && at + w <= |o| && |e| == w
    requires b == o[..start] + p + o[at..]
    requires b2 == b[..at] + e + b[at + w..]
    ensures b2 == o[..start] + (p + e) + o[at + w..]
  {
    assert b[..at] == o[..start] + p;
    assert b[at + w..] == o[at + w..];
  }

  /** One repetition of a numeric case of `pack_va_list`: the low byte for
      `b` and `B`, otherwise the argument converted to the code's unsigned
      width and stored by `pack_intN` in the active order. */
  method StoreNumber(buf: array<byte>, at: nat, c: char, order: Order, n: int, host: Order)
    requires IsNumeric(c) && at + Width(c) <= buf.Length
    modifies buf
    ensures buf[..] == old(buf[..at]) + Encode(c, n, order, host) + old(buf[at + Width(c)..])
  {
    var w := Width(c);
    if w == 1 {
      buf[at] := Wrap(n, 1) as byte;
      assert buf[..] == old(buf[..at]) + [Wrap(n, 1) as byte] + old(buf[at + 1..]);
    } else {
      var _ := PackInt(buf, at, Wrap(n, w), w, order, host);
    }
  }

  /** The first `i` repetitions of a numeric code are stored from `bp` on,
      the cursor `next` just past them, and the rest of `b` is still `o`. */
  ghost predicate RunStored(b: seq<byte>, o: seq<byte>, bp: nat, next: nat, c: char, order: Order,
                            vals: seq<Value>, from: nat, i: nat, host: Order)
  {
    && IsNumeric(c) && from + i <= |vals| && (forall j :: from <= j < from + i ==> Fits(c, vals[j]))
    && next == bp + Span(i, Width(c)) && next <= |o|
    && b == o[..bp] + PackRep(c, order, vals, from, i, host) + o[next..]
  }

  /** Storing the next repetition's encoding at the cursor extends the
      stored run by that repetition. */
  lemma {:induction false} RepOneMore(o: seq<byte>, before: seq<byte>, after: seq<byte>, bp: nat, next: nat,
                                      c: char, order: Order, vals: seq<Value>, from: nat, i: nat, k: nat, num: nat, host: Order)
    requires RunStored(before, o, bp, next, c, order, vals, from, i, host)
    requires k == i + 1 && k <= num && from + num <= |vals|
    requires forall j :: from <= j < from + num ==> Fits(c, vals[j])
    requires Fits(c, vals[from + i]) && next + Width(c) <= |o|
    requires after == before[..next] + Encode(c, vals[from + i].n, order, host) + before[next + Width(c)..]
    ensures RunStored(after, o, bp, next + Width(c), c, order, vals, from, k, host)
  {
    SpanStep(i, k, Width(c));
    PackUnfold(c, order, vals, from, i, k, host);
    Splice(o, before, after, bp, next, Width(c), PackRep(c, order, vals, from, i, host), Encode(c, vals[from + i].n, order, host));
  }

  /** The inner loop of a numeric case of `pack_va_list`: `num` arguments
      from `from` on, one repetition each. */
  method PackNumbers(buf: array<byte>, bp: nat, c: char, order: Order, vals: seq<Value>,
                     from: nat, num: nat, host: Order)
    returns (next: nat)
    requires IsNumeric(c) && from + num <= |vals|
    requires forall j :: from <= j < from + num ==> Fits(c, vals[j])
    requires bp + Span(num, Width(c)) <= buf.Length
    modifies buf
    ensures next == bp + Span(num, Width(c))
    ensures buf[..] == old(buf[..bp]) + PackRep(c, order, vals, from, num, host) + old(buf[next..])
  {
    ghost var o := buf[..];
    var w := Width(c);
    next := bp;
    var i := 0;
    while i < num
      invariant i <= num
      invariant RunStored(buf[..], o, bp, next, c, order, vals, from, i, host)
    {
      var k := i + 1;
      SpanMono(k, num, w);
      SpanStep(i, k, w);
      ghost var before := buf[..];
      StoreNumber(buf, next, c, order, vals[from + i].n, host);
      RepOneMore(o, before, buf[..], bp, next, c, order, vals, from, i, k, num, host);
      next := next + w;
      i := k;
    }
  }

  /** The inner loop of the `s` case of `pack_va_list`: the first `num`
      bytes of the string, copied one at a time. */
  method CopyString(buf: array<byte>, bp: nat, str: seq<byte>, num: nat) returns (next: nat)
    requires num <= |str| && bp + num <= buf.Length
    modifies buf
    ensures next == bp + num
    ensures buf[..] == old(buf[..bp]) + str[..num] + old(buf[next..])
  {
    ghost var o := buf[..];
    next := bp;
    var i := 0;
    while i < num
      invariant 0 <= i <= num && next == bp + i
      invariant buf[..] == o[..bp] + str[..i] + o[next..]
    {
      ghost var before := buf[..];
      buf[next] := str[i];
      assert buf[..] == before[..next] + [str[i]] + before[next + 1..];
      Splice(o, before, buf[..], bp, next, 1, str[..i], [str[i]]);
      assert str[..i] + [str[i]] == str[..i + 1];
      next := next + 1;
      i := i + 1;
    }
  }

  /** After one more directive is packed at the cursor, the buffer holds
      the original bytes before `offset`, the packing of all directives so
      far, and the original bytes after the cursor. */
  lemma {:induction false} ExtendPacked(o: seq<byte>, before: seq<byte>, after: seq<byte>, offset: nat, at: nat, end: nat,
                     done: seq<byte>, next: seq<byte>, whole: seq<byte>)
    requires whole == done + next && offset + |done| == at && at + |next| == end && end <= |o|
    requires before == o[..offset] + done + o[at..]
    requires after == before[..at] + next + before[end..]
    ensures after == o[..offset] + whole + o[end..]
  {
    Splice(o, before, after, offset, at, |next|, done, next);
  }

  /** One case of `pack_va_list`'s switch for a type code, after
      CHECK_REPETITION: `num` numbers, or the first `num` characters of one
      string. */
  method PackDirective(buf: array<byte>, bp: nat, it: Item, vals: seq<Value>, vi: nat, host: Order)
    returns (next: nat, vn: nat)
    requires IsTypeCode(it.code) && ItemFits(it, vals, vi)
    requires bp + Span(it.count, Width(it.code)) <= buf.Length
    modifies buf
    ensures next == bp + Span(it.count, Width(it.code)) && vn == vi + Uses(it)
    ensures buf[..] == old(buf[..bp]) + PackItem(it, vals, vi, host) + old(buf[next..])
  {
    if it.code == 's' {
      SpanOfBytes(it.count);
      var str := vals[vi].bytes;
      next := CopyString(buf, bp, str, it.count);
      vn := vi + 1;
    } else {
      next := PackNumbers(buf, bp, it.code, it.order, vals, vi, it.count, host);
      vn := vi + it.count;
    }
  }

  /** A type code after an accepted prefix appends the directive it resolves. */
  lemma {:induction false} NextScan(fmt: string, p: nat, host: Order, items: seq<Item>, digits: seq<char>, order: Order)
    requires p < |fmt| && IsTypeCode(fmt[p])
    requires ScanFmt(fmt[..p], host) == Scan(items, digits, order, true)
    ensures ScansTo(fmt[..p + 1], host, Scan(items + [Item(fmt[p], RepeatCount(digits), order)], [], order, true))
  {
    var c := fmt[p];
    TakeOneMore(fmt, p);
    ScanAppend(fmt[..p], c, host);
    ScansToSame(fmt[..p] + [c], fmt[..p + 1], host, ScanStep(ScanFmt(fmt[..p], host), c, host),
                Scan(items + [Item(c, RepeatCount(digits), order)], [], order, true));
  }

  /** A prefix one longer is the prefix and the next element. */
  lemma {:induction false} TakeOneMore<T>(s: seq<T>, p: nat)
    requires p < |s|
    ensures s[..p] + [s[p]] == s[..p + 1]
  {
  }

  /** What the interpreter knows when character `p` of an accepted prefix is
      a type code: the directive it resolves extends the directives so far,
      and stays within those of the whole format. */
  lemma {:induction false} NextItem(fmt: string, p: nat, host: Order, items: seq<Item>, digits: seq<char>, order: Order)
    requires p < |fmt| && IsTypeCode(fmt[p])
    requires ScanFmt(fmt[..p], host) == Scan(items, digits, order, true)
    ensures AllDigits(digits) && AllCodes(items)
    ensures ScanFmt(fmt[..p + 1], host)
            == Scan(items + [Item(fmt[p], RepeatCount(digits), order)], [], order, true)
    ensures items + [Item(fmt[p], RepeatCount(digits), order)] <= ScanFmt(fmt, host).items
    ensures AllCodes(items + [Item(fmt[p], RepeatCount(digits), order)])
    ensures Size(items + [Item(fmt[p], RepeatCount(digits), order)]) <= Size(ScanFmt(fmt, host).items)
  {
    NextScan(fmt, p, host, items, digits, order);
    ScanPrefix(fmt, p + 1, host);
    SizePrefix(items + [Item(fmt[p], RepeatCount(digits), order)], ScanFmt(fmt, host).items);
  }

  /** ... and, when the caller supplied arguments for the whole format,
      the arguments for the directives so far and the new one. */
  lemma {:induction false} NextDirective(fmt: string, p: nat, host: Order, vals: seq<Value>,
                      items: seq<Item>, digits: seq<char>, order: Order)
    requires p < |fmt| && IsTypeCode(fmt[p])
    requires ScanFmt(fmt[..p], host) == Scan(items, digits, order, true)
    requires ArgsFit(ScanFmt(fmt, host).items, vals)
    ensures AllDigits(digits) && AllCodes(items)
    ensures ScanFmt(fmt[..p + 1], host)
            == Scan(items + [Item(fmt[p], RepeatCount(digits), order)], [], order, true)
    ensures AllCodes(items + [Item(fmt[p], RepeatCount(digits), order)])
    ensures Size(items + [Item(fmt[p], RepeatCount(digits), order)]) <= Size(ScanFmt(fmt, host).items)
    ensures ArgsFit(items + [Item(fmt[p], RepeatCount(digits), order)], vals)
  {
    NextItem(fmt, p, host, items, digits, order);
    ArgsFitPrefix(items + [Item(fmt[p], RepeatCount(digits), order)], ScanFmt(fmt, host).items, vals);
  }

  /** What the interpreter knows when character `p` of an accepted prefix is
      not a type code: a marker changes the order, a digit joins `num_buf`,
      anything else is refused. */
  lemma {:induction false} NextOther(fmt: string, p: nat, host: Order, items: seq<Item>, digits: seq<char>, order: Order)
    requires p < |fmt| && !IsTypeCode(fmt[p])
    requires ScanFmt(fmt[..p], host) == Scan(items, digits, order, true)
    ensures IsOrderMark(fmt[p]) ==> ScanFmt(fmt[..p + 1], host) == Scan(items, digits, MarkOrder(fmt[p], host), true)
    ensures IsDigit(fmt[p]) ==> ScanFmt(fmt[..p + 1], host) == Scan(items, digits + [fmt[p]], order, true)
    ensures !Recognized(fmt[p]) ==> ScanFmt(fmt, host).items == items && CalcSizeOf(fmt) == -1
  {
    var c := fmt[p];
    assert fmt[..p + 1] == fmt[..p] + [c];
    ScanAppend(fmt[..p], c, host);
    if !Recognized(c) {
      FailureIsFinal(fmt, p + 1, host);
      TallyAgreesWithScan(fmt, host);
    }
  }

  /** At the end of an accepted format, the directives executed are all of
      them and the cursor has advanced by what `struct_calcsize` returns. */
  lemma {:induction false} Finished(fmt: string, host: Order, items: seq<Item>, digits: seq<char>, order: Order)
    requires ScanFmt(fmt[..|fmt|], host) == Scan(items, digits, order, true)
    ensures ScanFmt(fmt, host).items == items && CalcSizeOf(fmt) == Size(items)
  {
    assert fmt[..|fmt|] == fmt;
    TallyAgreesWithScan(fmt, host);
  }

  /** The state of `pack_va_list` after the first `p` characters of the
      format: the interpreter state of `ScanFmt`, the cursor `bp` past the
      bytes of every directive so far, `vi` arguments consumed, and the
      buffer holding the original bytes around those directives' bytes. */
  ghost predicate PackedUpTo(b: seq<byte>, o: seq<byte>, offset: nat, fmt: string, p: nat, host: Order,
                             vals: seq<Value>, items: seq<Item>, digits: seq<char>, order: Order,
                             bp: nat, vi: nat)
  {
    && p <= |fmt| && |b| == |o|
    && ScanFmt(fmt[..p], host) == Scan(items, digits, order, true)
    && AllCodes(items) && ArgsFit(items, vals)
    && bp == offset + Size(items) && bp <= |o| && vi == Needed(items)
    && b == o[..offset] + PackAll(items, vals, host) + o[bp..]
  }

  /** The whole format's directives fit the arguments, and their bytes fit
      in a buffer of `len` bytes from `offset` on. */
  ghost predicate Room(len: nat, offset: nat, fmt: string, host: Order, vals: seq<Value>)
  {
    offset + Size(ScanFmt(fmt, host).items) <= len && ArgsFit(ScanFmt(fmt, host).items, vals)
  }

  /** A directive whose arguments are there from `vi` on and whose bytes fit
      from the cursor `bp` on. */
  ghost predicate ItemReady(it: Item, vals: seq<Value>, vi: nat, bp: nat, len: nat)
  {
    IsTypeCode(it.code) && ItemFits(it, vals, vi) && bp + Span(it.count, Width(it.code)) <= len
  }

  /** At a type code, the directive CHECK_REPETITION resolves can be packed. */
  lemma {:induction false} CodeReady(b: seq<byte>, o: seq<byte>, offset: nat, fmt: string, p: nat, host: Order,
                  vals: seq<Value>, items: seq<Item>, digits: seq<char>, order: Order, bp: nat, vi: nat)
    requires p < |fmt| && IsTypeCode(fmt[p]) && Room(|o|, offset, fmt, host, vals)
    requires PackedUpTo(b, o, offset, fmt, p, host, vals, items, digits, order, bp, vi)
    ensures AllDigits(digits)
    ensures ItemReady(Item(fmt[p], RepeatCount(digits), order), vals, vi, bp, |o|)
  {
    var it := Item(fmt[p], RepeatCount(digits), order);
    NextDirective(fmt, p, host, vals, items, digits, order);
    PackAllAppend(items + [it], items, it, vals, vi, host);
  }

  /** ... and once it is packed at the cursor, the interpreter state is that
      after character `p`. */
  lemma {:induction false} CodeDone(b: seq<byte>, b2: seq<byte>, o: seq<byte>, offset: nat, fmt: string, p: nat, q: nat,
                 host: Order, vals: seq<Value>, items: seq<Item>, digits: seq<char>, order: Order, bp: nat, vi: nat,
                 it: Item, all: seq<Item>, bp2: nat, vi2: nat)
    requires p < |fmt| && q == p + 1 && IsTypeCode(fmt[p]) && Room(|o|, offset, fmt, host, vals)
    requires PackedUpTo(b, o, offset, fmt, p, host, vals, items, digits, order, bp, vi)
    requires it == Item(fmt[p], RepeatCount(digits), order) && all == items + [it]
    requires ItemReady(it, vals, vi, bp, |o|)
    requires bp2 == bp + Span(it.count, Width(it.code)) && vi2 == vi + Uses(it)
    requires b2 == b[..bp] + PackItem(it, vals, vi, host) + b[bp2..]
    ensures PackedUpTo(b2, o, offset, fmt, q, host, vals, all, [], order, bp2, vi2)
  {
    NextDirective(fmt, p, host, vals, items, digits, order);
    PackAllAppend(all, items, it, vals, vi, host);
    ExtendPacked(o, b, b2, offset, bp, bp2, PackAll(items, vals, host), PackItem(it, vals, vi, host),
                 PackAll(all, vals, host));
  }

  /** The type-code cases of `pack_va_list`'s switch, on character `p`:
      CHECK_REPETITION resolves the pending digits into a count, `num_buf`
      is emptied, and the directive is packed at the cursor. */
  method PackCode(buf: array<byte>, offset: nat, ghost fmt: string, p: nat, c: char, vals: seq<Value>, host: Order,
                  ghost o: seq<byte>, ghost items: seq<Item>, order: Order, digits: seq<char>, bp: nat, vi: nat)
    returns (ghost items1: seq<Item>, digits1: seq<char>, bp1: nat, vi1: nat)
    requires p < |fmt| && c == fmt[p] && IsTypeCode(c) && Room(buf.Length, offset, fmt, host, vals)
    requires PackedUpTo(buf[..], o, offset, fmt, p, host, vals, items, digits, order, bp, vi)
    modifies buf
    ensures PackedUpTo(buf[..], o, offset, fmt, p + 1, host, vals, items1, digits1, order, bp1, vi1)
  {
    CodeReady(buf[..], o, offset, fmt, p, host, vals, items, digits, order, bp, vi);
    var it := Item(c, RepeatCount(digits), order);
    ghost var before := buf[..];
    bp1, vi1 := PackDirective(buf, bp, it, vals, vi, host);
    items1, digits1 := items + [it], [];
    CodeDone(before, buf[..], o, offset, fmt, p, p + 1, host, vals, items, digits, order, bp, vi, it, items1, bp1, vi1);
  }

  /** The buffer `pack_va_list` leaves: the original bytes around the
      packing of the directives it executed. */
  ghost predicate PackedAll(b: seq<byte>, o: seq<byte>, offset: nat, fmt: string, host: Order, vals: seq<Value>)
    requires Room(|o|, offset, fmt, host, vals)
  {
    b == o[..offset] + PackAll(ScanFmt(fmt, host).items, vals, host)
         + o[offset + Size(ScanFmt(fmt, host).items)..]
  }

  /** A refused character: the directives before it are packed. */
  lemma {:induction false} PackRefused(b: seq<byte>, o: seq<byte>, offset: nat, fmt: string, p: nat, host: Order, vals: seq<Value>,
                    items: seq<Item>, digits: seq<char>, order: Order, bp: nat, vi: nat)
    requires Room(|o|, offset, fmt, host, vals)
    requires PackedUpTo(b, o, offset, fmt, p, host, vals, items, digits, order, bp, vi)
    requires ScanFmt(fmt, host).items == items
    ensures PackedAll(b, o, offset, fmt, host, vals)
  {
  }

  /** One pass of `pack_va_list`'s switch, on character `p`: a marker sets
      the order, a digit joins `num_buf`, a type code packs its directive,
      anything else is refused (`ok` false). */
  method PackChar(buf: array<byte>, offset: nat, ghost fmt: string, p: nat, c: char, vals: seq<Value>, host: Order,
                  ghost o: seq<byte>, ghost items: seq<Item>, order: Order, digits: seq<char>, bp: nat, vi: nat)
    returns (ok: bool, ghost items1: seq<Item>, order1: Order, digits1: seq<char>, bp1: nat, vi1: nat)
    requires p < |fmt| && c == fmt[p] && Room(buf.Length, offset, fmt, host, vals)
    requires PackedUpTo(buf[..], o, offset, fmt, p, host, vals, items, digits, order, bp, vi)
    modifies buf
    ensures ok ==> PackedUpTo(buf[..], o, offset, fmt, p + 1, host, vals, items1, digits1, order1, bp1, vi1)
    ensures !ok ==> CalcSizeOf(fmt) == -1 && PackedAll(buf[..], o, offset, fmt, host, vals)
  {
    items1, order1, digits1, bp1, vi1 := items, order, digits, bp, vi;
    ok := true;
    if IsTypeCode(c) {
      items1, digits1, bp1, vi1 := PackCode(buf, offset, fmt, p, c, vals, host, o, items, order, digits, bp, vi);
    } else {
      NextOther(fmt, p, host, items, digits, order);
      if c == '=' {
        order1 := host;
      } else if c == '<' {
        order1 := Little;
      } else if c == '>' || c == '!' {
        order1 := Big;
      } else if IsDigit(c) {
        digits1 := digits + [c];
      } else {
        PackRefused(buf[..], o, offset, fmt, p, host, vals, items, digits, order, bp, vi);
        ok := false;
      }
    }
  }

  /** The loop ran to the end of the format: every directive is packed and
      the cursor stands `struct_calcsize(fmt)` bytes past `offset`. */
  lemma {:induction false} PackFinished(b: seq<byte>, o: seq<byte>, offset: nat, fmt: string, host: Order, vals: seq<Value>,
                     items: seq<Item>, digits: seq<char>, order: Order, bp: nat, vi: nat)
    requires Room(|o|, offset, fmt, host, vals)
    requires PackedUpTo(b, o, offset, fmt, |fmt|, host, vals, items, digits, order, bp, vi)
    ensures CalcSizeOf(fmt) >= 0 && bp == offset + CalcSizeOf(fmt)
    ensures PackedAll(b, o, offset, fmt, host, vals)
  {
    Finished(fmt, host, items, digits, order);
  }

  /** `pack_va_list(buf, offset, fmt, args)`: interprets the format, storing
      the arguments from `buf + offset` on.  It returns the cursor's final
      distance from `buf` (offset plus `struct_calcsize(fmt)`), or -1 at
      the first character it does not recognize, after having stored the
      directives before it.  Bytes outside those the directives cover are
      left as they were. */
  method PackVaList(buf: array<byte>, offset: nat, fmt: string, vals: seq<Value>, host: Order)
    returns (ret: int)
    requires Room(buf.Length, offset, CStr(fmt), host, vals)
    modifies buf
    ensures ret == if CalcSizeOf(CStr(fmt)) < 0 then -1 else offset + CalcSizeOf(CStr(fmt))
    ensures PackedAll(buf[..], old(buf[..]), offset, CStr(fmt), host, vals)
  {
    ghost var cs := CStr(fmt);
    ghost var o := buf[..];
    ghost var items: seq<Item> := [];
    var order := host;
    var digits: seq<char> := [];
    var bp := offset;
    var vi := 0;
    var p := 0;
    assert cs[..0] == [];
    while p < |fmt| && fmt[p] != '\0'
      invariant p <= |cs|
      invariant PackedUpTo(buf[..], o, offset, cs, p, host, vals, items, digits, order, bp, vi)
    {
      CStrAt(fmt, p);
      var ok;
      ok, items, order, digits, bp, vi := PackChar(buf, offset, cs, p, fmt[p], vals, host, o, items, order, digits, bp, vi);
      if !ok {
        return -1;
      }
      p := p + 1;
    }
    CStrAt(fmt, p);
    PackFinished(buf[..], o, offset, cs, host, vals, items, digits, order, bp, vi);
    ret := bp;
  }

  /** One repetition of a numeric case of `unpack_va_list`: the byte at
      the cursor for `b` and `B` (a `char` is signed, an `unsigned char` not),
      otherwise `unpack_intN` or `unpack_uintN` in the active order. */
  method ReadNumber(buf: array<byte>, at: nat, c: char, order: Order, host: Order) returns (v: Value)
    requires IsNumeric(c) && at + Width(c) <= buf.Length
    ensures v == Decode(c, buf[at..at + Width(c)], order, host)
  {
    var w := Width(c);
    if w == 1 {
      var raw := buf[at] as nat;
      assert buf[at..at + 1][0] == buf[at];
      v := Num(KindOf(c), if IsSigned(c) then ToSigned(raw, 1) else raw);
    } else if IsSigned(c) {
      var n, _ := UnpackInt(buf, at, w, order, host);
      v := Num(KindOf(c), n);
    } else {
      var n, _ := UnpackUInt(buf, at, w, order, host);
      v := Num(KindOf(c), n);
    }
  }

  /** The inner loop of a numeric case of `unpack_va_list`: `num` values,
      one per destination. */
  method UnpackNumbers(buf: array<byte>, bp: nat, c: char, order: Order, num: nat, host: Order)
    returns (next: nat, got: seq<Value>)
    requires IsNumeric(c) && bp + Span(num, Width(c)) <= buf.Length
    ensures next == bp + Span(num, Width(c))
    ensures got == UnpackRep(c, order, buf[..], bp, num, host)
  {
    var w := Width(c);
    next := bp;
    got := [];
    var i := 0;
    while i < num
      invariant 0 <= i <= num
      invariant next == bp + Span(i, w) && next <= bp + Span(num, w)
      invariant got == UnpackRep(c, order, buf[..], bp, i, host)
    {
      var k := i + 1;
      SpanMono(k, num, w);
      SpanStep(i, k, w);
      RepUnfold(c, order, buf[..], bp, i, k, next, host);
      var v := ReadNumber(buf, next, c, order, host);
      assert buf[next..next + w] == buf[..][next..next + w];
      got := got + [v];
      next := next + w;
      i := k;
    }
  }

  /** The inner loop of the `s` case of `unpack_va_list`: `num` bytes
      copied one at a time into one destination. */
  method ReadString(buf: array<byte>, bp: nat, num: nat) returns (next: nat, str: seq<byte>)
    requires bp + num <= buf.Length
    ensures next == bp + num && str == buf[bp..next]
  {
    next := bp;
    str := [];
    var i := 0;
    while i < num
      invariant 0 <= i <= num && next == bp + i
      invariant str == buf[bp..next]
    {
      str := str + [buf[next]];
      next := next + 1;
      i := i + 1;
    }
  }

  /** One case of `unpack_va_list`'s switch for a type code, after
      CHECK_REPETITION. */
  method UnpackDirective(buf: array<byte>, bp: nat, it: Item, host: Order)
    returns (next: nat, got: seq<Value>)
    requires IsTypeCode(it.code) && bp + Span(it.count, Width(it.code)) <= buf.Length
    ensures next == bp + Span(it.count, Width(it.code))
    ensures got == UnpackItem(it, buf[..], bp, host)
  {
    if it.code == 's' {
      SpanOfBytes(it.count);
      var str;
      next, str := ReadString(buf, bp, it.count);
      got := [Chars(str)];
    } else {
      next, got := UnpackNumbers(buf, bp, it.code, it.order, it.count, host);
    }
  }

  /** The state of `unpack_va_list` after the first `p` characters of the
      format: the interpreter state of `ScanFmt`, the cursor `bp` past the
      bytes of every directive so far, and the values stored so far. */
  ghost predicate UnpackedUpTo(s: seq<byte>, offset: nat, fmt: string, p: nat, host: Order,
                               outs: seq<Value>, items: seq<Item>, digits: seq<char>, order: Order, bp: nat)
  {
    && p <= |fmt|
    && ScanFmt(fmt[..p], host) == Scan(items, digits, order, true)
    && AllCodes(items) && bp == offset + Size(items) && bp <= |s|
    && outs == UnpackAll(items, s, offset, host)
  }

  /** The bytes of the whole format's directives lie within `len` bytes from
      `offset` on. */
  ghost predicate Within(len: nat, offset: nat, fmt: string, host: Order) {
    offset + Size(ScanFmt(fmt, host).items) <= len
  }

  /** At a type code, the directive CHECK_REPETITION resolves can be read. */
  lemma {:induction false} ReadReady(s: seq<byte>, offset: nat, fmt: string, p: nat, host: Order,
                  outs: seq<Value>, items: seq<Item>, digits: seq<char>, order: Order, bp: nat)
    requires p < |fmt| && IsTypeCode(fmt[p]) && Within(|s|, offset, fmt, host)
    requires UnpackedUpTo(s, offset, fmt, p, host, outs, items, digits, order, bp)
    ensures AllDigits(digits)
    ensures bp + Span(RepeatCount(digits), Width(fmt[p])) <= |s|
  {
    var it := Item(fmt[p], RepeatCount(digits), order);
    NextItem(fmt, p, host, items, digits, order);
    SizeSnoc(items, it);
  }

  /** ... and once it is read, the interpreter state is that after
      character `p`. */
  lemma {:induction false} ReadDone(s: seq<byte>, offset: nat, fmt: string, p: nat, host: Order,
                 outs: seq<Value>, items: seq<Item>, digits: seq<char>, order: Order, bp: nat, got: seq<Value>)
    requires p < |fmt| && IsTypeCode(fmt[p]) && Within(|s|, offset, fmt, host)
    requires UnpackedUpTo(s, offset, fmt, p, host, outs, items, digits, order, bp)
    requires AllDigits(digits) && bp + Span(RepeatCount(digits), Width(fmt[p])) <= |s|
    requires got == UnpackItem(Item(fmt[p], RepeatCount(digits), order), s, bp, host)
    ensures UnpackedUpTo(s, offset, fmt, p + 1, host, outs + got, items + [Item(fmt[p], RepeatCount(digits), order)],
                         [], order, bp + Span(RepeatCount(digits), Width(fmt[p])))
  {
    NextItem(fmt, p, host, items, digits, order);
    UnpackAllAppend(items + [Item(fmt[p], RepeatCount(digits), order)], items, Item(fmt[p], RepeatCount(digits), order),
                    s, offset, bp, host);
  }

  /** The type-code cases of `unpack_va_list`'s switch, on character `p`. */
  method UnpackCode(buf: array<byte>, offset: nat, ghost fmt: string, p: nat, c: char, host: Order,
                    outs: seq<Value>, ghost items: seq<Item>, order: Order, digits: seq<char>, bp: nat)
    returns (outs1: seq<Value>, ghost items1: seq<Item>, digits1: seq<char>, bp1: nat)
    requires p < |fmt| && c == fmt[p] && IsTypeCode(c) && Within(buf.Length, offset, fmt, host)
    requires UnpackedUpTo(buf[..], offset, fmt, p, host, outs, items, digits, order, bp)
    ensures UnpackedUpTo(buf[..], offset, fmt, p + 1, host, outs1, items1, digits1, order, bp1)
  {
    ReadReady(buf[..], offset, fmt, p, host, outs, items, digits, order, bp);
    var got;
    bp1, got := UnpackDirective(buf, bp, Item(c, RepeatCount(digits), order), host);
    ReadDone(buf[..], offset, fmt, p, host, outs, items, digits, order, bp, got);
    outs1, items1, digits1 := outs + got, items + [Item(c, RepeatCount(digits), order)], [];
  }

  /** A refused character: the values stored are those of the directives
      before it. */
  lemma {:induction false} ReadRefused(s: seq<byte>, offset: nat, fmt: string, p: nat, host: Order,
                    outs: seq<Value>, items: seq<Item>, digits: seq<char>, order: Order, bp: nat)
    requires Within(|s|, offset, fmt, host)
    requires UnpackedUpTo(s, offset, fmt, p, host, outs, items, digits, order, bp)
    requires ScanFmt(fmt, host).items == items
    ensures outs == UnpackAll(ScanFmt(fmt, host).items, s, offset, host)
  {
  }

  /** One pass of `unpack_va_list`'s switch, on character `p`. */
  method UnpackChar(buf: array<byte>, offset: nat, ghost fmt: string, p: nat, c: char, host: Order,
                    outs: seq<Value>, ghost items: seq<Item>, order: Order, digits: seq<char>, bp: nat)
    returns (ok: bool, outs1: seq<Value>, ghost items1: seq<Item>, order1: Order, digits1: seq<char>, bp1: nat)
    requires p < |fmt| && c == fmt[p] && Within(buf.Length, offset, fmt, host)
    requires UnpackedUpTo(buf[..], offset, fmt, p, host, outs, items, digits, order, bp)
    ensures ok ==> UnpackedUpTo(buf[..], offset, fmt, p + 1, host, outs1, items1, digits1, order1, bp1)
    ensures !ok ==> CalcSizeOf(fmt) == -1 && outs1 == UnpackAll(ScanFmt(fmt, host).items, buf[..], offset, host)
  {
    outs1, items1, order1, digits1, bp1 := outs, items, order, digits, bp;
    ok := true;
    if IsTypeCode(c) {
      outs1, items1, digits1, bp1 := UnpackCode(buf, offset, fmt, p, c, host, outs, items, order, digits, bp);
    } else {
      NextOther(fmt, p, host, items, digits, order);
      if c == '=' {
        order1 := host;
      } else if c == '<' {
        order1 := Little;
      } else if c == '>' || c == '!' {
        order1 := Big;
      } else if IsDigit(c) {
        digits1 := digits + [c];
      } else {
        ReadRefused(buf[..], offset, fmt, p, host, outs, items, digits, order, bp);
        ok := false;
      }
    }
  }

  /** The loop ran to the end of the format. */
  lemma {:induction false} ReadFinished(s: seq<byte>, offset: nat, fmt: string, host: Order,
                     outs: seq<Value>, items: seq<Item>, digits: seq<char>, order: Order, bp: nat)
    requires Within(|s|, offset, fmt, host)
    requires UnpackedUpTo(s, offset, fmt, |fmt|, host, outs, items, digits, order, bp)
    ensures CalcSizeOf(fmt) >= 0 && bp == offset + CalcSizeOf(fmt)
    ensures outs == UnpackAll(ScanFmt(fmt, host).items, s, offset, host)
  {
    Finished(fmt, host, items, digits, order);
  }

  /** `unpack_va_list(buf, offset, fmt, args)`: interprets the format,
      reading from `buf + offset` on and storing through one destination per
      number (one per `s` directive).  It returns the cursor's final distance
      from `buf`, or -1 at the first character it does not recognize, after
      having stored the values of the directives before it. */
  method UnpackVaList(buf: array<byte>, offset: nat, fmt: string, host: Order)
    returns (ret: int, outs: seq<Value>)
    requires Within(buf.Length, offset, CStr(fmt), host)
    ensures ret == if CalcSizeOf(CStr(fmt)) < 0 then -1 else offset + CalcSizeOf(CStr(fmt))
    ensures outs == UnpackAll(ScanFmt(CStr(fmt), host).items, buf[..], offset, host)
  {
    ghost var cs := CStr(fmt);
    ghost var items: seq<Item> := [];
    var order := host;
    var digits: seq<char> := [];
    var bp := offset;
    var p := 0;
    outs := [];
    assert cs[..0] == [];
    while p < |fmt| && fmt[p] != '\0'
      invariant p <= |cs|
      invariant UnpackedUpTo(buf[..], offset, cs, p, host, outs, items, digits, order, bp)
    {
      CStrAt(fmt, p);
      var ok;
      ok, outs, items, order, digits, bp := UnpackChar(buf, offset, cs, p, fmt[p], host, outs, items, order, digits, bp);
      if !ok {
        return -1, outs;
      }
      p := p + 1;
    }
    CStrAt(fmt, p);
    ReadFinished(buf[..], offset, cs, host, outs, items, digits, order, bp);
    ret := bp;
  }

  /** `struct_calcsize`'s state one character further on is one step of it. */
  lemma {:induction false} TallyNext(fmt: string, p: nat, c: char, total: nat, digits: seq<char>)
    requires p < |fmt| && c == fmt[p] && TallyFmt(fmt[..p]) == Tally(total, digits, true)
    ensures AllDigits(digits) && TallyFmt(fmt[..p + 1]) == TallyStep(Tally(total, digits, true), c)
  {
    TakeOneMore(fmt, p);
    TallyAppend(fmt[..p], c);
  }

  /** `struct_calcsize(fmt)`: the sum of count times width over the
      directives, markers adding nothing, or -1 at the first character that
      is not recognized. */
  method CalcSize(fmt: string) returns (ret: int)
    ensures ret == CalcSizeOf(CStr(fmt))
  {
    ghost var cs := CStr(fmt);
    var total: nat := 0;
    var digits: seq<char> := [];
    var p := 0;
    assert cs[..0] == [];
    while p < |fmt| && fmt[p] != '\0'
      invariant p <= |cs|
      invariant TallyFmt(cs[..p]) == Tally(total, digits, true)
    {
      CStrAt(fmt, p);
      var c := fmt[p];
      TallyNext(cs, p, c, total, digits);
      if IsOrderMark(c) {
      } else if IsTypeCode(c) {
        SpanIsProduct(RepeatCount(digits), Width(c));
        total := total + RepeatCount(digits) * Width(c);
        digits := [];
      } else if IsDigit(c) {
        digits := digits + [c];
      } else {
        TallyFailureIsFinal(cs, p + 1);
        return -1;
      }
      p := p + 1;
    }
    CStrAt(fmt, p);
    assert cs[..p] == cs;
    ret := total;
  }

  /** `struct_pack(buf, fmt, ...)`: `pack_va_list` from the start of the
      buffer, so it returns `struct_calcsize(fmt)` itself. */
  method Pack(buf: array<byte>, fmt: string, vals: seq<Value>, host: Order) returns (ret: int)
    requires Room(buf.Length, 0, CStr(fmt), host, vals)
    modifies buf
    ensures ret == CalcSizeOf(CStr(fmt))
    ensures PackedAll(buf[..], old(buf[..]), 0, CStr(fmt), host, vals)
  {
    CalcSizeRefusedIff(CStr(fmt));
    ret := PackVaList(buf, 0, fmt, vals, host);
  }

  /** `struct_pack_into(offset, buf, fmt, ...)`: `pack_va_list` from
      `buf + offset`; it returns offset plus `struct_calcsize(fmt)`. */
  method PackInto(offset: nat, buf: array<byte>, fmt: string, vals: seq<Value>, host: Order) returns (ret: int)
    requires Room(buf.Length, offset, CStr(fmt), host, vals)
    modifies buf
    ensures ret == if CalcSizeOf(CStr(fmt)) < 0 then -1 else offset + CalcSizeOf(CStr(fmt))
    ensures PackedAll(buf[..], old(buf[..]), offset, CStr(fmt), host, vals)
  {
    ret := PackVaList(buf, offset, fmt, vals, host);
  }

  /** `struct_unpack(buf, fmt, ...)`: `unpack_va_list` from the start of
      the buffer. */
  method Unpack(buf: array<byte>, fmt: string, host: Order) returns (ret: int, outs: seq<Value>)
    requires Within(buf.Length, 0, CStr(fmt), host)
    ensures ret == CalcSizeOf(CStr(fmt))
    ensures outs == UnpackAll(ScanFmt(CStr(fmt), host).items, buf[..], 0, host)
  {
    CalcSizeRefusedIff(CStr(fmt));
    ret, outs := UnpackVaList(buf, 0, fmt, host);
  }

  /** `struct_unpack_from(offset, buf, fmt, ...)`: `unpack_va_list` from
      `buf + offset`. */
  method UnpackFrom(offset: nat, buf: array<byte>, fmt: string, host: Order) returns (ret: int, outs: seq<Value>)
    requires Within(buf.Length, offset, CStr(fmt), host)
    ensures ret == if CalcSizeOf(CStr(fmt)) < 0 then -1 else offset + CalcSizeOf(CStr(fmt))
    ensures outs == UnpackAll(ScanFmt(CStr(fmt), host).items, buf[..], offset, host)
  {
    ret, outs := UnpackVaList(buf, offset, fmt, host);
  }

  /** Whatever `pack_va_list` leaves in the buffer, `unpack_va_list` with
      the same format and offset reads back exactly the arguments the
      directives consumed, whenever every number is within its type and
      every string exactly as long as its directive. */
  lemma {:induction false} PackedAllUnpacks(b: seq<byte>, o: seq<byte>, offset: nat, fmt: string, host: Order, vals: seq<Value>)
    requires Room(|o|, offset, fmt, host, vals) && ArgsExact(ScanFmt(fmt, host).items, vals)
    requires PackedAll(b, o, offset, fmt, host, vals)
    ensures Within(|b|, offset, fmt, host)
    ensures UnpackAll(ScanFmt(fmt, host).items, b, offset, host) == vals[..Needed(ScanFmt(fmt, host).items)]
  {
    var items := ScanFmt(fmt, host).items;
    var packed := PackAll(items, vals, host);
    assert b[offset..offset + Size(items)] == packed by {
      assert b == (o[..offset] + packed) + o[offset + Size(items)..];
      assert |o[..offset] + packed| == offset + Size(items);
    }
    RecordRoundTrip(items, vals, b, offset, host);
  }

  /** A `struct_pack_into` followed by a `struct_unpack_from` of the same
      format at the same offset: both return the same value, and the
      destinations receive the arguments. */
  method PackThenUnpack(buf: array<byte>, offset: nat, fmt: string, vals: seq<Value>, host: Order)
    returns (packed: int, unpacked: int, outs: seq<Value>)
    requires Room(buf.Length, offset, CStr(fmt), host, vals) && ArgsExact(ScanFmt(CStr(fmt), host).items, vals)
    modifies buf
    ensures packed == unpacked
    ensures outs == vals[..Needed(ScanFmt(CStr(fmt), host).items)]
  {
    ghost var o := buf[..];
    packed := PackInto(offset, buf, fmt, vals, host);
    PackedAllUnpacks(buf[..], o, offset, CStr(fmt), host, vals);
    unpacked, outs := UnpackFrom(offset, buf, fmt, host);
  }
}
