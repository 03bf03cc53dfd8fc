/** A repeat count is shorthand: a count of n before a numeric type code
    gives the same size, the same bytes and the same values as n copies of
    the code. */
module Repetition {
  import opened Bytes
  import opened IntCodec
  import opened Format
  import opened Layout

  /** n copies of the character c. */
  function Copies(c: char, n: nat): (r: string)
    ensures |r| == n
  {
    if n == 0 then [] else Copies(c, n - 1) + [c]
  }

  /** `items` followed by n directives of count 1 for the code c, in one
      order. */
  function WithOnes(items: seq<Item>, c: char, order: Order, n: nat): (r: seq<Item>)
    ensures |r| == |items| + n
  {
    if n == 0 then items else WithOnes(items, c, order, n - 1) + [Item(c, 1, order)]
  }

  /** One more directive of count 1; m is the count before it. */
  lemma {:induction false} OnesUnfold(items: seq<Item>, c: char, order: Order, m: nat, n: nat)
    requires m == n - 1
    ensures WithOnes(items, c, order, n) == WithOnes(items, c, order, m) + [Item(c, 1, order)]
  {
  }

  lemma {:induction false} CopiesSnoc(pre: string, c: char, m: nat, n: nat)
    requires m == n - 1
    ensures pre + Copies(c, n) == (pre + Copies(c, m)) + [c]
  {
    var t := Copies(c, m);
    assert Copies(c, n) == t + [c];
    assert pre + (t + [c]) == (pre + t) + [c];
  }

  /** After an accepted prefix with no pending digits, n copies of a type
      code are n directives of count 1, in the order then active. */
  ghost predicate CopiesScanned(pre: string, c: char, n: nat, host: Order) {
    && IsTypeCode(c) && ScanFmt(pre, host).ok && ScanFmt(pre, host).digits == []
    && ScanFmt(pre + Copies(c, n), host)
       == Scan(WithOnes(ScanFmt(pre, host).items, c, ScanFmt(pre, host).order, n),
               [], ScanFmt(pre, host).order, true)
  }

  lemma {:induction false} CopiesStep(pre: string, c: char, m: nat, n: nat, host: Order)
    requires m == n - 1 && CopiesScanned(pre, c, m, host)
    ensures CopiesScanned(pre, c, n, host)
  {
    CopiesSnoc(pre, c, m, n);
    OnesUnfold(ScanFmt(pre, host).items, c, ScanFmt(pre, host).order, m, n);
    ScanAppend(pre + Copies(c, m), c, host);
  }

  lemma {:induction false} ScanCopies(pre: string, c: char, n: nat, host: Order)
    requires IsTypeCode(c) && ScanFmt(pre, host).ok && ScanFmt(pre, host).digits == []
    ensures CopiesScanned(pre, c, n, host)
  {
    if n == 0 {
      assert pre + Copies(c, 0) == pre;
    } else {
      var m := n - 1;
      ScanCopies(pre, c, m, host);
      CopiesStep(pre, c, m, n, host);
    }
  }

  /** The directive list with n directives of count 1 appended: its codes,
      size and consumed arguments. */
  ghost predicate OnesShaped(items: seq<Item>, c: char, order: Order, n: nat) {
    && IsNumeric(c) && AllCodes(items) && AllCodes(WithOnes(items, c, order, n))
    && Size(WithOnes(items, c, order, n)) == Size(items) + Span(n, Width(c))
    && Needed(WithOnes(items, c, order, n)) == Needed(items) + n
  }

  lemma {:induction false} OnesShapeStep(items: seq<Item>, c: char, order: Order, m: nat, n: nat)
    requires m == n - 1 && OnesShaped(items, c, order, m)
    ensures OnesShaped(items, c, order, n)
  {
    OnesUnfold(items, c, order, m, n);
    SpanStep(m, n, Width(c));
    SizeSnoc(WithOnes(items, c, order, m), Item(c, 1, order));
    NeededSnoc(WithOnes(items, c, order, m), Item(c, 1, order));
  }

  lemma {:induction false} OnesShape(items: seq<Item>, c: char, order: Order, n: nat)
    requires IsNumeric(c) && AllCodes(items)
    ensures OnesShaped(items, c, order, n)
  {
    if n > 0 {
      var m := n - 1;
      OnesShape(items, c, order, m);
      OnesShapeStep(items, c, order, m, n);
    }
  }

  /** The n arguments from `from` on are numbers of the type c reads. */
  ghost predicate RunFits(c: char, vals: seq<Value>, from: nat, n: nat) {
    IsNumeric(c) && from + n <= |vals| && forall j :: from <= j < from + n ==> Fits(c, vals[j])
  }

  /** n directives of count 1 after `items` pack as one of count n would. */
  ghost predicate OnesPacked(items: seq<Item>, c: char, order: Order, n: nat, vals: seq<Value>, host: Order) {
    && AllCodes(items) && ArgsFit(items, vals) && RunFits(c, vals, Needed(items), n)
    && AllCodes(WithOnes(items, c, order, n)) && ArgsFit(WithOnes(items, c, order, n), vals)
    && PackAll(WithOnes(items, c, order, n), vals, host)
       == PackAll(items, vals, host) + PackRep(c, order, vals, Needed(items), n, host)
  }

  /** The last of n repetitions, argument `at`, packs as a directive of
      count 1 after the first m = n - 1. */
  ghost predicate RunEndsInOne(c: char, order: Order, vals: seq<Value>, from: nat, m: nat, n: nat, at: nat, host: Order) {
    && m == n - 1 && at == from + m && RunFits(c, vals, from, n) && ItemFits(Item(c, 1, order), vals, at)
    && PackRep(c, order, vals, from, n, host)
       == PackRep(c, order, vals, from, m, host) + PackItem(Item(c, 1, order), vals, at, host)
  }

  lemma {:induction false} PackOne(c: char, order: Order, vals: seq<Value>, from: nat, m: nat, n: nat, at: nat, host: Order)
    requires m == n - 1 && at == from + m && RunFits(c, vals, from, n)
    ensures RunEndsInOne(c, order, vals, from, m, n, at, host)
  {
    assert Fits(c, vals[at]);
    assert PackRep(c, order, vals, from, n, host) == PackRep(c, order, vals, from, m, host) + Encode(c, vals[at].n, order, host);
    assert PackRep(c, order, vals, at, 1, host) == Encode(c, vals[at].n, order, host);
  }

  /** A run that grows by one piece, after a fixed front part. */
  lemma {:induction false} Regroup<T>(whole: seq<T>, front: seq<T>, run: seq<T>, piece: seq<T>, grown: seq<T>, longer: seq<T>)
    requires whole == front + run && grown == whole + piece && longer == run + piece
    ensures grown == front + longer
  {
  }

  /** The list with n directives of count 1 packs what the list with m = n - 1
      packs, then the last directive. */
  lemma {:induction false} OnesPackSnoc(items: seq<Item>, c: char, order: Order, m: nat, n: nat, at: nat, vals: seq<Value>, host: Order)
    requires m == n - 1 && OnesShaped(items, c, order, m) && ArgsFit(WithOnes(items, c, order, m), vals)
    requires at == Needed(items) + m && ItemFits(Item(c, 1, order), vals, at)
    ensures PacksThen(WithOnes(items, c, order, n), WithOnes(items, c, order, m), Item(c, 1, order), vals, at, host)
  {
    OnesUnfold(items, c, order, m, n);
    PackAllSnoc(WithOnes(items, c, order, n), WithOnes(items, c, order, m), Item(c, 1, order), vals, at, host);
  }

  lemma {:induction false} OnesPackStep(items: seq<Item>, c: char, order: Order, m: nat, n: nat, at: nat, vals: seq<Value>, host: Order)
    requires m == n - 1 && at == Needed(items) + m && RunFits(c, vals, Needed(items), n)
    requires OnesShaped(items, c, order, m)
    requires OnesPacked(items, c, order, m, vals, host)
    ensures OnesPacked(items, c, order, n, vals, host)
  {
    PackOne(c, order, vals, Needed(items), m, n, at, host);
    OnesPackSnoc(items, c, order, m, n, at, vals, host);
    Regroup(PackAll(WithOnes(items, c, order, m), vals, host), PackAll(items, vals, host),
            PackRep(c, order, vals, Needed(items), m, host),
            PackItem(Item(c, 1, order), vals, at, host),
            PackAll(WithOnes(items, c, order, n), vals, host),
            PackRep(c, order, vals, Needed(items), n, host));
  }

  /** Packing n directives of count 1 stores what one directive of count n
      stores. */
  lemma {:induction false} OnesPack(items: seq<Item>, c: char, order: Order, n: nat, vals: seq<Value>, host: Order)
    requires AllCodes(items) && ArgsFit(items, vals) && RunFits(c, vals, Needed(items), n)
    ensures OnesPacked(items, c, order, n, vals, host)
  {
    if n > 0 {
      var m := n - 1;
      var at := Needed(items) + m;
      OnesPack(items, c, order, m, vals, host);
      OnesShape(items, c, order, m);
      OnesPackStep(items, c, order, m, n, at, vals, host);
    }
  }

  /** n directives of count 1 after `items`, read from `pos` on, unpack as
      one of count n read at `base`, where the bytes of `items` end. */
  ghost predicate OnesUnpacked(items: seq<Item>, c: char, order: Order, n: nat, s: seq<byte>, pos: nat, base: nat, host: Order) {
    && IsNumeric(c) && AllCodes(items) && AllCodes(WithOnes(items, c, order, n)) && base == pos + Size(items)
    && UnpackAll(WithOnes(items, c, order, n), s, pos, host)
       == UnpackAll(items, s, pos, host) + UnpackRep(c, order, s, base, n, host)
  }

  /** The last of n repetitions, read at `at`, reads as a directive of count 1
      after the first m = n - 1. */
  ghost predicate RepEndsInOne(c: char, order: Order, s: seq<byte>, base: nat, m: nat, n: nat, at: nat, host: Order) {
    && IsNumeric(c)
    && UnpackRep(c, order, s, base, n, host)
       == UnpackRep(c, order, s, base, m, host) + UnpackItem(Item(c, 1, order), s, at, host)
  }

  /** A directive of count 1 reads the one value at `at`. */
  ghost predicate ReadsOne(c: char, order: Order, s: seq<byte>, at: nat, host: Order) {
    IsNumeric(c) && UnpackItem(Item(c, 1, order), s, at, host) == [Decode(c, Window(s, at, Width(c)), order, host)]
  }

  lemma {:induction false} ReadOne(c: char, order: Order, s: seq<byte>, at: nat, host: Order)
    requires IsNumeric(c)
    ensures ReadsOne(c, order, s, at, host)
  {
    assert Span(0, Width(c)) == 0;
  }

  lemma {:induction false} UnpackOne(c: char, order: Order, s: seq<byte>, base: nat, m: nat, n: nat, at: nat, host: Order)
    requires IsNumeric(c) && m == n - 1 && at == base + Span(m, Width(c))
    ensures RepEndsInOne(c, order, s, base, m, n, at, host)
  {
    RepUnfold(c, order, s, base, m, n, at, host);
    ReadOne(c, order, s, at, host);
  }

  /** The list with n directives of count 1 reads what the list with m = n - 1
      reads, then the last directive at `at`, where the bytes of the m end. */
  lemma {:induction false} OnesLastRead(items: seq<Item>, c: char, order: Order, m: nat, n: nat, s: seq<byte>, pos: nat, at: nat, host: Order)
    requires m == n - 1 && IsNumeric(c) && AllCodes(WithOnes(items, c, order, m))
    requires at == pos + Size(WithOnes(items, c, order, m))
    ensures ReadsThen(WithOnes(items, c, order, n), WithOnes(items, c, order, m), Item(c, 1, order), s, pos, at, host)
  {
    OnesUnfold(items, c, order, m, n);
    UnpackAllAppend(WithOnes(items, c, order, n), WithOnes(items, c, order, m), Item(c, 1, order), s, pos, at, host);
  }

  lemma {:induction false} OnesUnpackStep(items: seq<Item>, c: char, order: Order, m: nat, n: nat, s: seq<byte>, pos: nat, base: nat, at: nat, host: Order)
    requires m == n - 1 && OnesShaped(items, c, order, m) && at == pos + Size(WithOnes(items, c, order, m))
    requires OnesUnpacked(items, c, order, m, s, pos, base, host)
    ensures OnesUnpacked(items, c, order, n, s, pos, base, host)
  {
    OnesLastRead(items, c, order, m, n, s, pos, at, host);
    UnpackOne(c, order, s, base, m, n, at, host);
    Regroup(UnpackAll(WithOnes(items, c, order, m), s, pos, host), UnpackAll(items, s, pos, host),
            UnpackRep(c, order, s, base, m, host),
            UnpackItem(Item(c, 1, order), s, at, host),
            UnpackAll(WithOnes(items, c, order, n), s, pos, host),
            UnpackRep(c, order, s, base, n, host));
  }

  /** Unpacking n directives of count 1 reads what one directive of count n
      reads. */
  lemma {:induction false} OnesUnpack(items: seq<Item>, c: char, order: Order, n: nat,
                                      s: seq<byte>, pos: nat, base: nat, host: Order)
    requires IsNumeric(c) && AllCodes(items) && base == pos + Size(items)
    ensures OnesUnpacked(items, c, order, n, s, pos, base, host)
  {
    if n > 0 {
      var m := n - 1;
      OnesUnpack(items, c, order, m, s, pos, base, host);
      OnesShape(items, c, order, m);
      var at := pos + Size(WithOnes(items, c, order, m));
      OnesUnpackStep(items, c, order, m, n, s, pos, base, at, host);
    } else {
      assert WithOnes(items, c, order, n) == items;
    }
  }

  /** Argument `at` exists and is a number of the code's type. */
  ghost predicate LastFits(c: char, vals: seq<Value>, at: nat) {
    IsNumeric(c) && at < |vals| && Fits(c, vals[at])
  }

  /** A run of matching numbers grows by one matching number. */
  lemma {:induction false} RunFitsSnoc(c: char, vals: seq<Value>, from: nat, m: nat, n: nat, at: nat)
    requires m == n - 1 && at == from + m && RunFits(c, vals, from, m) && LastFits(c, vals, at)
    ensures RunFits(c, vals, from, n)
  {
  }

  /** The arguments match the list before the run and then n numbers of
      the code's type. */
  ghost predicate FitsBefore(items: seq<Item>, c: char, n: nat, vals: seq<Value>) {
    AllCodes(items) && ArgsFit(items, vals) && RunFits(c, vals, Needed(items), n)
  }

  /** Arguments that match n directives of count 1 match the first m = n - 1,
      and the next one, argument `at`, is a number of the code's type. */
  ghost predicate FitsFront(items: seq<Item>, c: char, order: Order, m: nat, at: nat, vals: seq<Value>) {
    && AllCodes(WithOnes(items, c, order, m)) && ArgsFit(WithOnes(items, c, order, m), vals)
    && LastFits(c, vals, at)
  }

  lemma {:induction false} FitLast(items: seq<Item>, c: char, order: Order, m: nat, n: nat, at: nat, vals: seq<Value>)
    requires m == n - 1 && IsNumeric(c) && AllCodes(items) && at == Needed(items) + m
    requires AllCodes(WithOnes(items, c, order, n)) && ArgsFit(WithOnes(items, c, order, n), vals)
    ensures FitsFront(items, c, order, m, at, vals)
  {
    OnesShape(items, c, order, m);
    OnesUnfold(items, c, order, m, n);
    ArgsFitAppend(WithOnes(items, c, order, n), WithOnes(items, c, order, m), Item(c, 1, order), vals);
    OneFits(c, order, vals, WithOnes(items, c, order, m), at);
  }

  /** A directive of count 1 whose argument is `at` reads a number of the
      code's type there. */
  lemma {:induction false} OneFits(c: char, order: Order, vals: seq<Value>, init: seq<Item>, at: nat)
    requires IsNumeric(c) && Needed(init) == at && FitsThen(init, Item(c, 1, order), vals)
    ensures LastFits(c, vals, at)
  {
    assert Fits(c, vals[Needed(init)]);
  }

  lemma {:induction false} OnesFitStep(items: seq<Item>, c: char, order: Order, m: nat, n: nat, at: nat, vals: seq<Value>)
    requires m == n - 1 && at == Needed(items) + m
    requires FitsBefore(items, c, m, vals) && FitsFront(items, c, order, m, at, vals)
    ensures FitsBefore(items, c, n, vals)
  {
    RunFitsSnoc(c, vals, Needed(items), m, n, at);
  }

  /** The converse of packing: arguments that match n directives of count 1
      match the list before them and are n numbers of the code's type. */
  lemma {:induction false} OnesFitBack(items: seq<Item>, c: char, order: Order, n: nat, vals: seq<Value>)
    requires IsNumeric(c) && AllCodes(items) && AllCodes(WithOnes(items, c, order, n))
    requires ArgsFit(WithOnes(items, c, order, n), vals)
    ensures FitsBefore(items, c, n, vals)
  {
    if n > 0 {
      var m := n - 1;
      var at := Needed(items) + m;
      FitLast(items, c, order, m, n, at, vals);
      OnesFitBack(items, c, order, m, vals);
      OnesFitStep(items, c, order, m, n, at, vals);
    } else {
      assert WithOnes(items, c, order, n) == items;
    }
  }

  /** A format that reached a type code with nothing pending. */
  ghost predicate Settled(pre: string, host: Order) {
    ScanFmt(pre, host).ok && ScanFmt(pre, host).digits == []
  }

  /** "4h" and "hhhh": the digits d then the code c leave the interpreter in
      the same state as RepeatCount(d) copies of c, except that the one
      directive of count n is n directives of count 1; and `struct_calcsize`
      gives both the same size. */
  lemma {:induction false} RepeatSameSize(pre: string, d: string, c: char, host: Order)
    requires Settled(pre, host) && AllDigits(d) && IsNumeric(c)
    ensures ScanFmt(pre + d + [c], host)
            == Scan(ScanFmt(pre, host).items + [Item(c, RepeatCount(d), ScanFmt(pre, host).order)],
                    [], ScanFmt(pre, host).order, true)
    ensures ScanFmt(pre + Copies(c, RepeatCount(d)), host)
            == Scan(WithOnes(ScanFmt(pre, host).items, c, ScanFmt(pre, host).order, RepeatCount(d)),
                    [], ScanFmt(pre, host).order, true)
    ensures CalcSizeOf(pre + d + [c]) == CalcSizeOf(pre + Copies(c, RepeatCount(d))) >= 0
  {
    RepeatCountInCurrentOrder(pre, d, c, host);
    ScanCopies(pre, c, RepeatCount(d), host);
    OnesShape(ScanFmt(pre, host).items, c, ScanFmt(pre, host).order, RepeatCount(d));
    SizeSnoc(ScanFmt(pre, host).items, Item(c, RepeatCount(d), ScanFmt(pre, host).order));
    TallyAgreesWithScan(pre + d + [c], host);
    TallyAgreesWithScan(pre + Copies(c, RepeatCount(d)), host);
  }

  /** Two directive lists that consume as many arguments and read the same
      values from any bytes. */
  ghost predicate ReadAlike(a: seq<Item>, b: seq<Item>, s: seq<byte>, pos: nat, host: Order) {
    && AllCodes(a) && AllCodes(b) && Needed(a) == Needed(b)
    && UnpackAll(a, s, pos, host) == UnpackAll(b, s, pos, host)
  }

  /** One directive of count n reads as n directives of count 1. */
  ghost predicate CountAsOnes(items: seq<Item>, c: char, order: Order, n: nat, s: seq<byte>, pos: nat, host: Order) {
    ReadAlike(items + [Item(c, n, order)], WithOnes(items, c, order, n), s, pos, host)
  }

  /** Two directive lists that read the same values from any bytes. */
  ghost predicate SameReads(a: seq<Item>, b: seq<Item>, s: seq<byte>, pos: nat, host: Order) {
    AllCodes(a) && AllCodes(b) && UnpackAll(a, s, pos, host) == UnpackAll(b, s, pos, host)
  }

  /** A list ending in a numeric directive of count n reads the list before
      it, then the n repetitions at `base`, where the bytes of the list end. */
  ghost predicate EndsInRep(all: seq<Item>, items: seq<Item>, c: char, order: Order, n: nat, s: seq<byte>, pos: nat, base: nat, host: Order) {
    && IsNumeric(c) && AllCodes(items) && AllCodes(all)
    && UnpackAll(all, s, pos, host) == UnpackAll(items, s, pos, host) + UnpackRep(c, order, s, base, n, host)
  }

  lemma {:induction false} CountSplit(all: seq<Item>, items: seq<Item>, c: char, order: Order, n: nat, s: seq<byte>, pos: nat, base: nat, host: Order)
    requires all == items + [Item(c, n, order)] && IsNumeric(c) && AllCodes(items) && base == pos + Size(items)
    ensures EndsInRep(all, items, c, order, n, s, pos, base, host)
  {
    UnpackAllAppend(all, items, Item(c, n, order), s, pos, base, host);
    UnpackNumeric(Item(c, n, order), s, base, host);
  }

  lemma {:induction false} CountValuesAsOnes(all: seq<Item>, items: seq<Item>, c: char, order: Order, n: nat, s: seq<byte>, pos: nat, host: Order)
    requires all == items + [Item(c, n, order)] && IsNumeric(c) && AllCodes(items)
    ensures SameReads(all, WithOnes(items, c, order, n), s, pos, host)
  {
    var base := pos + Size(items);
    OnesUnpack(items, c, order, n, s, pos, base, host);
    CountSplit(all, items, c, order, n, s, pos, base, host);
  }

  lemma {:induction false} CountReadsAsOnes(items: seq<Item>, c: char, order: Order, n: nat, s: seq<byte>, pos: nat, host: Order)
    requires IsNumeric(c) && AllCodes(items)
    ensures CountAsOnes(items, c, order, n, s, pos, host)
  {
    OnesShape(items, c, order, n);
    NeededSnoc(items, Item(c, n, order));
    CountValuesAsOnes(items + [Item(c, n, order)], items, c, order, n, s, pos, host);
  }

  /** "4h" and "hhhh" consume as many arguments and read the same values
      from the same bytes. */
  lemma {:induction false} RepeatSameValues(pre: string, d: string, c: char, s: seq<byte>, pos: nat, host: Order)
    requires Settled(pre, host) && AllDigits(d) && IsNumeric(c)
    ensures ReadAlike(ScanFmt(pre + d + [c], host).items, ScanFmt(pre + Copies(c, RepeatCount(d)), host).items,
                      s, pos, host)
  {
    RepeatSameSize(pre, d, c, host);
    CountReadsAsOnes(ScanFmt(pre, host).items, c, ScanFmt(pre, host).order, RepeatCount(d), s, pos, host);
  }

  /** "4h" and "hhhh" accept the same arguments and pack them into the same
      bytes. */
  lemma {:induction false} RepeatSameBytes(pre: string, d: string, c: char, vals: seq<Value>, host: Order)
    requires Settled(pre, host) && AllDigits(d) && IsNumeric(c)
    ensures ArgsFit(ScanFmt(pre + d + [c], host).items, vals)
            <==> ArgsFit(ScanFmt(pre + Copies(c, RepeatCount(d)), host).items, vals)
    ensures ArgsFit(ScanFmt(pre + d + [c], host).items, vals)
            ==> PackAll(ScanFmt(pre + d + [c], host).items, vals, host)
                == PackAll(ScanFmt(pre + Copies(c, RepeatCount(d)), host).items, vals, host)
  {
    RepeatSameSize(pre, d, c, host);
    var items := ScanFmt(pre, host).items;
    var order := ScanFmt(pre, host).order;
    var n := RepeatCount(d);
    var it := Item(c, n, order);
    var all := items + [it];
    assert all[..|all| - 1] == items;
    OnesShape(items, c, order, n);
    if ArgsFit(all, vals) {
      PackAllAppend(all, items, it, vals, Needed(items), host);
      OnesPack(items, c, order, n, vals, host);
    }
    if ArgsFit(WithOnes(items, c, order, n), vals) {
      OnesFitBack(items, c, order, n, vals);
      PackAllSnoc(all, items, it, vals, Needed(items), host);
    }
  }
}
