/** How the size estimate relates to the size really used. */
module QapSizes {
  import opened Bytes
  import opened Rsrv
  import opened Sexps
  import opened Sums
  import opened QapLayout

  /** Raw and logical vectors of length one, which the estimate takes for empty. */
  function OwnShort(b: Body): nat
  {
    match b
    case Raw(s) => if |s| == 1 then 1 else 0
    case Logicals(s) => if |s| == 1 then 1 else 0
    case _ => 0
  }

  function KidShorts(x: Sexp): (s: seq<nat>)
    ensures |s| == KidCount(x)
    decreases x, 0
  {
    seq(KidCount(x), k requires 0 <= k < KidCount(x) => Shorts(Kid(x, k)))
  }

  /** How many of them the value contains. */
  function Shorts(x: Sexp): nat
    decreases x, 1
  {
    OwnShort(x.body) + Sum(KidShorts(x), KidCount(x))
  }

  // ---- what the estimate counts without its being stored ----

  /** How far n is from the next multiple of four. */
  function Gap(n: nat): nat { (4 - n % 4) % 4 }

  /** A string is estimated as a value of its own, with a header, and aligned. Only the byte that
      escapes a leading 0xff is not foreseen; NA is foreseen as the two letters. */
  function StringSlack(s: RString): (n: nat)
    ensures n >= 3
  {
    match s
    case StringNA => 6
    case Text(c) =>
      4 + Gap(|c| + 1) + (if |c| >= 0xff_ffec then 4 else 0) - if c != [] && c[0] == 0xff then 1 else 0
  }

  function StringSlacks(s: seq<RString>): (l: seq<nat>)
    ensures |l| == |s|
  {
    seq(|s|, i requires 0 <= i < |s| => StringSlack(s[i]))
  }

  /** NULL is estimated as a value of unknown type, the tags of an untagged list as NULL, and
      strings as values of their own, which are aligned together instead. */
  function OwnSlack(b: Body): nat
  {
    match b
    case Null => 4
    case Strings(s) =>
      StringsCovered(s, |s|);
      Sum(StringSlacks(s), |s|) - Gap(|EscapedAll(s, |s|)|)
    case Pairs(_, cells) => if IsTagged(cells) then 0 else 8 * |cells|
    case _ => 0
  }

  function KidSlacks(x: Sexp): (s: seq<nat>)
    ensures |s| == KidCount(x)
    decreases x, 0
  {
    seq(KidCount(x), k requires 0 <= k < KidCount(x) => Slack(Kid(x, k)))
  }

  /** The bytes that are estimated for x and the values in it, but not stored. */
  function Slack(x: Sexp): nat
    decreases x, 1
  {
    OwnSlack(x.body) + Sum(KidSlacks(x), KidCount(x))
  }

  // ---- the estimate node by node ----

  function SlotStorages(b: Body): (s: seq<nat>)
    ensures |s| == SlotCount(b)
  {
    seq(SlotCount(b), k requires 0 <= k < SlotCount(b) => Storage(Slot(b, k)))
  }

  function KidStorages(x: Sexp): (s: seq<nat>)
    ensures |s| == KidCount(x)
    ensures forall k :: 0 <= k < KidCount(x) ==> s[k] == Storage(Kid(x, k))
  {
    (if x.attr.Attributes? then [Storage(x.attr.list)] else []) + SlotStorages(x.body)
  }

  /** What a body's slots are estimated at, and the tags that are not stored. */
  lemma PartsMeasured(b: Body)
    requires NodeIsR(Sexp(NoAttributes, b))
    ensures PartsStorage(b)
         == Sum(SlotStorages(b), SlotCount(b)) + if b.Pairs? && !IsTagged(b.cells) then 8 * |b.cells| else 0
  {
    hide Storage;
    match b
    case Vector(_, elems) =>
      SumSame(SlotStorages(b), seq(|elems|, i requires 0 <= i < |elems| => Storage(elems[i])), |elems|);
    case Pairs(_, cells) =>
      CellsMeasured(b);
    case Closure(formals, code) =>
      assert Sum(SlotStorages(b), 2) == Sum(SlotStorages(b), 1) + Storage(code);
    case _ =>
  }

  lemma TagStorage(t: Sexp)
    requires IsTag(t)
    ensures Storage(t) >= 8 && (t == NIL ==> Storage(t) == 8)
  {
  }

  lemma {:induction false} TagsExceed(s: seq<nat>, k: nat)
    requires k <= |s| && forall i :: 0 <= i < |s| ==> s[i] >= 8
    ensures Sum(s, k) >= 8 * k
  {
    if k > 0 {
      TagsExceed(s, k - 1);
    }
  }

  lemma CellsMeasured(b: Body)
    requires b.Pairs? && NodeIsR(Sexp(NoAttributes, b))
    ensures PartsStorage(b)
         == Sum(SlotStorages(b), SlotCount(b)) + if IsTagged(b.cells) then 0 else 8 * |b.cells|
  {
    hide Storage, IsTagged;
    var cells := b.cells;
    var cars := seq(|cells|, i requires 0 <= i < |cells| => Storage(cells[i].car));
    var tags := seq(|cells|, i requires 0 <= i < |cells| => Storage(cells[i].tag));
    forall i | 0 <= i < |cells| ensures tags[i] >= 8 {
      TagStorage(cells[i].tag);
    }
    TagsExceed(tags, |cells|);
    assert PartsStorage(b) == Sum(cars, |cells|) + Sum(tags, |cells|);
    if IsTagged(cells) {
      SumInterleaved(cars, tags, SlotStorages(b), |cells|);
    } else {
      SumSame(SlotStorages(b), cars, |cells|);
      NoTags(cells, tags);
    }
  }

  lemma NoTags(cells: seq<Cell>, tags: seq<nat>)
    requires !IsTagged(cells) && |tags| == |cells|
    requires forall i :: 0 <= i < |cells| ==> tags[i] == Storage(cells[i].tag)
    ensures Sum(tags, |tags|) == 8 * |cells|
  {
    hide Storage;
    forall i | 0 <= i < |cells| ensures tags[i] == 8 {
      TagStorage(cells[i].tag);
    }
    SumConstant(tags, 8, |tags|);
  }

  lemma KidsMeasured(x: Sexp)
    requires NodeIsR(x)
    ensures (if x.attr.Attributes? then Storage(x.attr.list) else 0) + PartsStorage(x.body)
         == Sum(KidStorages(x), KidCount(x))
            + if x.body.Pairs? && !IsTagged(x.body.cells) then 8 * |x.body.cells| else 0
  {
    hide Storage, PartsStorage, SlotCount, Slot, SlotStorages, IsTagged;
    PartsMeasured(x.body);
    if x.attr.Attributes? {
      SumPrepend(Storage(x.attr.list), SlotStorages(x.body), SlotCount(x.body));
    } else {
      SumSame(KidStorages(x), SlotStorages(x.body), KidCount(x));
    }
  }

  lemma ElementMeasured(s: RString)
    ensures CharStorage(ElementLength(s)) == |Escaped(s)| + StringSlack(s)
  {
  }

  lemma {:induction false} StringsCovered(s: seq<RString>, n: nat)
    requires n <= |s|
    ensures Gap(|EscapedAll(s, n)|) <= Sum(StringSlacks(s), n)
  {
    hide Escaped, StringSlack;
    if n > 0 {
      assert StringSlacks(s)[n - 1] >= 3;
    }
  }

  lemma {:induction false} StringsMeasured(s: seq<RString>, n: nat)
    requires n <= |s|
    ensures var sizes := seq(|s|, i requires 0 <= i < |s| => CharStorage(ElementLength(s[i])));
      Sum(sizes, n) == |EscapedAll(s, n)| + Sum(StringSlacks(s), n)
  {
    hide Escaped, CharStorage, StringSlack;
    if n > 0 {
      StringsMeasured(s, n - 1);
      ElementMeasured(s[n - 1]);
    }
  }

  lemma AlignIs(n: nat)
    ensures Align(n) == n + Gap(n)
  {
  }

  lemma AtomMeasured(b: Body)
    ensures AtomStorage(b) + 4 * OwnShort(b) == AtomSize(b) + if b.Pairs? then 0 else OwnSlack(b)
  {
    hide EscapedAll, CharStorage, StringSlack, Gap, Align;
    match b
    case Strings(s) =>
      StringsMeasured(s, |s|);
      AlignIs(|EscapedAll(s, |s|)|);
    case Raw(s) => assert Align(0) == 0 && Align(1) == 4;
    case Logicals(s) => assert Align(0) == 0 && Align(1) == 4;
    case _ =>
  }

  lemma AtomCovered(b: Body)
    ensures AtomSize(b) <= AtomStorage(b) + 4 * OwnShort(b)
  {
    hide AtomSize, AtomStorage, OwnShort, OwnSlack;
    AtomMeasured(b);
  }

  /** The account of the estimate: what is stored and what is only estimated is what was estimated
      and four bytes for every raw or logical vector of length one. */
  lemma {:induction false} EstimateAccount(x: Sexp)
    requires IsR(x)
    ensures Size(x) + Slack(x) == Storage(x) + 4 * Shorts(x)
    decreases x
  {
    hide PartsStorage, AtomStorage, AtomSize, SlotCount, Slot, SlotStorages, OwnShort;
    KidsAccount(x);
    KidsMeasured(x);
    AtomMeasured(x.body);
    if x.body.Null? {
      NullStorage(x);
    }
  }

  lemma NullStorage(x: Sexp)
    requires NodeIsR(x) && x.body.Null?
    ensures Storage(x) == 8
  {
  }

  lemma {:induction false} KidsAccount(x: Sexp)
    requires IsR(x)
    ensures KidOffset(x, KidCount(x)) + Sum(KidSlacks(x), KidCount(x))
         == Sum(KidStorages(x), KidCount(x)) + 4 * Sum(KidShorts(x), KidCount(x))
    decreases x, 0
  {
    hide Storage, Size, SlotCount, Slot, Shorts, Slack, SlotStorages;
    forall k | 0 <= k < KidCount(x)
      ensures KidSizes(x)[k] + KidSlacks(x)[k] == KidStorages(x)[k] + 4 * KidShorts(x)[k]
    {
      EstimateAccount(Kid(x, k));
    }
    SumBalance(KidSizes(x), KidSlacks(x), KidStorages(x), KidShorts(x), KidCount(x));
  }

  /** The serialiser stays within the estimate, except for at most four bytes per raw or
      logical vector of length one anywhere in the value. */
  lemma SizeBound(x: Sexp)
    requires IsR(x)
    ensures Size(x) <= Storage(x) + 4 * Shorts(x)
    ensures 4 + Payload(x) <= Storage(x) + 4 * Shorts(x)
  {
    hide Storage, Payload, Shorts, Slack;
    EstimateAccount(x);
  }

  /** Values in which nothing is estimated that is not stored, or the other way round: numbers,
      names, raw and logical vectors of a length other than one, and vectors, tagged pairlists and
      closures of such values, with attributes of the same kind. */
  predicate Foreseen(x: Sexp)
    decreases x
  {
    && !x.body.Null? && OwnShort(x.body) == 0
    && (x.body.Strings? ==> x.body.strings == [])
    && (x.body.Pairs? ==> IsTagged(x.body.cells))
    && forall k :: 0 <= k < KidCount(x) ==> Foreseen(Kid(x, k))
  }

  /** For these the estimate is the size. */
  lemma {:induction false} EstimateExact(x: Sexp)
    requires IsR(x) && Foreseen(x)
    ensures Storage(x) == Size(x) && Slack(x) == 0 == Shorts(x)
    decreases x
  {
    hide Storage, Size, SlotCount, Slot, OwnShort;
    forall k | 0 <= k < KidCount(x)
      ensures KidSlacks(x)[k] == 0 && KidShorts(x)[k] == 0
    {
      EstimateExact(Kid(x, k));
    }
    SumConstant(KidSlacks(x), 0, KidCount(x));
    SumConstant(KidShorts(x), 0, KidCount(x));
    EstimateAccount(x);
  }

  /** The estimates, in bytes, of c(1, 2, 3), a complex number, NULL, the name f and c("abc", NA). */
  lemma EstimatesSpelled(d: Double, z: Complex)
    ensures Storage(Sexp(NoAttributes, Reals([d, d, d]))) == 28 && Storage(Sexp(NoAttributes, Complexes([z]))) == 20
    ensures Storage(NIL) == Storage(Sexp(NoAttributes, Symbol([0x66]))) == 8
    ensures Storage(Sexp(NoAttributes, Strings([Text([0x61, 0x62, 0x63]), StringNA]))) == 20
  {
    var texts := [Text([0x61, 0x62, 0x63]), StringNA];
    var sizes := seq(2, i requires 0 <= i < 2 => CharStorage(ElementLength(texts[i])));
    assert StringsStorage(texts) == Sum(sizes, 2) == Sum(sizes, 1) + sizes[1] == sizes[0] + sizes[1] == 16;
  }

  /** Those of a call of f without arguments, and of c(1, 2, 3) with f as an attribute called f. */
  lemma ListEstimatesSpelled(d: Double)
    ensures var three, f := Reals([d, d, d]), Sexp(NoAttributes, Symbol([0x66]));
      && Storage(Sexp(NoAttributes, Pairs(true, [Cell(f, NIL)]))) == 20
      && Storage(Sexp(Attributes(Sexp(NoAttributes, Pairs(false, [Cell(f, f)]))), three)) == 48
  {
    hide PartsStorage;
    var f := Sexp(NoAttributes, Symbol([0x66]));
    NoParts(d);
    OneCell(true, f, NIL);
    OneCell(false, f, f);
  }

  lemma NoParts(d: Double)
    ensures Storage(NIL) == Storage(Sexp(NoAttributes, Symbol([0x66]))) == 8 && PartsStorage(Reals([d, d, d])) == 0
  {
  }

  lemma OneCell(isCall: bool, car: Sexp, tag: Sexp)
    requires IsTag(tag)
    ensures PartsStorage(Pairs(isCall, [Cell(car, tag)])) == Storage(car) + Storage(tag)
  {
    hide Storage;
    TagStorage(tag);
    var cells := [Cell(car, tag)];
    var cars := seq(1, i requires 0 <= i < 1 => Storage(cells[i].car));
    var tags := seq(1, i requires 0 <= i < 1 => Storage(cells[i].tag));
    assert Sum(cars, 1) == Sum(cars, 0) + Storage(car) && Sum(tags, 1) == Sum(tags, 0) + Storage(tag);
  }

  lemma AtomCoversShort(b: Body)
    ensures 8 * OwnShort(b) <= 4 + AtomStorage(b)
  {
    hide CharStorage, StringsStorage;
  }

  /** Every such vector is estimated at eight bytes at least. */
  lemma {:induction false} ShortsBound(x: Sexp)
    requires IsR(x)
    ensures 8 * Shorts(x) <= Storage(x)
    decreases x
  {
    hide PartsStorage, AtomStorage, SlotCount, Slot, SlotStorages, OwnShort;
    forall k | 0 <= k < KidCount(x)
      ensures 8 * KidShorts(x)[k] <= KidStorages(x)[k]
    {
      ShortsBound(Kid(x, k));
    }
    EightFold(KidShorts(x), KidStorages(x), KidCount(x));
    KidsMeasured(x);
    AtomCoversShort(x.body);
  }

  lemma {:induction false} EightFold(s: seq<nat>, t: seq<nat>, k: nat)
    requires k <= |s| == |t| && forall i :: 0 <= i < |s| ==> 8 * s[i] <= t[i]
    ensures 8 * Sum(s, k) <= Sum(t, k)
  {
    if k > 0 {
      EightFold(s, t, k - 1);
    }
  }

  /** So what exceeds a size that is expected to fit a short header does not exceed it by much. */
  lemma PayloadBelowTwice(x: Sexp, ss: nat)
    requires IsR(x) && Storage(x) <= ss <= LARGE_LIMIT
    ensures Payload(x) <= 0x180_0000
  {
    hide Storage, Payload, Shorts;
    SizeBound(x);
    ShortsBound(x);
  }

  lemma AtomSizeAligned(b: Body)
    ensures AtomSize(b) % 4 == 0
  {
    hide EscapedAll, Align;
    match b
    case Raw(s) => AlignedSum(4, Align(|s|));
    case Logicals(s) => AlignedSum(4, Align(|s|));
    case _ =>
  }

  lemma AlignedSum(a: nat, b: nat)
    requires a % 4 == 0 && b % 4 == 0
    ensures (a + b) % 4 == 0
  {
  }

  /** Every stored value is a multiple of four bytes long. */
  lemma {:induction false} SizeAligned(x: Sexp)
    ensures Size(x) % 4 == 0 && Payload(x) % 4 == 0
    decreases x, 1
  {
    hide Storage, SlotCount, Slot, AtomSize, KidSizes;
    KidsAligned(x, KidCount(x));
    AtomSizeAligned(x.body);
    AlignedSum(KidOffset(x, KidCount(x)), AtomSize(x.body));
    AlignedSum(HeadSize(x, Storage(x)), Payload(x));
  }

  lemma {:induction false} KidsAligned(x: Sexp, n: nat)
    requires n <= KidCount(x)
    ensures KidOffset(x, n) % 4 == 0
    decreases x, 0
  {
    hide Storage, SlotCount, Slot, AtomSize, Size;
    forall k | 0 <= k < KidCount(x)
      ensures KidSizes(x)[k] % 4 == 0
    {
      SizeAligned(Kid(x, k));
    }
    SumAligned(KidSizes(x), n);
  }

  /** A generic vector of n logicals of length one. */
  function Flags(n: nat): Sexp
  {
    Sexp(NoAttributes, Vector(false, seq(n, _ => Sexp(NoAttributes, Logicals([True])))))
  }

  /** The bound is met exactly: n such elements use four bytes each above the estimate. */
  lemma SizeBoundIsTight(n: nat)
    ensures IsR(Flags(n)) && Shorts(Flags(n)) == n
    ensures Storage(Flags(n)) == Bump(4 + 8 * n)
    ensures Size(Flags(n)) == Storage(Flags(n)) + 4 * n
  {
    FlagsMeasured(n);
  }

  lemma FlagsMeasured(n: nat)
    ensures IsR(Flags(n)) && Shorts(Flags(n)) == n && Payload(Flags(n)) == 12 * n
    ensures Storage(Flags(n)) == Bump(4 + 8 * n)
  {
    var x := Flags(n);
    var e := Sexp(NoAttributes, Logicals([True]));
    assert forall k :: 0 <= k < n ==> Kid(x, k) == e;
    assert Storage(e) == 8 && Size(e) == 12 && Shorts(e) == 1 && IsR(e);
    SumConstant(KidSizes(x), 12, n);
    SumConstant(KidShorts(x), 1, n);
    SumConstant(seq(n, i requires 0 <= i < n => Storage(x.body.elems[i])), 8, n);
  }
}
