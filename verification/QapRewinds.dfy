/** Values with attributes that their own headers cannot hold: which of them are read back. */
module QapRewinds {
  import opened Bytes
  import opened Rsrv
  import opened Sexps
  import opened Sums
  import opened QapLayout
  import opened QapSizes
  import opened QapImage
  import opened QapTheorems

  function Name(c: byte): Sexp { Sexp(NoAttributes, Symbol([c])) }

  function Zeros(n: nat): Sexp { Sexp(NoAttributes, Raw(seq(n, _ => 0))) }

  lemma NameMeasured(c: byte)
    requires c != 0
    ensures IsR(Name(c)) && Readable(Name(c)) && IsTag(Name(c)) && Storage(Name(c)) == 8 == Size(Name(c))
  {
    assert NoNul([c]);
    assert KidCount(Name(c)) == 0 && KidOffset(Name(c), 0) == 0;
  }

  lemma ZerosMeasured(n: nat)
    requires 1 < n && n <= 16777076 && n % 4 == 0
    ensures IsR(Zeros(n)) && Readable(Zeros(n)) && Storage(Zeros(n)) == 8 + n == Size(Zeros(n))
  {
    assert Align(n) == n;
    assert KidCount(Zeros(n)) == 0 && KidOffset(Zeros(n), 0) == 0;
  }

  lemma NineFlags()
    ensures IsR(Flags(9)) && Readable(Flags(9)) && Storage(Flags(9)) == 76 && Size(Flags(9)) == 112
  {
    FlagsMeasured(9);
    FlagsReadable(9);
    hide Flags;
  }

  lemma FlagsReadable(n: nat)
    ensures Readable(Flags(n))
  {
    assert forall k :: 0 <= k < n ==> Kid(Flags(n), k) == Sexp(NoAttributes, Logicals([True]));
    assert Readable(Sexp(NoAttributes, Logicals([True])));
  }

  // ---- a list of two named values ----

  function Pair(a: Sexp, s: Sexp, b: Sexp, t: Sexp): Sexp
  {
    Sexp(NoAttributes, Pairs(false, [Cell(a, s), Cell(b, t)]))
  }

  lemma PairKids(a: Sexp, s: Sexp, b: Sexp, t: Sexp)
    requires s != NIL
    ensures var x := Pair(a, s, b, t);
      KidCount(x) == 4 && Kid(x, 0) == a && Kid(x, 1) == s && Kid(x, 2) == b && Kid(x, 3) == t
  {
    var cells := [Cell(a, s), Cell(b, t)];
    assert cells[0].tag != NIL;
    assert IsTagged(cells);
  }

  lemma FourKids(x: Sexp)
    requires KidCount(x) == 4 && AtomSize(x.body) == 0
    ensures Payload(x) == Size(Kid(x, 0)) + Size(Kid(x, 1)) + Size(Kid(x, 2)) + Size(Kid(x, 3))
  {
    hide Size, Slot, SlotCount, AtomSize;
    KidOffsetStep(x, 0);
    KidOffsetStep(x, 1);
    KidOffsetStep(x, 2);
    KidOffsetStep(x, 3);
    NoneBefore(x);
  }

  lemma NodeAndFour(x: Sexp)
    requires KidCount(x) == 4
    ensures NodeIsR(x) && IsR(Kid(x, 0)) && IsR(Kid(x, 1)) && IsR(Kid(x, 2)) && IsR(Kid(x, 3)) ==> IsR(x)
    ensures NodeReadable(x) && Readable(Kid(x, 0)) && Readable(Kid(x, 1)) && Readable(Kid(x, 2)) && Readable(Kid(x, 3))
      ==> Readable(x)
  {
    hide NodeIsR, NodeReadable, Slot, SlotCount;
  }

  lemma PairStorage(a: Sexp, s: Sexp, b: Sexp, t: Sexp)
    requires Storage(s) == Storage(t) == 8
    ensures Storage(Pair(a, s, b, t)) == Bump(4 + Storage(a) + Storage(b) + 16)
  {
    var cells := [Cell(a, s), Cell(b, t)];
    PartsOfTwo(cells);
    hide PartsStorage;
    assert Pair(a, s, b, t).body == Pairs(false, cells);
  }

  lemma PartsOfTwo(cells: seq<Cell>)
    requires |cells| == 2 && Storage(cells[0].tag) == Storage(cells[1].tag) == 8
    ensures PartsStorage(Pairs(false, cells)) == Storage(cells[0].car) + Storage(cells[1].car) + 16
  {
    hide Storage;
    var cars := seq(2, i requires 0 <= i < 2 => Storage(cells[i].car));
    var tags := seq(2, i requires 0 <= i < 2 => Storage(cells[i].tag));
    assert Sum(cars, 2) == Sum(cars, 1) + cars[1] && Sum(cars, 1) == cars[0];
    assert Sum(tags, 2) == Sum(tags, 1) + tags[1] && Sum(tags, 1) == tags[0];
  }

  /** An attribute list that takes exactly 2^24 bytes, but is estimated at a little less. */
  predicate Overlong(l: Sexp)
  {
    && IsR(l) && Readable(l) && l.body.Pairs? && !l.body.isCall
    && Storage(l) == 16777180 && Payload(l) == LEN24 - 4
  }

  /** A raw vector just below 16 megabytes and nine single logicals make one. */
  lemma SomeOverlong() returns (l: Sexp)
    ensures Overlong(l)
  {
    NameMeasured(0x61);
    NameMeasured(0x66);
    ZerosMeasured(16777076);
    NineFlags();
    l := OverlongOf(Zeros(16777076), Name(0x61), Flags(9), Name(0x66));
  }

  lemma OverlongOf(a: Sexp, s: Sexp, b: Sexp, t: Sexp) returns (l: Sexp)
    requires IsR(a) && IsR(s) && IsR(b) && IsR(t) && Readable(a) && Readable(s) && Readable(b) && Readable(t)
    requires IsTag(s) && IsTag(t) && s != NIL
    requires Storage(s) == Storage(t) == Size(s) == Size(t) == 8
    requires Storage(a) == Size(a) == 16777084 && Storage(b) == 76 && Size(b) == 112
    ensures Overlong(l)
  {
    hide Storage, Size, Payload, IsR, Readable, IsTag, KidCount, Kid;
    l := Pair(a, s, b, t);
    PairKids(a, s, b, t);
    FourKids(l);
    PairNode(a, s, b, t);
    NodeAndFour(l);
    PairStorage(a, s, b, t);
  }

  lemma PairNode(a: Sexp, s: Sexp, b: Sexp, t: Sexp)
    requires IsTag(s) && IsTag(t)
    ensures NodeIsR(Pair(a, s, b, t)) && NodeReadable(Pair(a, s, b, t))
  {
    hide IsTag;
  }

  // ---- what has such attributes and nothing else in it ----

  function With(l: Sexp, b: Body): Sexp { Sexp(Attributes(l), b) }

  predicate IsEmpty(b: Body) { b == Vector(false, []) || b == Raw([]) || b == Strings([]) }

  lemma OverlongBehind(l: Sexp, b: Body)
    requires Overlong(l) && IsEmpty(b)
    ensures var x := With(l, b);
      && IsR(x) && KidCount(x) == 1 == AttrCount(x) && Kid(x, 0) == l && KidOffset(x, 1) == LEN24 <= Payload(x)
      && Truncated(x, Storage(x)) < LEN24
  {
    hide IsR, Readable, Storage, Payload;
    var x := With(l, b);
    assert KidCount(x) == 1 && Kid(x, 0) == l && NodeIsR(x);
    OneKid(x, l);
    OneSize(x, l);
    assert Storage(x) <= 16777188 by { OneStorage(l, b); }
  }

  lemma OneKid(x: Sexp, l: Sexp)
    requires NodeIsR(x) && KidCount(x) == 1 && Kid(x, 0) == l && IsR(l)
    ensures IsR(x)
  {
    hide NodeIsR, Slot, SlotCount;
  }

  lemma OneSize(x: Sexp, l: Sexp)
    requires KidCount(x) == 1 && Kid(x, 0) == l && Storage(l) == 16777180 && Payload(l) == LEN24 - 4
    requires IsEmpty(x.body)
    ensures KidOffset(x, 1) == LEN24 && LEN24 <= Payload(x) <= LEN24 + 4
  {
    hide KidOffset, Slot, SlotCount, Storage, Payload;
    KidOffsetStep(x, 0);
    NoneBefore(x);
    assert l.body.Null? || Size(l) == LEN24;
    assert Size(l) == LEN24;
    assert AtomSize(x.body) <= 4;
  }

  lemma OneStorage(l: Sexp, b: Body)
    requires Storage(l) == 16777180 && IsEmpty(b)
    ensures Storage(With(l, b)) <= 16777188
  {
    assert PartsStorage(b) == 0 && AtomStorage(b) <= 4;
  }

  lemma OverlongSurvives(l: Sexp)
    requires Overlong(l)
    ensures Survives(l, Storage(l)) && Steady(l) && !Rewound(l, Storage(l))
  {
    hide Storage, Payload, HeadersServe, Readable, Steady, Rewound, IsR;
    SmallServes(l, Storage(l));
    StrictIsEnough(l, Storage(l));
    ServedIsSteady(l, Storage(l));
  }

  lemma OneSteady(x: Sexp, l: Sexp)
    requires KidCount(x) == 1 && Kid(x, 0) == l && Steady(l) && !Rewound(l, Storage(l))
    ensures Steady(x)
  {
    hide Slot, SlotCount, Storage, Rewound;
  }

  lemma OneSurvives(x: Sexp, ss: nat, l: Sexp)
    requires KidCount(x) == 1 && Kid(x, 0) == l && Survives(l, Storage(l))
    requires NodeReadable(x) && HeaderServes(x, ss, false)
    ensures Survives(x, ss)
  {
    hide Slot, SlotCount, NodeReadable, HeaderServes, Storage;
  }

  /** list() with such attributes: its header says that it is shorter than they are, and still it
      survives. */
  lemma EmptyListSurvives() returns (x: Sexp)
    ensures IsR(x) && Survives(x, Storage(x)) && !HeaderServes(x, Storage(x), true)
    ensures x.body == Vector(false, []) && Truncated(x, Storage(x)) < KidOffset(x, AttrCount(x))
  {
    hide IsR, Storage, Payload, KidOffset, Truncated, Survives, Overlong, KidCount, Kid;
    var l := SomeOverlong();
    x := With(l, Vector(false, []));
    OverlongBehind(l, x.body);
    OverlongSurvives(l);
    assert SlotCount(x.body) == 0;
    OneSurvives(x, Storage(x), l);
  }

  /** raw() with them is rewound, but nothing in it is: it comes back with the cursor left in its
      attributes. */
  lemma RawIsRewound() returns (x: Sexp)
    ensures IsR(x) && Rewound(x, Storage(x)) && x.attr.Attributes? && Survives(x.attr.list, Storage(x.attr.list))
    ensures Steady(x)
  {
    hide IsR, Storage, Payload, KidOffset, Truncated, Survives, Overlong, KidCount, Kid, Steady;
    var l := SomeOverlong();
    x := With(l, Raw([]));
    OverlongBehind(l, x.body);
    OverlongSurvives(l);
    OneSteady(x, l);
  }
}
