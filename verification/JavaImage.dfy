/** What the Java client's serialiser is to leave in memory, and which values that is right for. */
module JavaImage {
  import opened Bytes
  import opened Rsrv
  import opened Sexps
  import opened Sums
  import opened QapLayout
  import opened QapImage
  import opened JavaLength

  /** The type the factory gives a value; all expression vectors count as generic ones and what
      it cannot interpret stays 0. */
  function JavaType(b: Body): (t: byte)
    ensures t < 64
  {
    match b
    case Pairs(isCall, cells) =>
      if IsTagged(cells) then (if isCall then XT_LANG_TAG else XT_LIST_TAG)
      else (if isCall then XT_LANG_NOTAG else XT_LIST_NOTAG)
    case Vector(_, _) => XT_VECTOR
    case S4 => XT_S4
    case Ints(_) => XT_ARRAY_INT
    case Reals(_) => XT_ARRAY_DOUBLE
    case Strings(_) => XT_ARRAY_STR
    case Symbol(_) => XT_SYMNAME
    case Raw(_) => XT_RAW
    case Logicals(_) => XT_ARRAY_BOOL
    case _ => XT_NULL
  }

  // ---- the value as the factory takes it ----

  /** x with generic vectors in place of expression vectors, at every level. */
  function AsGeneric(x: Sexp): Sexp
    decreases x
  {
    Sexp(match x.attr case NoAttributes => NoAttributes case Attributes(l) => Attributes(AsGeneric(l)),
         match x.body
         case Vector(_, elems) =>
           Vector(false, seq(|elems|, i requires 0 <= i < |elems| => AsGeneric(elems[i])))
         case Pairs(isCall, cells) =>
           Pairs(isCall, seq(|cells|, i requires 0 <= i < |cells| =>
             Cell(AsGeneric(cells[i].car), AsGeneric(cells[i].tag))))
         case Closure(formals, code) => Closure(AsGeneric(formals), AsGeneric(code))
         case _ => x.body)
  }

  lemma GenericNil(t: Sexp)
    ensures AsGeneric(t) == NIL <==> t == NIL
  {
  }

  lemma GenericTags(x: Sexp)
    requires x.body.Pairs?
    ensures AsGeneric(x).body.Pairs? && |AsGeneric(x).body.cells| == |x.body.cells|
    ensures forall i :: 0 <= i < |x.body.cells| ==>
              AsGeneric(x).body.cells[i] == Cell(AsGeneric(x.body.cells[i].car), AsGeneric(x.body.cells[i].tag))
    ensures IsTagged(AsGeneric(x).body.cells) <==> IsTagged(x.body.cells)
  {
    var cells, g := x.body.cells, AsGeneric(x).body.cells;
    assert forall i :: 0 <= i < |cells| ==> g[i] == Cell(AsGeneric(cells[i].car), AsGeneric(cells[i].tag));
    hide AsGeneric;
    forall i | 0 <= i < |cells|
      ensures g[i].tag != NIL <==> cells[i].tag != NIL
    {
      GenericNil(cells[i].tag);
    }
  }

  /** The nested values are the generic forms of those of x. */
  lemma GenericKids(x: Sexp)
    ensures AttrCount(AsGeneric(x)) == AttrCount(x) && KidCount(AsGeneric(x)) == KidCount(x)
    ensures forall k :: 0 <= k < KidCount(x) ==> Kid(AsGeneric(x), k) == AsGeneric(Kid(x, k))
  {
    if x.body.Pairs? {
      GenericTags(x);
      hide IsTagged;
    }
  }

  lemma GenericBody(x: Sexp)
    ensures AtomSize(AsGeneric(x).body) == AtomSize(x.body)
    ensures !x.body.Vector? && !x.body.Pairs? && !x.body.Closure? ==> AsGeneric(x).body == x.body
    ensures (x.body.Vector? <==> AsGeneric(x).body.Vector?) && (x.body.Pairs? <==> AsGeneric(x).body.Pairs?)
    ensures x.body.Closure? <==> AsGeneric(x).body.Closure?
    ensures AsGeneric(x).attr.Attributes? == x.attr.Attributes?
  {
  }

  lemma GenericType(x: Sexp)
    requires Shaped(x)
    ensures TypeCode(AsGeneric(x).body) == JavaType(x.body)
    ensures JavaType(x.body) == TypeCode(x.body) <==> !(x.body.Vector? && x.body.isExpression)
  {
    hide NameFits;
    if x.body.Pairs? {
      GenericTags(x);
      hide IsTagged;
    }
  }

  lemma {:induction false} GenericSize(x: Sexp)
    ensures JKidSizes(AsGeneric(x)) == JKidSizes(x)
    ensures JPayload(AsGeneric(x)) == JPayload(x) && JSize(AsGeneric(x)) == JSize(x)
    ensures forall k :: 0 <= k <= KidCount(x) ==>
              k <= KidCount(AsGeneric(x)) && JKidOffset(AsGeneric(x), k) == JKidOffset(x, k)
    decreases x
  {
    hide AsGeneric, AtomSize, Slot, SlotCount;
    GenericKids(x);
    GenericBody(x);
    forall k | 0 <= k < KidCount(x)
      ensures JKidSizes(AsGeneric(x))[k] == JKidSizes(x)[k]
    {
      GenericSize(Kid(x, k));
    }
    assert JKidSizes(AsGeneric(x)) == JKidSizes(x);
  }

  /** Without expression vectors in it or below it, a value is its own generic form. */
  lemma GenericSelf(x: Sexp)
    requires !(x.body.Vector? && x.body.isExpression) && !x.body.Closure?
    requires forall k :: 0 <= k < KidCount(x) ==> AsGeneric(Kid(x, k)) == Kid(x, k)
    ensures AsGeneric(x) == x
  {
    hide AsGeneric, KidCount, Kid;
    AttrSelf(x);
    if x.body.Vector? {
      ElemsSelf(x);
    } else if x.body.Pairs? {
      CellsSelf(x);
    } else {
      GenericBody(x);
    }
    assert AsGeneric(x) == Sexp(AsGeneric(x).attr, AsGeneric(x).body) && x == Sexp(x.attr, x.body);
  }

  lemma AttrSelf(x: Sexp)
    requires x.attr.Attributes? ==> KidCount(x) > 0 ==> AsGeneric(Kid(x, 0)) == Kid(x, 0)
    ensures AsGeneric(x).attr == x.attr
  {
    hide SlotCount, Slot;
    if x.attr.Attributes? {
      assert Kid(x, 0) == x.attr.list;
      assert AsGeneric(x).attr == Attributes(AsGeneric(x.attr.list));
    }
  }

  lemma ElemsSelf(x: Sexp)
    requires x.body.Vector? && !x.body.isExpression
    requires forall k :: 0 <= k < KidCount(x) ==> AsGeneric(Kid(x, k)) == Kid(x, k)
    ensures AsGeneric(x).body == x.body
  {
    GenericElems(x);
    hide AsGeneric;
    var elems := x.body.elems;
    forall i | 0 <= i < |elems|
      ensures AsGeneric(x).body.elems[i] == elems[i]
    {
      assert elems[i] == Kid(x, AttrCount(x) + i);
    }
    assert AsGeneric(x).body.elems == elems;
  }

  lemma GenericElems(x: Sexp)
    requires x.body.Vector?
    ensures AsGeneric(x).body.Vector? && !AsGeneric(x).body.isExpression
    ensures |AsGeneric(x).body.elems| == |x.body.elems|
    ensures forall i :: 0 <= i < |x.body.elems| ==> AsGeneric(x).body.elems[i] == AsGeneric(x.body.elems[i])
  {
  }

  lemma CellsSelf(x: Sexp)
    requires x.body.Pairs?
    requires forall k :: 0 <= k < KidCount(x) ==> AsGeneric(Kid(x, k)) == Kid(x, k)
    ensures AsGeneric(x).body == x.body
  {
    GenericTags(x);
    hide AsGeneric;
    var cells := x.body.cells;
    forall i | 0 <= i < |cells|
      ensures AsGeneric(x).body.cells[i] == cells[i]
    {
      CellIsKid(x, i);
      if !IsTagged(cells) {
        GenericNil(cells[i].tag);
      }
    }
    CallKept(x);
    assert AsGeneric(x).body.cells == cells;
  }

  lemma CallKept(x: Sexp)
    requires x.body.Pairs?
    ensures AsGeneric(x).body.Pairs? && AsGeneric(x).body.isCall == x.body.isCall
  {
  }

  // ---- which values are written right ----

  /** A payload of exactly LARGE_LIMIT bytes gets room for one header and another one. */
  predicate NoLimit(x: Sexp)
    decreases x
  {
    JPayload(x) != LARGE_LIMIT && forall k :: 0 <= k < KidCount(x) ==> NoLimit(Kid(x, k))
  }

  /** No argument of a call has a name, and no payload is LARGE_LIMIT, at any level. */
  predicate WellWritten(x: Sexp) { CallNames(x) == 0 && NoLimit(x) }

  lemma KidWellWritten(x: Sexp, k: nat)
    requires WellWritten(x) && k < KidCount(x)
    ensures WellWritten(Kid(x, k)) && JPayload(x) != LARGE_LIMIT
  {
    hide CallNames, JPayload, Slot, SlotCount;
    KidNames(x, k);
  }

  /** The first nested value with such a payload, if its own payload is another. */
  lemma FirstLimit(x: Sexp) returns (k: nat)
    requires CallNames(x) == 0 && !WellWritten(x) && JPayload(x) != LARGE_LIMIT
    ensures k < KidCount(x) && !WellWritten(Kid(x, k)) && CallNames(Kid(x, k)) == 0
    ensures forall j :: 0 <= j < k ==> WellWritten(Kid(x, j))
  {
    hide CallNames, JPayload, Slot, SlotCount, WellWritten;
    k := 0;
    assert WellWritten(x) <==> NoLimit(x) by { WellWrittenIs(x); }
    while k < KidCount(x) && WellWritten(Kid(x, k))
      invariant k <= KidCount(x) && forall j :: 0 <= j < k ==> WellWritten(Kid(x, j))
    {
      k := k + 1;
    }
    if k == KidCount(x) {
      forall j | 0 <= j < k
        ensures NoLimit(Kid(x, j))
      {
        WellWrittenIs(Kid(x, j));
      }
    } else {
      KidNames(x, k);
    }
  }

  lemma WellWrittenIs(x: Sexp)
    ensures WellWritten(x) <==> CallNames(x) == 0 && NoLimit(x)
  {
    hide CallNames, NoLimit;
  }

  // ---- the header ----

  /** The room left for the header is chosen by the announced length. */
  function Room(x: Sexp): nat { if Announced(x) > LARGE_LIMIT then 8 else 4 }

  /** With p bytes counted the client makes room for one header by the total length and writes
      one by what is left of it: the two agree, and hold p, exactly if p is not the limit. */
  lemma HeaderChoice(p: nat)
    requires p % 4 == 0
    ensures var total := p + JHead(p);
      var room := if total > LARGE_LIMIT then 8 else 4;
      && total >= room && JHead(total - room) <= room
      && (JHead(total - room) == room && total - room == p <==> p != LARGE_LIMIT)
      && JHead(total - room) + total - room <= total
      && (p == LARGE_LIMIT ==> room == 8 && JHead(total - room) == 4 && total - room == LARGE_LIMIT - 4)
  {
  }

  lemma RoomChoice(x: Sexp)
    ensures var len := Announced(x) - Room(x);
      && 0 <= len && JHead(len) <= Room(x) && JHead(len) + len <= Announced(x)
      && (JHead(len) == Room(x) && len == Counted(x) <==> Counted(x) != LARGE_LIMIT)
      && (Counted(x) == LARGE_LIMIT ==> Room(x) == 8 && JHead(len) == 4 && len == LARGE_LIMIT - 4)
      && Room(x) + Counted(x) >= Announced(x)
  {
    hide Counted;
    AnnouncedAligned(x);
    HeaderChoice(Counted(x));
  }

  /** The header that is written: the type, the attribute flag and the announced length without
      the room for the header. */
  predicate HeaderWritten(x: Sexp, m: seq<byte>, off: nat)
  {
    && Announced(x) >= Room(x)
    && var len := Announced(x) - Room(x);
    && HeaderThere(m, off) && HeaderEnd(m, off) == off + JHead(len) && Declared(m, off) == len
    && GET_XT(PAR_TYPE(WordAt(m, off))) == JavaType(x.body)
    && HAS_ATTR(PAR_TYPE(WordAt(m, off))) == x.attr.Attributes?
  }

  lemma HeaderFrame(m: seq<byte>, m': seq<byte>, o: nat)
    requires HeaderThere(m, o) && SameOn(m, m', o, HeaderEnd(m, o))
    ensures HeaderThere(m', o) && HeaderEnd(m', o) == HeaderEnd(m, o) && Declared(m', o) == Declared(m, o)
    ensures WordAt(m', o) == WordAt(m, o)
  {
    WordsFrame(m, m', o, if IS_LARGE(PAR_TYPE(WordAt(m, o))) then 2 else 1);
  }

  lemma HeaderWrittenFrame(x: Sexp, m: seq<byte>, m': seq<byte>, off: nat)
    requires HeaderWritten(x, m, off) && SameOn(m, m', off, off + Room(x))
    ensures HeaderWritten(x, m', off)
  {
    hide Announced, Room, WordAt, HeaderThere, HeaderEnd, Declared, JavaType;
    RoomChoice(x);
    HeaderFrame(m, m', off);
  }

  /** A value's header leads behind it. */
  lemma ImageHeader(x: Sexp, m: seq<byte>, o: nat, e: nat)
    requires Image(x, true, m, o, e)
    ensures HeaderThere(m, o) && Skip(m, o) == e
    ensures GET_XT(PAR_TYPE(WordAt(m, o))) == TypeCode(x.body)
  {
    hide AtomAt, AtomSize, KidCount, Kid, TypeCode, WordAt, HeaderThere, HeaderEnd, Declared;
    var ps :| ImageBy(x, true, m, o, e, ps);
  }

  // ---- what is written ----

  /** Nothing that x could be meant to be is in the bytes from off on. */
  ghost predicate Never(x: Sexp, m: seq<byte>, off: nat)
  {
    forall y, e: nat :: AsGeneric(y) == AsGeneric(x) && e <= off + JSize(x) ==> !Image(y, true, m, off, e)
  }

  /** What is left for a value without names in calls: the header, and its generic form if it is
      well written and nothing like it otherwise. */
  ghost predicate Written(x: Sexp, m: seq<byte>, off: nat)
  {
    && HeaderWritten(x, m, off) && off + JSize(x) <= |m|
    && if WellWritten(x) then Image(AsGeneric(x), true, m, off, off + JSize(x)) else Never(x, m, off)
  }

  lemma WrittenFrame(x: Sexp, m: seq<byte>, m': seq<byte>, off: nat)
    requires Written(x, m, off) && CallNames(x) == 0 && SameOn(m, m', off, off + JSize(x))
    ensures Written(x, m', off)
  {
    hide WellWritten, AsGeneric, JSize, Announced, HeaderWritten, Image, CallNames;
    RoomWithin(x);
    HeaderWrittenFrame(x, m, m', off);
    if WellWritten(x) {
      ImageFrame(AsGeneric(x), true, m, m', off, off + JSize(x));
    } else {
      forall y, e: nat | AsGeneric(y) == AsGeneric(x) && e <= off + JSize(x)
        ensures !Image(y, true, m', off, e)
      {
        if Image(y, true, m', off, e) {
          ImageFrame(y, true, m', m, off, e);
        }
      }
    }
  }

  lemma RoomWithin(x: Sexp)
    requires CallNames(x) == 0
    ensures Room(x) <= JSize(x) == Announced(x)
  {
    hide CallNames, JSize, Announced, Counted;
    NothingMissing(x);
    RoomChoice(x);
  }

  /** The first n nested values of x are written behind the header room that ends at base. */
  ghost predicate KidsWritten(x: Sexp, m: seq<byte>, base: nat, n: nat)
    requires n <= KidCount(x)
  {
    forall j :: 0 <= j < n ==> Written(Kid(x, j), m, base + JKidOffset(x, j))
  }

  lemma KidsWrittenFrame(x: Sexp, m: seq<byte>, m': seq<byte>, base: nat, n: nat)
    requires CallNames(x) == 0 && n <= KidCount(x) && KidsWritten(x, m, base, n)
    requires SameOn(m, m', base, base + JKidOffset(x, n))
    ensures KidsWritten(x, m', base, n)
  {
    hide Written, JKidOffset, Kid, KidCount, JSize, JPayload, CallNames;
    forall j | 0 <= j < n
      ensures Written(Kid(x, j), m', base + JKidOffset(x, j))
    {
      KidBounds(x, j, n);
      assert Written(Kid(x, j), m, base + JKidOffset(x, j));
      WrittenFrameWithin(Kid(x, j), m, m', base + JKidOffset(x, j), base, base + JKidOffset(x, n));
    }
  }

  lemma KidBounds(x: Sexp, j: nat, n: nat)
    requires CallNames(x) == 0 && j < n <= KidCount(x)
    ensures CallNames(Kid(x, j)) == 0 && JKidOffset(x, j) + JSize(Kid(x, j)) <= JKidOffset(x, n)
  {
    hide JKidOffset, Slot, SlotCount, JSize, JPayload, CallNames;
    KidNames(x, j);
    JKidOffsetStep(x, j);
    JKidOffsetOrder(x, j + 1, n);
  }

  lemma WrittenFrameWithin(y: Sexp, m: seq<byte>, m': seq<byte>, o: nat, from: nat, to: nat)
    requires Written(y, m, o) && CallNames(y) == 0 && from <= o && o + JSize(y) <= to && SameOn(m, m', from, to)
    ensures Written(y, m', o)
  {
    hide Written, JSize, CallNames;
    WrittenFrame(y, m, m', o);
  }

  lemma JKidOffsetOrder(x: Sexp, i: nat, j: nat)
    requires i <= j <= KidCount(x)
    ensures JKidOffset(x, i) <= JKidOffset(x, j)
  {
    SumMonotone(JKidSizes(x), i, j);
  }

  /** The nested values and the data are in place from base on. */
  ghost predicate PayloadWritten(x: Sexp, m: seq<byte>, base: nat)
  {
    && base + JKidOffset(x, KidCount(x)) + AtomSize(x.body) <= |m|
    && KidsWritten(x, m, base, KidCount(x))
    && AtomAt(x.body, m, base + JKidOffset(x, KidCount(x)))
  }

  // ---- the header and the payload make the value ----

  lemma WrittenWhole(x: Sexp, m: seq<byte>, off: nat)
    requires AllShaped(x) && CallNames(x) == 0
    requires HeaderWritten(x, m, off) && PayloadWritten(x, m, off + Room(x))
    ensures Written(x, m, off)
  {
    hide AllShaped, CallNames, HeaderWritten, PayloadWritten, WellWritten, Never, Image, JSize, JPayload, AsGeneric,
      Announced, Counted;
    NothingMissing(x);
    SizeIs(x);
    RoomChoice(x);
    PayloadInside(x, m, off + Room(x));
    if WellWritten(x) {
      WrittenImage(x, m, off);
    } else if JPayload(x) == LARGE_LIMIT {
      LimitNever(x, m, off);
    } else {
      KidNever(x, m, off);
    }
  }

  lemma PayloadInside(x: Sexp, m: seq<byte>, base: nat)
    requires PayloadWritten(x, m, base)
    ensures base + JPayload(x) <= |m|
  {
    hide JPayload, JKidOffset, AtomSize, KidsWritten, AtomAt;
    SizeIs(x);
  }

  lemma WrittenImage(x: Sexp, m: seq<byte>, off: nat)
    requires AllShaped(x) && WellWritten(x)
    requires HeaderWritten(x, m, off) && PayloadWritten(x, m, off + Room(x))
    ensures Image(AsGeneric(x), true, m, off, off + JSize(x))
  {
    hide JSize, JPayload, JKidOffset, Kid, SlotCount, AtomSize, AtomAt, AllShaped, JavaType, Image,
      OwnImage, Declared, HeaderThere, HeaderEnd, WordAt, AsGeneric, HeaderWritten, WellWritten, Announced,
      Room, KidsWritten, CallNames;
    var g, base, end := AsGeneric(x), off + Room(x), off + JSize(x);
    GenericKids(x);
    GenericSize(x);
    var ps := seq(KidCount(g) + 1, k requires 0 <= k <= KidCount(g) => base + JKidOffset(g, k));
    OwnWritten(x, m, off, ps);
    forall k | 0 <= k < KidCount(g)
      ensures ps[k] < ps[k + 1] && Image(Kid(g, k), true, m, ps[k], ps[k + 1])
    {
      JKidOffsetStep(x, k);
      KidImaged(x, m, base, k);
    }
    assert ImageBy(g, true, m, off, end, ps);
    ImageFrom(g, m, off, end, ps);
  }

  lemma KidImaged(x: Sexp, m: seq<byte>, base: nat, k: nat)
    requires WellWritten(x) && KidsWritten(x, m, base, KidCount(x)) && k < KidCount(x)
    ensures Image(AsGeneric(Kid(x, k)), true, m, base + JKidOffset(x, k), base + JKidOffset(x, k) + JSize(Kid(x, k)))
  {
    hide JSize, JPayload, JKidOffset, Slot, SlotCount, AsGeneric, HeaderWritten, WellWritten, Image, Never;
    KidWellWritten(x, k);
    assert Written(Kid(x, k), m, base + JKidOffset(x, k));
  }

  lemma OwnWritten(x: Sexp, m: seq<byte>, off: nat, ps: seq<nat>)
    requires AllShaped(x) && WellWritten(x)
    requires HeaderWritten(x, m, off) && PayloadWritten(x, m, off + Room(x))
    requires |ps| == KidCount(x) + 1
    requires forall k :: 0 <= k <= KidCount(x) ==> ps[k] == off + Room(x) + JKidOffset(x, k)
    ensures OwnImage(AsGeneric(x), true, m, off, off + JSize(x), ps)
  {
    hide JSize, JPayload, JKidOffset, Kid, SlotCount, AtomSize, AtomAt, AllShaped, JavaType, AsGeneric, WellWritten,
      Image, TypeCode, Declared, HeaderThere, HeaderEnd, WordAt, Shaped, KidsWritten, LastEntry, Announced, Counted,
      CallNames, KidCount;
    var g := AsGeneric(x);
    ShapedSelf(x);
    GenericKids(x);
    GenericBody(x);
    GenericType(x);
    SizeIs(x);
    NoKids(x);
    NotTheLimit(x);
    NothingMissing(x);
    RoomChoice(x);
    SameAtom(x, m, ps[KidCount(x)]);
  }

  lemma NotTheLimit(x: Sexp)
    requires WellWritten(x)
    ensures JPayload(x) != LARGE_LIMIT && CallNames(x) == 0
  {
    hide JPayload, CallNames;
  }

  lemma SameAtom(x: Sexp, m: seq<byte>, a: nat)
    requires a + AtomSize(x.body) <= |m| && AtomAt(x.body, m, a)
    ensures AtomSize(AsGeneric(x).body) == AtomSize(x.body) && AtomAt(AsGeneric(x).body, m, a)
  {
    hide AsGeneric, AtomSize;
    GenericBody(x);
    if x.body.Vector? || x.body.Pairs? || x.body.Closure? {
      NothingThere(AsGeneric(x).body, m, a);
    }
  }

  lemma NothingThere(b: Body, m: seq<byte>, a: nat)
    requires a + AtomSize(b) <= |m|
    ensures b.Vector? || b.Pairs? || b.Closure? ==> AtomAt(b, m, a)
  {
  }

  lemma ImageFrom(x: Sexp, m: seq<byte>, o: nat, e: nat, ps: seq<nat>)
    requires ImageBy(x, true, m, o, e, ps)
    ensures Image(x, true, m, o, e)
  {
    hide ImageBy;
  }

  // ---- a payload at the limit ----

  /** The fewest bytes a value can take behind its header: all nested headers are short. */
  function LeastPayload(x: Sexp): nat
    decreases x, 1
  {
    Sum(LeastSizes(x), KidCount(x)) + AtomSize(x.body)
  }

  function LeastSizes(x: Sexp): (s: seq<nat>)
    ensures |s| == KidCount(x)
    decreases x, 0
  {
    seq(KidCount(x), k requires 0 <= k < KidCount(x) => 4 + LeastPayload(Kid(x, k)))
  }

  lemma {:induction false} LeastGeneric(x: Sexp)
    ensures LeastSizes(AsGeneric(x)) == LeastSizes(x) && LeastPayload(AsGeneric(x)) == LeastPayload(x)
    decreases x
  {
    hide AsGeneric, AtomSize, Slot, SlotCount;
    GenericKids(x);
    GenericBody(x);
    forall k | 0 <= k < KidCount(x)
      ensures LeastSizes(AsGeneric(x))[k] == LeastSizes(x)[k]
    {
      LeastGeneric(Kid(x, k));
    }
    assert LeastSizes(AsGeneric(x)) == LeastSizes(x);
  }

  /** A payload up to the limit has no room for a nested value with a long header. */
  lemma {:induction false} LeastIsReal(x: Sexp)
    requires JPayload(x) <= LARGE_LIMIT
    ensures LeastPayload(x) == JPayload(x)
    decreases x
  {
    hide JSize, JPayload, Slot, SlotCount, AtomSize;
    SizeIs(x);
    forall k | 0 <= k < KidCount(x)
      ensures LeastSizes(x)[k] == JKidSizes(x)[k]
    {
      JKidOffsetStep(x, k);
      SizeIs(Kid(x, k));
      LeastIsReal(Kid(x, k));
    }
    assert LeastSizes(x) == JKidSizes(x);
  }

  lemma {:induction false} ImageTakes(x: Sexp, m: seq<byte>, o: nat, e: nat)
    requires Image(x, true, m, o, e)
    ensures HeaderThere(m, o) && HeaderEnd(m, o) + LeastPayload(x) <= e && o + 4 <= HeaderEnd(m, o)
    decreases x, 1
  {
    hide AtomAt, AtomSize, Slot, SlotCount, TypeCode, WordAt, Declared, LeastSizes, Image;
    var ps :| ImageBy(x, true, m, o, e, ps) by { SomeBy(x, m, o, e); }
    KidsTake(x, m, o, e, ps, KidCount(x));
  }

  lemma SomeBy(x: Sexp, m: seq<byte>, o: nat, e: nat)
    requires Image(x, true, m, o, e)
    ensures exists ps :: ImageBy(x, true, m, o, e, ps)
  {
    hide ImageBy;
  }

  lemma {:induction false} KidsTake(x: Sexp, m: seq<byte>, o: nat, e: nat, ps: seq<nat>, n: nat)
    requires ImageBy(x, true, m, o, e, ps) && n <= KidCount(x)
    ensures |ps| == KidCount(x) + 1 && ps[0] + Sum(LeastSizes(x), n) <= ps[n]
    decreases x, 0, n
  {
    hide AtomAt, AtomSize, Slot, SlotCount, TypeCode, WordAt, Declared, Image, LeastPayload, HeaderThere, HeaderEnd;
    if n > 0 {
      KidsTake(x, m, o, e, ps, n - 1);
      ImageTakes(Kid(x, n - 1), m, ps[n - 1], ps[n]);
    }
  }

  /** At the limit the short header announces four bytes fewer than the value takes at least. */
  lemma LimitNever(x: Sexp, m: seq<byte>, off: nat)
    requires CallNames(x) == 0 && JPayload(x) == LARGE_LIMIT && HeaderWritten(x, m, off)
    ensures Never(x, m, off)
  {
    hide JSize, JPayload, CallNames, Announced, Counted, AsGeneric, Image, WordAt, HeaderThere, HeaderEnd, Declared,
      JavaType, LeastPayload;
    NothingMissing(x);
    RoomChoice(x);
    LeastIsReal(x);
    forall y, e: nat | AsGeneric(y) == AsGeneric(x) && e <= off + JSize(x)
      ensures !Image(y, true, m, off, e)
    {
      if Image(y, true, m, off, e) {
        LeastGeneric(x);
        LeastGeneric(y);
        ImageTakes(y, m, off, e);
        ImageHeader(y, m, off, e);
      }
    }
  }

  // ---- a nested value that is not written right ----

  /** If the first nested values of x are written right, all that is like x has them there. */
  lemma {:induction false} SameBounds(x: Sexp, y: Sexp, m: seq<byte>, off: nat, e: nat, ps: seq<nat>, base: nat, n: nat)
    requires AsGeneric(y) == AsGeneric(x) && ImageBy(y, true, m, off, e, ps) && HeaderThere(m, off)
    requires base == HeaderEnd(m, off) && n <= KidCount(x)
    requires forall j :: 0 <= j < n ==>
               Image(AsGeneric(Kid(x, j)), true, m, base + JKidOffset(x, j), base + JKidOffset(x, j + 1))
    ensures |ps| == KidCount(x) + 1 && ps[n] == base + JKidOffset(x, n)
    decreases n
  {
    hide AsGeneric, Image, WordAt, HeaderThere, HeaderEnd, Declared, AtomAt, AtomSize, Slot, SlotCount, JKidOffset,
      TypeCode, Skip;
    GenericKids(x);
    GenericKids(y);
    if n == 0 {
      NoKids(x);
    } else {
      SameBounds(x, y, m, off, e, ps, base, n - 1);
      ImageHeader(Kid(y, n - 1), m, ps[n - 1], ps[n]);
      ImageHeader(AsGeneric(Kid(x, n - 1)), m, base + JKidOffset(x, n - 1), base + JKidOffset(x, n));
    }
  }

  lemma KidNever(x: Sexp, m: seq<byte>, off: nat)
    requires CallNames(x) == 0 && !WellWritten(x) && JPayload(x) != LARGE_LIMIT
    requires HeaderWritten(x, m, off) && PayloadWritten(x, m, off + Room(x))
    ensures Never(x, m, off)
  {
    hide JSize, JPayload, JKidOffset, CallNames, Announced, Counted, AsGeneric, Image, WordAt, HeaderThere, HeaderEnd,
      Declared, JavaType, WellWritten, Written, AtomAt, AtomSize, Slot, SlotCount;
    var base := off + Room(x);
    var k := FirstLimit(x);
    NothingMissing(x);
    RoomChoice(x);
    forall j | 0 <= j < k
      ensures Image(AsGeneric(Kid(x, j)), true, m, base + JKidOffset(x, j), base + JKidOffset(x, j + 1))
    {
      JKidOffsetStep(x, j);
      WrittenRight(Kid(x, j), m, base + JKidOffset(x, j));
    }
    forall y, e: nat | AsGeneric(y) == AsGeneric(x) && e <= off + JSize(x)
      ensures !Image(y, true, m, off, e)
    {
      if Image(y, true, m, off, e) {
        KidExcludes(x, y, m, off, e, k);
      }
    }
  }

  lemma WrittenRight(x: Sexp, m: seq<byte>, off: nat)
    requires Written(x, m, off) && WellWritten(x)
    ensures Image(AsGeneric(x), true, m, off, off + JSize(x))
  {
    hide JSize, AsGeneric, Image, WellWritten, HeaderWritten, Never;
  }

  lemma WrittenWrong(x: Sexp, m: seq<byte>, off: nat)
    requires Written(x, m, off) && !WellWritten(x) && CallNames(x) == 0
    ensures Never(x, m, off) && HeaderThere(m, off) && Skip(m, off) <= off + JSize(x)
  {
    hide JSize, AsGeneric, Image, WellWritten, Never, WordAt, HeaderThere, HeaderEnd, Declared, Announced, CallNames,
      JavaType, Room;
    RoomWithin(x);
    RoomChoice(x);
  }

  lemma KidExcludes(x: Sexp, y: Sexp, m: seq<byte>, off: nat, e: nat, k: nat)
    requires CallNames(x) == 0 && AsGeneric(y) == AsGeneric(x) && k < KidCount(x)
    requires HeaderThere(m, off) && HeaderEnd(m, off) == off + Room(x)
    requires forall j :: 0 <= j < k ==>
               Image(AsGeneric(Kid(x, j)), true, m, off + Room(x) + JKidOffset(x, j),
                     off + Room(x) + JKidOffset(x, j + 1))
    requires Written(Kid(x, k), m, off + Room(x) + JKidOffset(x, k)) && !WellWritten(Kid(x, k))
    ensures !Image(y, true, m, off, e)
  {
    hide JSize, JPayload, JKidOffset, CallNames, AsGeneric, WordAt, HeaderThere, HeaderEnd, Declared, WellWritten,
      Written, AtomAt, AtomSize, Slot, SlotCount, Room, Skip, OwnImage;
    if Image(y, true, m, off, e) {
      var ps :| ImageBy(y, true, m, off, e, ps) by { SomeBy(y, m, off, e); }
      GenericKids(x);
      GenericKids(y);
      KidNames(x, k);
      SameBounds(x, y, m, off, e, ps, off + Room(x), k);
      WrittenWrong(Kid(x, k), m, ps[k]);
      ImageHeader(Kid(y, k), m, ps[k], ps[k + 1]);
    }
  }

  // ---- expression vectors ----

  /** If the same bytes are a value and its generic form, there is no expression vector in it. */
  lemma {:induction false} SameTypes(x: Sexp, m: seq<byte>, o: nat, e: nat)
    requires AllShaped(x) && Image(x, true, m, o, e) && Image(AsGeneric(x), true, m, o, e)
    ensures AsGeneric(x) == x
    decreases x
  {
    hide AsGeneric, AtomAt, AtomSize, Slot, SlotCount, TypeCode, WordAt, Declared, HeaderEnd, OwnImage, Shaped;
    var ps :| ImageBy(x, true, m, o, e, ps);
    var qs :| ImageBy(AsGeneric(x), true, m, o, e, qs);
    ImageHeader(x, m, o, e);
    ImageHeader(AsGeneric(x), m, o, e);
    ShapedSelf(x);
    GenericType(x);
    GenericKids(x);
    NoClosure(x);
    forall k | 0 <= k < KidCount(x)
      ensures AsGeneric(Kid(x, k)) == Kid(x, k)
    {
      BoundsAgree(x, AsGeneric(x), m, o, e, ps, qs, k);
      BoundsAgree(x, AsGeneric(x), m, o, e, ps, qs, k + 1);
      KidShaped(x, k);
      SameTypes(Kid(x, k), m, ps[k], ps[k + 1]);
    }
    GenericSelf(x);
  }

  lemma NoClosure(x: Sexp)
    requires Shaped(x)
    ensures !x.body.Closure?
  {
  }

  lemma {:induction false} BoundsAgree(x: Sexp, y: Sexp, m: seq<byte>, o: nat, e: nat, ps: seq<nat>, qs: seq<nat>,
                                       n: nat)
    requires ImageBy(x, true, m, o, e, ps) && ImageBy(y, true, m, o, e, qs) && KidCount(x) == KidCount(y)
    requires n <= KidCount(x)
    ensures |ps| == |qs| == KidCount(x) + 1 && ps[n] == qs[n]
    decreases n
  {
    hide AtomAt, AtomSize, Slot, SlotCount, TypeCode, WordAt, Declared, HeaderEnd, HeaderThere, Image, Skip;
    if n > 0 {
      BoundsAgree(x, y, m, o, e, ps, qs, n - 1);
      ImageHeader(Kid(x, n - 1), m, ps[n - 1], ps[n]);
      ImageHeader(Kid(y, n - 1), m, qs[n - 1], qs[n]);
    }
  }
}
