/** The Java client's serialiser (REXPFactory.getBinaryRepresentation): what it writes for any
    value it can hold. */
module JavaWrite {
  import opened Bytes
  import opened Rsrv
  import opened Sexps
  import opened QapLayout
  import opened QapEncode
  import opened QapImage
  import opened Sums
  import opened RTalk
  import opened JavaLength
  import opened JavaImage

  // ---- how far the writer gets ----

  /** Nested values are written one behind the other by their announced lengths. */
  function OutSizes(x: Sexp): (s: seq<nat>)
    ensures |s| == KidCount(x)
  {
    seq(KidCount(x), k requires 0 <= k < KidCount(x) => Announced(Kid(x, k)))
  }

  function OutOffset(x: Sexp, k: nat): nat
    requires k <= KidCount(x)
  {
    Sum(OutSizes(x), k)
  }

  /** The bytes touched from the start of x on: a value of which too little is announced reaches
      beyond what is announced, into what is written next. */
  function Reach(x: Sexp): nat
    decreases x, 1
  {
    Room(x) + PayloadReach(x)
  }

  function PayloadReach(x: Sexp): nat
    decreases x, 0, KidCount(x) + 1
  {
    Max(KidsReach(x, KidCount(x)), OutOffset(x, KidCount(x)) + AtomSize(x.body))
  }

  function KidsReach(x: Sexp, n: nat): nat
    requires n <= KidCount(x)
    decreases x, 0, n
  {
    if n == 0 then 0 else Max(KidsReach(x, n - 1), OutOffset(x, n - 1) + Reach(Kid(x, n - 1)))
  }

  function Max(a: nat, b: nat): nat { if a < b then b else a }

  lemma OutStep(x: Sexp, k: nat)
    requires k < KidCount(x)
    ensures OutOffset(x, k + 1) == OutOffset(x, k) + Announced(Kid(x, k))
  {
    hide Announced, Slot, SlotCount;
  }

  lemma OutStart(x: Sexp)
    ensures OutOffset(x, 0) == 0 && AttrCount(x) <= KidCount(x)
    ensures OutOffset(x, KidCount(x)) + AtomSize(x.body) <= PayloadReach(x)
    ensures Reach(x) == Room(x) + PayloadReach(x)
  {
    hide KidsReach, AtomSize, OutSizes;
  }

  lemma OutAligned(x: Sexp, k: nat)
    requires k <= KidCount(x)
    ensures OutOffset(x, k) % 4 == 0
  {
    hide Announced, Slot, SlotCount;
    forall j | 0 <= j < KidCount(x)
      ensures OutSizes(x)[j] % 4 == 0
    {
      AnnouncedAligned(Kid(x, j));
    }
    SumAligned(OutSizes(x), k);
  }

  lemma {:induction false} KidReaches(x: Sexp, k: nat, n: nat)
    requires k < n <= KidCount(x)
    ensures OutOffset(x, k) + Reach(Kid(x, k)) <= KidsReach(x, n)
    decreases n
  {
    hide OutOffset, Reach, Slot, SlotCount;
    if k + 1 < n {
      KidReaches(x, k, n - 1);
    }
  }

  lemma KidWithin(x: Sexp, k: nat)
    requires k < KidCount(x)
    ensures OutOffset(x, k) + Reach(Kid(x, k)) <= PayloadReach(x)
    ensures OutOffset(x, k) <= OutOffset(x, KidCount(x)) <= PayloadReach(x)
  {
    hide OutSizes, KidsReach, AtomSize, Reach, Slot, SlotCount;
    KidReaches(x, k, KidCount(x));
    SumMonotone(OutSizes(x), k, KidCount(x));
  }

  /** Without names of arguments the offsets are those of the format. */
  lemma OutIsSize(x: Sexp, k: nat)
    requires CallNames(x) == 0 && k <= KidCount(x)
    ensures OutOffset(x, k) == JKidOffset(x, k)
  {
    hide CallNames, Announced, JSize, Slot, SlotCount;
    forall j | 0 <= j < KidCount(x)
      ensures OutSizes(x)[j] == JKidSizes(x)[j]
    {
      KidNames(x, j);
      NothingMissing(Kid(x, j));
    }
    assert OutSizes(x) == JKidSizes(x);
  }

  /** At least what is announced is written. */
  lemma AnnouncedWithin(x: Sexp)
    ensures Announced(x) <= Reach(x)
  {
    hide Announced, Counted, Room, OutOffset, PayloadReach;
    RoomChoice(x);
    CountedWithin(x, KidCount(x));
    CountedIs(x);
    OutStart(x);
  }

  lemma {:induction false} CountedWithin(x: Sexp, n: nat)
    requires n <= KidCount(x)
    ensures CountedOffset(x, n) <= OutOffset(x, n)
  {
    hide Announced, CountedOffset, OutOffset, Slot, SlotCount, IsCallName;
    if n == 0 {
      CountedIs(x);
      OutStart(x);
    } else {
      CountedWithin(x, n - 1);
      CountedStep(x, n - 1);
      OutStep(x, n - 1);
    }
  }

  /** A well-written value reaches exactly as far as it is announced. */
  lemma {:induction false} ReachIsSize(x: Sexp)
    requires WellWritten(x)
    ensures Reach(x) == JSize(x) == Announced(x)
    decreases x
  {
    hide CallNames, Announced, Counted, JSize, JPayload, WellWritten, Room, OutOffset, KidsReach, JKidOffset, Slot,
      SlotCount, AtomSize;
    NotTheLimit(x);
    NothingMissing(x);
    RoomChoice(x);
    SizeIs(x);
    forall k | 0 <= k < KidCount(x)
      ensures WellWritten(Kid(x, k))
    {
      KidWellWritten(x, k);
    }
    PartsReach(x, KidCount(x));
    OutIsSize(x, KidCount(x));
    assert PayloadReach(x) == JPayload(x);
  }

  lemma {:induction false} PartsReach(x: Sexp, n: nat)
    requires CallNames(x) == 0 && n <= KidCount(x) && forall k :: 0 <= k < KidCount(x) ==> WellWritten(Kid(x, k))
    ensures KidsReach(x, n) <= JKidOffset(x, n)
    decreases x, 0, n
  {
    hide CallNames, Announced, JSize, JPayload, WellWritten, Reach, OutOffset, JKidOffset, Slot, SlotCount;
    if n > 0 {
      PartsReach(x, n - 1);
      OutIsSize(x, n - 1);
      ReachIsSize(Kid(x, n - 1));
      JKidOffsetStep(x, n - 1);
    }
  }

  /** If the nested values are well written, the announced bytes suffice exactly if x itself is, too:
      neither a call with names nor a payload of LARGE_LIMIT bytes. */
  lemma ReachIsAnnounced(x: Sexp)
    requires forall k :: 0 <= k < KidCount(x) ==> WellWritten(Kid(x, k))
    ensures Reach(x) <= Announced(x) <==> WellWritten(x)
    ensures WellWritten(x) ==> Reach(x) == Announced(x) == JSize(x)
  {
    hide CallNames, Announced, Counted, JSize, JPayload, WellWritten, Room, OutOffset, PayloadReach, JKidOffset, Slot,
      SlotCount, AtomSize, Reach;
    RoomChoice(x);
    OutStart(x);
    if WellWritten(x) {
      ReachIsSize(x);
    } else if CallNames(x) == 0 {
      OwnLimit(x);
      NothingMissing(x);
      OutIsSize(x, KidCount(x));
      SizeIs(x);
    } else {
      CountedBelow(x, KidCount(x));
      CallNamesIs(x);
      CountedIs(x);
    }
  }

  lemma OwnLimit(x: Sexp)
    requires CallNames(x) == 0 && !WellWritten(x)
    requires forall k :: 0 <= k < KidCount(x) ==> WellWritten(Kid(x, k))
    ensures JPayload(x) == LARGE_LIMIT
  {
    hide CallNames, JPayload, Slot, SlotCount;
  }

  lemma {:induction false} CountedBelow(x: Sexp, n: nat)
    requires n <= KidCount(x) && forall k :: 0 <= k < KidCount(x) ==> WellWritten(Kid(x, k))
    ensures CountedOffset(x, n) + 4 * Sum(NameCounts(x), n) <= OutOffset(x, n)
  {
    hide Announced, CountedOffset, OutOffset, Kid, KidCount, IsCallName, CallNames, WellWritten, NameCounts;
    if n == 0 {
      OffsetsStart(x);
    } else {
      CountedBelow(x, n - 1);
      CountedStep(x, n - 1);
      OutStep(x, n - 1);
      SizesAt(x, n - 1);
      NotTheLimit(Kid(x, n - 1));
      AnnouncedSome(Kid(x, n - 1));
    }
  }

  lemma OffsetsStart(x: Sexp)
    ensures CountedOffset(x, 0) == 0 && OutOffset(x, 0) == 0
  {
  }

  lemma AnnouncedSome(x: Sexp)
    ensures Announced(x) >= 4
  {
    hide Counted;
  }

  /** A raw vector whose payload is the limit: the client makes room for eight bytes of header,
      writes four that announce four bytes too few, and needs four bytes more than it says. */
  lemma LimitReached()
    ensures var x := Sexp(NoAttributes, Raw(seq(0xffffec, _ => 0)));
      && IsR(x) && AllShaped(x) && CallNames(x) == 0 && JPayload(x) == LARGE_LIMIT && !WellWritten(x)
      && Announced(x) == JSize(x) == LARGE_LIMIT + 4 && Reach(x) == JSize(x) + 4
  {
    var x := Sexp(NoAttributes, Raw(seq(0xffffec, _ => 0)));
    SizeIs(x);
    NoKids(x);
    assert KidCount(x) == 0 && AtomSize(x.body) == LARGE_LIMIT;
    assert JPayload(x) == LARGE_LIMIT;
    assert CallNames(x) == 0;
    NothingMissing(x);
    RoomChoice(x);
    assert KidsReach(x, 0) == 0 && OutOffset(x, 0) == 0;
    assert PayloadReach(x) == LARGE_LIMIT;
  }

  // ---- the header ----

  /** A header as SetHdr leaves it is read back as it was meant. */
  lemma HeaderRead(m: seq<byte>, o: nat, ty: byte, len: nat)
    requires ty + XT_LARGE < 0x100 && !IS_LARGE(ty) && len <= MAX_INT32 && o + JHead(len) <= |m|
    requires len <= LARGE_LIMIT ==> WordAt(m, o) == SET_PAR(ty, len)
    requires len > LARGE_LIMIT ==> WordAt(m, o) == SET_PAR(ty + XT_LARGE, len) && WordAt(m, o + 4) == len / LEN24
    ensures HeaderThere(m, o) && HeaderEnd(m, o) == o + JHead(len) && Declared(m, o) == len
    ensures PAR_TYPE(WordAt(m, o)) == ty + if len > LARGE_LIMIT then XT_LARGE else 0
  {
    hide WordAt;
    if len > LARGE_LIMIT {
      assert PAR_TYPE(WordAt(m, o)) == ty + XT_LARGE && PAR_LEN(WordAt(m, o)) == len % LEN24;
      assert len == len % LEN24 + len / LEN24 * LEN24;
    } else {
      assert PAR_TYPE(WordAt(m, o)) == ty && PAR_LEN(WordAt(m, o)) == len;
    }
  }

  lemma FlagsRead(code: byte, attr: bool, large: bool, ty: byte)
    requires code < 64
    requires ty == code + (if attr then XT_HAS_ATTR else 0) + if large then XT_LARGE else 0
    ensures GET_XT(ty) == code && HAS_ATTR(ty) == attr && IS_LARGE(ty) == large
  {
  }

  /** Writes the header of x for the announced length. */
  method PutHeader(buf: array<byte>, off: nat, x: Sexp, myl: nat) returns (room: nat)
    requires myl == Announced(x) && off + Reach(x) <= buf.Length <= MAX_INT32
    modifies buf
    ensures room == Room(x) && HeaderWritten(x, buf[..], off)
    ensures OnlyChanged(old(buf[..]), buf[..], off, off + room)
  {
    hide Announced, Counted, PayloadReach, JavaType, WordAt, IS_LARGE, HeaderThere, HeaderEnd, Declared;
    RoomChoice(x);
    AnnouncedWithin(x);
    var isLarge := myl > LARGE_LIMIT;
    room := if isLarge then 8 else 4;
    var rxt := JavaType(x.body) + if x.attr.Attributes? then XT_HAS_ATTR else 0;
    FlagsRead(JavaType(x.body), x.attr.Attributes?, false, rxt);
    var _ := SetHdr(rxt, myl - room, buf, off);
    HeaderRead(buf[..], off, rxt, myl - room);
    FlagsRead(JavaType(x.body), x.attr.Attributes?, myl - room > LARGE_LIMIT, PAR_TYPE(WordAt(buf[..], off)));
  }

  // ---- nested values ----

  /** getBinaryRepresentation: the header, the attributes and the data, for any value the client
      can hold. The bytes are the value, as the factory takes it, exactly if it is well written,
      and the value itself if there is also no expression vector in it. */
  method GetBinaryRepresentation(buf: array<byte>, off: nat, x: Sexp) returns (end: nat)
    requires IsR(x) && AllShaped(x)
    requires off % 4 == 0 && off + Reach(x) <= buf.Length <= MAX_INT32
    modifies buf
    ensures end == off + Announced(x) && HeaderWritten(x, buf[..], off)
    ensures Image(AsGeneric(x), true, buf[..], off, off + JSize(x)) <==> WellWritten(x)
    ensures Image(x, true, buf[..], off, off + JSize(x)) <==> WellWritten(x) && AsGeneric(x) == x
    ensures CallNames(x) == 0 ==> Written(x, buf[..], off)
    ensures OnlyChanged(old(buf[..]), buf[..], off, off + Reach(x))
    decreases x, 3
  {
    hide JSize, JPayload, Kid, KidCount, IsR, AllShaped, WellWritten, Announced, Image, Written, HeaderWritten,
      PayloadWritten, AsGeneric, CallNames, Room, PayloadReach, Reach, OutOffset;
    var myl := GetBinaryLength(x);
    OutStart(x);
    var room := PutHeader(buf, off, x, myl);
    ghost var m1 := buf[..];
    RoomAligned(x);
    PutPayload(buf, off + room, x);
    end := off + myl;
    HeaderWrittenFrame(x, m1, buf[..], off);
    ImagedOrNot(x, buf[..], off);
  }

  lemma RoomAligned(x: Sexp)
    ensures Room(x) % 4 == 0
  {
  }

  /** What was written decides whether it is the value. */
  lemma ImagedOrNot(x: Sexp, m: seq<byte>, off: nat)
    requires AllShaped(x) && HeaderWritten(x, m, off)
    requires CallNames(x) == 0 ==> PayloadWritten(x, m, off + Room(x))
    ensures Image(AsGeneric(x), true, m, off, off + JSize(x)) <==> WellWritten(x)
    ensures Image(x, true, m, off, off + JSize(x)) <==> WellWritten(x) && AsGeneric(x) == x
    ensures CallNames(x) == 0 ==> Written(x, m, off)
  {
    hide JSize, AllShaped, WellWritten, Image, HeaderWritten, PayloadWritten, AsGeneric, CallNames, Room;
    WellWrittenIs(x);
    if CallNames(x) == 0 {
      WrittenWhole(x, m, off);
      GenericTwice(x);
      if WellWritten(x) && Image(x, true, m, off, off + JSize(x)) {
        SameTypes(x, m, off, off + JSize(x));
      }
    } else {
      TooShort(x, x, m, off);
      TooShort(x, AsGeneric(x), m, off);
    }
  }

  lemma {:induction false} GenericTwice(x: Sexp)
    ensures AsGeneric(AsGeneric(x)) == AsGeneric(x)
    decreases x
  {
    hide AsGeneric;
    GenericKids(x);
    forall k | 0 <= k < KidCount(x)
      ensures AsGeneric(Kid(AsGeneric(x), k)) == Kid(AsGeneric(x), k)
    {
      GenericTwice(Kid(x, k));
    }
    NoExpression(x);
    GenericAgain(AsGeneric(x));
  }

  lemma NoExpression(x: Sexp)
    ensures !(AsGeneric(x).body.Vector? && AsGeneric(x).body.isExpression)
  {
  }

  lemma GenericAgain(x: Sexp)
    requires !(x.body.Vector? && x.body.isExpression)
    requires forall k :: 0 <= k < KidCount(x) ==> AsGeneric(Kid(x, k)) == Kid(x, k)
    ensures AsGeneric(x) == x
  {
    if x.body.Closure? {
      hide AsGeneric;
      AttrSelf(x);
      ClosureSelf(x);
      assert AsGeneric(x) == Sexp(AsGeneric(x).attr, AsGeneric(x).body) && x == Sexp(x.attr, x.body);
    } else {
      GenericSelf(x);
    }
  }

  lemma ClosureSelf(x: Sexp)
    requires x.body.Closure?
    requires forall k :: 0 <= k < KidCount(x) ==> AsGeneric(Kid(x, k)) == Kid(x, k)
    ensures AsGeneric(x).body == x.body
  {
    var a := AttrCount(x);
    assert Kid(x, a) == x.body.formals && Kid(x, a + 1) == x.body.code;
    assert AsGeneric(x).body == Closure(AsGeneric(x.body.formals), AsGeneric(x.body.code));
  }

  /** A header that announces less than the value takes is not the header of the value. */
  lemma TooShort(x: Sexp, y: Sexp, m: seq<byte>, off: nat)
    requires AllShaped(x) && CallNames(x) > 0 && HeaderWritten(x, m, off)
    ensures !Image(y, true, m, off, off + JSize(x))
  {
    hide JSize, AllShaped, Image, CallNames, Announced, Room, WordAt, HeaderThere, HeaderEnd, Declared, JavaType;
    AnnouncedIsSize(x);
    RoomChoice(x);
    if Image(y, true, m, off, off + JSize(x)) {
      ImageHeader(y, m, off, off + JSize(x));
    }
  }

  /** What follows the header. */
  method PutPayload(buf: array<byte>, base: nat, x: Sexp)
    requires IsR(x) && AllShaped(x)
    requires base % 4 == 0 && base + PayloadReach(x) <= buf.Length <= MAX_INT32
    modifies buf
    ensures CallNames(x) == 0 ==> PayloadWritten(x, buf[..], base)
    ensures OnlyChanged(old(buf[..]), buf[..], base, base + PayloadReach(x))
    decreases x, 2
  {
    hide Announced, OutOffset, Slot, SlotCount, AtomSize, AtomAt, IsR, AllShaped, KidsWritten, NodeIsR, CallNames,
      PayloadReach, JKidOffset;
    NoKids(x);
    OutStart(x);
    KidsAreR(x);
    NoneWritten(x, buf[..], base);
    var off := base;
    if x.attr.Attributes? {
      KidShaped(x, 0);
      off := PutKid(buf, base, off, x.attr.list, x, 0);
    }
    PutBody(buf, base, off, x.body, x);
  }

  lemma NoneWritten(x: Sexp, m: seq<byte>, base: nat)
    ensures KidsWritten(x, m, base, 0)
  {
  }

  /** Writes the k-th nested value of x behind the ones before it. */
  method PutKid(buf: array<byte>, ghost base: nat, o: nat, kid: Sexp, ghost x: Sexp, ghost k: nat) returns (io: nat)
    requires IsR(kid) && AllShaped(kid) && k < KidCount(x) && kid == Kid(x, k)
    requires base % 4 == 0 && base + PayloadReach(x) <= buf.Length <= MAX_INT32
    requires o == base + OutOffset(x, k) && (CallNames(x) == 0 ==> KidsWritten(x, buf[..], base, k))
    modifies buf
    ensures io == base + OutOffset(x, k + 1) && (CallNames(x) == 0 ==> KidsWritten(x, buf[..], base, k + 1))
    ensures OnlyChanged(old(buf[..]), buf[..], base, base + PayloadReach(x))
    decreases kid, 4
  {
    hide JSize, OutOffset, Kid, KidCount, IsR, AllShaped, Image, CallNames, WellWritten, Announced, HeaderWritten,
      Written, PayloadReach, Reach, AsGeneric, JKidOffset, KidsWritten;
    KidWithin(x, k);
    OutStep(x, k);
    OutAligned(x, k);
    ghost var m1 := buf[..];
    io := GetBinaryRepresentation(buf, o, kid);
    if CallNames(x) == 0 {
      OutIsSize(x, k);
      KidNames(x, k);
      KidsWrittenFrame(x, m1, buf[..], base, k);
      OneMoreWritten(x, buf[..], base, k);
    }
  }

  lemma OneMoreWritten(x: Sexp, m: seq<byte>, base: nat, k: nat)
    requires k < KidCount(x) && KidsWritten(x, m, base, k) && Written(Kid(x, k), m, base + JKidOffset(x, k))
    ensures KidsWritten(x, m, base, k + 1)
  {
    hide Written, JKidOffset, Slot, SlotCount;
  }

  /** The second switch: the data, or the values of a list each followed by its name. */
  method PutBody(buf: array<byte>, ghost base: nat, off: nat, b: Body, ghost x: Sexp)
    requires IsR(x) && AllShaped(x) && b == x.body
    requires base % 4 == 0 && base + PayloadReach(x) <= buf.Length <= MAX_INT32
    requires off == base + OutOffset(x, AttrCount(x))
    requires CallNames(x) == 0 ==> KidsWritten(x, buf[..], base, AttrCount(x))
    modifies buf
    ensures CallNames(x) == 0 ==> PayloadWritten(x, buf[..], base)
    ensures OnlyChanged(old(buf[..]), buf[..], base, base + PayloadReach(x))
    decreases b, 5
  {
    hide OutOffset, Slot, SlotCount, AtomSize, AtomAt, IsR, AllShaped, KidsWritten, NodeIsR, CallNames, PayloadReach,
      JKidOffset, Announced, JSize, AtomMeasured;
    OutStart(x);
    ghost var m1 := buf[..];
    if b.Vector? || b.Pairs? {
      PutElements(buf, base, off, b, x);
      NoData(b);
      if CallNames(x) == 0 {
        OutIsSize(x, KidCount(x));
        NothingThere(b, buf[..], base + JKidOffset(x, KidCount(x)));
      }
    } else {
      OnlyAtom(x);
      KidsAreR(x);
      BodyIsR(x);
      OutAligned(x, AttrCount(x));
      PutAtom(buf, off, b);
      if CallNames(x) == 0 {
        OutIsSize(x, AttrCount(x));
        KidsWrittenFrame(x, m1, buf[..], base, AttrCount(x));
      }
    }
  }

  lemma BodyIsR(x: Sexp)
    requires NodeIsR(x) && KidCount(x) == AttrCount(x)
    ensures NodeIsR(Sexp(NoAttributes, x.body))
  {
  }

  method PutElements(buf: array<byte>, ghost base: nat, off: nat, b: Body, ghost x: Sexp)
    requires IsR(x) && AllShaped(x) && b == x.body && (b.Vector? || b.Pairs?)
    requires base % 4 == 0 && base + PayloadReach(x) <= buf.Length <= MAX_INT32
    requires off == base + OutOffset(x, AttrCount(x))
    requires CallNames(x) == 0 ==> KidsWritten(x, buf[..], base, AttrCount(x))
    modifies buf
    ensures CallNames(x) == 0 ==> KidsWritten(x, buf[..], base, KidCount(x))
    ensures OnlyChanged(old(buf[..]), buf[..], base, base + PayloadReach(x))
    decreases b, 0
  {
    hide OutOffset, Kid, KidCount, IsR, AllShaped, KidsWritten, IsTagged, Elements, NodeIsR, Shaped, CallNames,
      PayloadReach;
    ghost var a, per := AttrCount(x), Per(b);
    SlotsAre(x);
    KidsAreR(x);
    var lst, tagged := Elements(b), b.Pairs? && IsTagged(b.cells);
    var i, io := 0, off;
    while i < |lst|
      invariant i <= |lst| && io == base + OutOffset(x, a + per * i)
      invariant CallNames(x) == 0 ==> KidsWritten(x, buf[..], base, a + per * i)
      invariant OnlyChanged(old(buf[..]), buf[..], base, base + PayloadReach(x))
    {
      ElementIsKid(x, i);
      io := PutKid(buf, base, io, lst[i], x, a + per * i);
      if tagged {
        io := PutKid(buf, base, io, Sexp(NoAttributes, Symbol(b.cells[i].tag.body.name)), x, a + per * i + 1);
      }
      i := i + 1;
    }
  }

  /** The i-th value of a list and the symbol made of its name are what the format has there. */
  lemma ElementIsKid(x: Sexp, i: nat)
    requires IsR(x) && AllShaped(x) && (x.body.Vector? || x.body.Pairs?) && i < |Elements(x.body)|
    ensures KidCount(x) == AttrCount(x) + |Elements(x.body)| * Per(x.body)
    ensures var k := AttrCount(x) + Per(x.body) * i;
      && Kid(x, k) == Elements(x.body)[i] && AllShaped(Kid(x, k))
      && (x.body.Pairs? && IsTagged(x.body.cells) ==>
            && i < |x.body.cells| && x.body.cells[i].tag.body.Symbol?
            && Kid(x, k + 1) == x.body.cells[i].tag == Sexp(NoAttributes, Symbol(x.body.cells[i].tag.body.name))
            && AllShaped(Kid(x, k + 1)))
    ensures x.body.Pairs? && IsTagged(x.body.cells) ==> (x.body decreases to x.body.cells[i].tag)
  {
    hide KidCount, Kid, Elements, IsR, IsTagged, NodeIsR, AllShaped, Shaped;
    SlotsAre(x);
    KidsAreR(x);
    EntryIs(x, i);
    KidShaped(x, AttrCount(x) + Per(x.body) * i);
    if x.body.Pairs? && IsTagged(x.body.cells) {
      KidShaped(x, AttrCount(x) + Per(x.body) * i + 1);
      NameIs(x, i);
    }
  }

  lemma NameIs(x: Sexp, i: nat)
    requires NodeIsR(x) && Shaped(x) && x.body.Pairs? && IsTagged(x.body.cells) && i < |x.body.cells|
    ensures x.body.cells[i].tag.body.Symbol?
    ensures x.body.cells[i].tag == Sexp(NoAttributes, Symbol(x.body.cells[i].tag.body.name))
  {
    hide IsTagged;
    var t := x.body.cells[i].tag;
    assert IsTag(t) && t.body.Symbol?;
    assert t == Sexp(t.attr, t.body) && t.body == Symbol(t.body.name);
  }

  method PutAtom(buf: array<byte>, off: nat, b: Body)
    requires AtomMeasured(b) && !b.Vector? && !b.Pairs? && NodeIsR(Sexp(NoAttributes, b))
    requires off % 4 == 0 && off + AtomSize(b) <= buf.Length
    modifies buf
    ensures AtomAt(b, buf[..], off)
    ensures OnlyChanged(old(buf[..]), buf[..], off, off + AtomSize(b))
  {
    hide EscapedAll, Align;
    match b {
      case Ints(s) => PutInts(buf, off, s);
      case Reals(s) => PutDoubles(buf, off, s);
      case Logicals(s) => PutLogicals(buf, off, s);
      case Raw(s) => PutRaw(buf, off, s);
      case Strings(s) => PutStrings(buf, off, s);
      case Symbol(s) => var _ := PutString(buf, off, s);
      case _ =>
    }
  }

  method PutInts(buf: array<byte>, off: nat, s: seq<word>)
    requires off + 4 * |s| <= buf.Length
    modifies buf
    ensures AtomAt(Ints(s), buf[..], off)
    ensures OnlyChanged(old(buf[..]), buf[..], off, off + 4 * |s|)
  {
    var i, io := 0, off;
    while i < |s|
      invariant i <= |s| && io == off + 4 * i
      invariant forall j :: 0 <= j < i ==> WordAt(buf[..], off + 4 * j) == s[j]
      invariant OnlyChanged(old(buf[..]), buf[..], off, io)
    {
      SetInt(s[i], buf, io);
      i, io := i + 1, io + 4;
    }
  }

  method PutDoubles(buf: array<byte>, off: nat, s: seq<Double>)
    requires off + 8 * |s| <= buf.Length
    modifies buf
    ensures AtomAt(Reals(s), buf[..], off)
    ensures OnlyChanged(old(buf[..]), buf[..], off, off + 8 * |s|)
  {
    var i, io := 0, off;
    while i < |s|
      invariant i <= |s| && io == off + 8 * i
      invariant forall j :: 0 <= j < i ==> DoubleAt(s[j], buf[..], off + 8 * j)
      invariant OnlyChanged(old(buf[..]), buf[..], off, io)
    {
      SetLong(s[i].lo, s[i].hi, buf, io);
      i, io := i + 1, io + 8;
    }
  }

  /** The count and the bytes; nothing is written behind them. */
  method PutRaw(buf: array<byte>, off: nat, s: seq<byte>)
    requires |s| <= MAX_INT32 && off + AtomSize(Raw(s)) <= buf.Length
    modifies buf
    ensures AtomAt(Raw(s), buf[..], off)
    ensures OnlyChanged(old(buf[..]), buf[..], off, off + 4 + |s|)
  {
    SetInt(|s|, buf, off);
    CopyBytes(buf, off + 4, s);
    assert buf[..][off + 4..off + 4 + |s|] == buf[off + 4..off + 4 + |s|];
  }

  /** The elements, each with a doubled leading 0xff and a NUL, and 1 as padding. */
  method PutStrings(buf: array<byte>, off: nat, s: seq<RString>)
    requires off + AtomSize(Strings(s)) <= buf.Length
    modifies buf
    ensures AtomAt(Strings(s), buf[..], off)
    ensures OnlyChanged(old(buf[..]), buf[..], off, off + AtomSize(Strings(s)))
  {
    hide EscapedAll, Escaped;
    var i, io := 0, off;
    NoneYet(s);
    while i < |s|
      invariant i <= |s| && io == off + |EscapedAll(s, i)| <= buf.Length
      invariant buf[off..io] == EscapedAll(s, i)
      invariant OnlyChanged(old(buf[..]), buf[..], off, io)
    {
      EscapedPart(s, i, |s|);
      OneMore(s, i);
      ghost var done, from := buf[off..io], io;
      io := PutElement(buf, io, s[i]);
      assert buf[off..io] == buf[off..from] + buf[from..io] && buf[off..from] == done;
      i := i + 1;
    }
    ghost var m1 := buf[..];
    PadStrings(buf, off, io);
    SliceFrame(m1, buf[..], off, |EscapedAll(s, |s|)|);
  }

  /** Writes 1 up to a multiple of four behind off. */
  method PadStrings(buf: array<byte>, off: nat, end: nat)
    requires off <= end && off + Align(end - off) <= buf.Length
    modifies buf
    ensures forall j :: end <= j < off + Align(end - off) ==> buf[j] == 1
    ensures OnlyChanged(old(buf[..]), buf[..], end, off + Align(end - off))
  {
    var i, io := end - off, end;
    while i % 4 != 0
      invariant end - off <= i <= Align(end - off) && io == off + i
      invariant forall j :: end <= j < io ==> buf[j] == 1
      invariant OnlyChanged(old(buf[..]), buf[..], end, io)
      decreases Align(end - off) - i
    {
      buf[io] := 1;
      io := io + 1;
      i := i + 1;
    }
  }

  lemma NoneYet(s: seq<RString>)
    ensures EscapedAll(s, 0) == []
  {
  }

  lemma OneMore(s: seq<RString>, i: nat)
    requires i < |s|
    ensures EscapedAll(s, i + 1) == EscapedAll(s, i) + Escaped(s[i])
  {
  }

  method PutElement(buf: array<byte>, from: nat, s: RString) returns (io: nat)
    requires from + |Escaped(s)| <= buf.Length
    modifies buf
    ensures io == from + |Escaped(s)| && buf[from..io] == Escaped(s)
    ensures OnlyChanged(old(buf[..]), buf[..], from, io)
  {
    io := from;
    if s.Text? {
      io := PutText(buf, from, s.chars);
    } else {
      PutByte(buf, from, io, 0xff);
      io := io + 1;
    }
    PutByte(buf, from, io, 0);
    io := io + 1;
  }

  /** The bytes of a string that is not NA, the first one doubled if it is 0xff. */
  method PutText(buf: array<byte>, from: nat, b: seq<byte>) returns (io: nat)
    requires from + |b| + 2 <= buf.Length || (from + |b| + 1 <= buf.Length && (b == [] || b[0] != 0xff))
    modifies buf
    ensures var t := (if b != [] && b[0] == 0xff then [0xff] else []) + b;
      io == from + |t| && buf[from..io] == t
    ensures OnlyChanged(old(buf[..]), buf[..], from, io)
  {
    io := from;
    if |b| > 0 {
      if b[0] == 0xff {
        PutByte(buf, from, io, 0xff);
        io := io + 1;
      }
      PutBytes(buf, from, io, b);
      io := io + |b|;
    }
  }

  /** buf[io] := v, as an addition to what is there from offset from on. */
  method PutByte(buf: array<byte>, ghost from: nat, io: nat, v: byte)
    requires from <= io < buf.Length
    modifies buf
    ensures buf[from..io + 1] == old(buf[from..io]) + [v]
    ensures OnlyChanged(old(buf[..]), buf[..], io, io + 1)
  {
    buf[io] := v;
  }

  /** System.arraycopy, likewise. */
  method PutBytes(buf: array<byte>, ghost from: nat, io: nat, s: seq<byte>)
    requires from <= io && io + |s| <= buf.Length
    modifies buf
    ensures buf[from..io + |s|] == old(buf[from..io]) + s
    ensures OnlyChanged(old(buf[..]), buf[..], io, io + |s|)
  {
    CopyBytes(buf, io, s);
    assert buf[from..io + |s|] == buf[from..io] + buf[io..io + |s|];
  }

  /** getStringBinaryRepresentation: the bytes, a NUL, and more up to the next multiple of four. */
  method PutString(buf: array<byte>, off: nat, s: seq<byte>) returns (io: nat)
    requires off % 4 == 0 && off + Align(|s| + 1) <= buf.Length
    modifies buf
    ensures io == off + Align(|s| + 1) && AtomAt(Symbol(s), buf[..], off)
    ensures OnlyChanged(old(buf[..]), buf[..], off, io)
  {
    hide Align;
    CopyBytes(buf, off, s);
    io := off + |s|;
    buf[io] := 0;
    io := io + 1;
    AlignShift(off, |s| + 1);
    assert buf[off..off + |s|] == s;
    ghost var m1, end := buf[..], io;
    while io % 4 != 0
      invariant end <= io <= Align(end)
      invariant OnlyChanged(m1, buf[..], end, io)
      decreases Align(end) - io
    {
      BelowAlign(io, end);
      buf[io] := 0;
      io := io + 1;
    }
    BelowAlign(io, end);
    SliceFrame(m1, buf[..], off, |s|);
  }

  lemma BelowAlign(io: nat, end: nat)
    requires end <= io <= Align(end)
    ensures io % 4 != 0 <==> io < Align(end)
  {
  }

  /** The count, one byte each, and 3 up to the next multiple of four. */
  method PutLogicals(buf: array<byte>, off: nat, s: seq<Logical>)
    requires off % 4 == 0 && |s| <= MAX_INT32 && off + AtomSize(Logicals(s)) <= buf.Length
    modifies buf
    ensures AtomAt(Logicals(s), buf[..], off)
    ensures OnlyChanged(old(buf[..]), buf[..], off, off + AtomSize(Logicals(s)))
  {
    hide WordAt, Align, LogicalByte, MeansLogical;
    AlignShift(off + 4, |s|);
    SetInt(|s|, buf, off);
    ghost var m1 := buf[..];
    if |s| > 0 {
      PutBools(buf, off + 4, s);
      Pad(buf, off + 4 + |s|);
    }
    WordsFrame(m1, buf[..], off, 1);
    BytesMean();
  }

  lemma BytesMean()
    ensures forall l: Logical :: MeansLogical(LogicalByte(l), l)
  {
  }

  method PutBools(buf: array<byte>, off: nat, s: seq<Logical>)
    requires off + |s| <= buf.Length
    modifies buf
    ensures forall j :: 0 <= j < |s| ==> buf[off + j] == LogicalByte(s[j])
    ensures OnlyChanged(old(buf[..]), buf[..], off, off + |s|)
  {
    var io := off;
    for i := 0 to |s|
      invariant io == off + i
      invariant forall j :: 0 <= j < i ==> buf[off + j] == LogicalByte(s[j])
      invariant OnlyChanged(old(buf[..]), buf[..], off, io)
    {
      buf[io] := if s[i].LogicalNA? then 2 else if s[i].False? then 0 else 1;
      io := io + 1;
    }
  }

  /** Writes 3 up to the next multiple of four. */
  method Pad(buf: array<byte>, from: nat)
    requires Align(from) <= buf.Length
    modifies buf
    ensures OnlyChanged(old(buf[..]), buf[..], from, Align(from))
  {
    var io := from;
    while io % 4 != 0
      invariant from <= io <= Align(from)
      invariant OnlyChanged(old(buf[..]), buf[..], from, Align(from))
      decreases Align(from) - io
    {
      buf[io] := 3;
      io := io + 1;
    }
  }
}
