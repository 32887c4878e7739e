/** What the C serialiser and the C reader guarantee together. */
module QapTheorems {
  import opened Bytes
  import opened Rsrv
  import opened Sexps
  import opened Sums
  import opened QapLayout
  import opened QapSizes
  import opened QapDecode
  import opened QapImage
  import opened QapExact

  // ---- headers that hold their length ----

  /** The length the serialiser's header ends up with: 24 or 56 bits of the real one. */
  function Truncated(x: Sexp, ss: nat): nat
  {
    if HeadSize(x, ss) == 4 then Payload(x) % LEN24 else Payload(x) % LEN56
  }

  /** The header chosen for an expected size of ss serves the reader: its length is right, or
      is one a lax reader is content with. */
  predicate HeaderServes(x: Sexp, ss: nat, strict: bool)
  {
    || Truncated(x, ss) == Payload(x)
    || (!strict && (x.body.Logicals? || x.body.S4?))
    || (!strict && IsContainer(x.body) && (SlotCount(x.body) > 0 ==> KidOffset(x, LastEntry(x)) < Truncated(x, ss)))
  }

  predicate HeadersServe(x: Sexp, ss: nat, strict: bool)
    decreases x
  {
    && HeaderServes(x, ss, strict)
    && forall k :: 0 <= k < KidCount(x) ==> HeadersServe(Kid(x, k), Storage(Kid(x, k)), strict)
  }

  lemma HeaderParsed(x: Sexp, ss: nat, m: seq<byte>, o: nat)
    requires o + SizeAs(x, ss) <= |m| && HeaderStored(x, ss, m, o)
    ensures HeaderThere(m, o)
    ensures GET_XT(PAR_TYPE(WordAt(m, o))) == TypeCode(x.body)
    ensures HAS_ATTR(PAR_TYPE(WordAt(m, o))) == x.attr.Attributes?
    ensures HeaderEnd(m, o) == o + HeadSize(x, ss)
    ensures Declared(m, o) == Truncated(x, ss)
  {
    hide TypeCode, Payload, Storage, WordAt;
    var ty := TypeByte(x);
    if HeadSize(x, ss) == 4 {
      assert PAR_TYPE(WordAt(m, o)) == ty;
    } else {
      assert PAR_TYPE(WordAt(m, o)) == ty + XT_LARGE;
      HighLow(Payload(x));
    }
  }

  lemma HighLow(p: nat)
    ensures p % LEN24 + p / LEN24 % 0x1_0000_0000 * LEN24 == p % LEN56
  {
    var hi := p / LEN24;
    assert p == hi * LEN24 + p % LEN24;
    var q, r := hi / 0x1_0000_0000, hi % 0x1_0000_0000;
    assert p == q * LEN56 + (r * LEN24 + p % LEN24);
  }

  /** Stored bytes whose headers serve follow the format. */
  lemma {:induction false} StoredImage(x: Sexp, ss: nat, strict: bool, m: seq<byte>, o: nat)
    requires IsR(x) && Stored(x, ss, m, o) && HeadersServe(x, ss, strict)
    ensures Image(x, strict, m, o, o + SizeAs(x, ss))
    decreases x
  {
    hide KidOffset, Storage, Slot, SlotCount, IsR, OwnImage, SizeAs, HeaderServes, OwnBytesStored, HeadSize;
    var base, e := o + HeadSize(x, ss), o + SizeAs(x, ss);
    var ps := seq(KidCount(x) + 1, k requires 0 <= k <= KidCount(x) => base + KidOffset(x, k));
    OwnStoredImage(x, ss, strict, m, o, ps);
    forall k | 0 <= k < KidCount(x)
      ensures ps[k] < ps[k + 1] && Image(Kid(x, k), strict, m, ps[k], ps[k + 1])
    {
      KidIsR(x, k);
      KidOffsetStep(x, k);
      OwnSize(Kid(x, k));
      StoredImage(Kid(x, k), Storage(Kid(x, k)), strict, m, ps[k]);
    }
    assert ImageBy(x, strict, m, o, e, ps);
  }

  lemma OwnSize(x: Sexp)
    ensures SizeAs(x, Storage(x)) == Size(x)
  {
    hide Storage, Payload;
  }

  lemma OwnStoredImage(x: Sexp, ss: nat, strict: bool, m: seq<byte>, o: nat, ps: seq<nat>)
    requires IsR(x) && OwnBytesStored(x, ss, m, o) && HeaderServes(x, ss, strict)
    requires |ps| == KidCount(x) + 1
    requires forall k :: 0 <= k <= KidCount(x) ==> ps[k] == o + HeadSize(x, ss) + KidOffset(x, k)
    ensures OwnImage(x, strict, m, o, o + SizeAs(x, ss), ps)
  {
    hide AtomAt, PaddedAt, KidOffset, Storage, Slot, SlotCount, AtomSize, IsR, TypeCode, Truncated, LengthFits,
      HeaderStored, Declared,
      HeaderServes;
    HeaderParsed(x, ss, m, o);
    NoneBefore(x);
    LengthServes(x, ss, strict, o + HeadSize(x, ss), o + SizeAs(x, ss), Declared(m, o), ps);
  }

  lemma NoneBefore(x: Sexp)
    ensures KidOffset(x, 0) == 0
    ensures Payload(x) == KidOffset(x, KidCount(x)) + AtomSize(x.body)
  {
  }

  lemma LengthServes(x: Sexp, ss: nat, strict: bool, base: nat, e: nat, len: nat, ps: seq<nat>)
    requires IsR(x) && HeaderServes(x, ss, strict) && len == Truncated(x, ss) && e == base + Payload(x)
    requires |ps| == KidCount(x) + 1 && forall k :: 0 <= k <= KidCount(x) ==> ps[k] == base + KidOffset(x, k)
    ensures LengthFits(x, strict, len, base, e, if SlotCount(x.body) > 0 then ps[LastEntry(x)] else 0)
  {
    hide KidOffset, Storage, Slot, AtomSize, Payload, IsTagged, Truncated;
    TruncatedBelow(x, ss);
  }

  lemma TruncatedBelow(x: Sexp, ss: nat)
    ensures Truncated(x, ss) <= Payload(x)
  {
    hide Payload, Storage;
  }

  // ---- skipping by headers ----

  /** Where the k-th of several consecutive values starts, found from headers alone. */
  function SkipMany(m: seq<byte>, o: nat, k: nat): (p: nat)
    decreases k
  {
    if k == 0 then o
    else
      var p := SkipMany(m, o, k - 1);
      if HeaderThere(m, p) then Skip(m, p) else p
  }

  /** If all headers hold their length, then skipping k values by their headers from the first
      nested value of x leads to nested value k, and the header of x itself leads behind x.
      With StoredImage for the nested values this holds at every level. */
  lemma {:induction false} SkipLaw(x: Sexp, ss: nat, m: seq<byte>, o: nat, k: nat)
    requires IsR(x) && Stored(x, ss, m, o) && HeadersServe(x, ss, true) && k <= KidCount(x)
    ensures HeaderThere(m, o) && Skip(m, o) == o + SizeAs(x, ss)
    ensures SkipMany(m, HeaderEnd(m, o), k) == HeaderEnd(m, o) + KidOffset(x, k)
    ensures k < KidCount(x) ==>
      Stored(Kid(x, k), Storage(Kid(x, k)), m, SkipMany(m, HeaderEnd(m, o), k))
    decreases x, k
  {
    hide KidOffset, Storage, Slot, SlotCount, AtomSize, IsR, Stored, HeadersServe, HeaderThere, Skip, HeaderEnd,
      HeadSize, SizeAs;
    OwnSkip(x, ss, m, o);
    NoneBefore(x);
    if k > 0 {
      SkipLaw(x, ss, m, o, k - 1);
      KidStored(x, ss, m, o, k - 1);
      KidOffsetStep(x, k - 1);
      OwnSize(Kid(x, k - 1));
      OwnSkip(Kid(x, k - 1), Storage(Kid(x, k - 1)), m, o + HeadSize(x, ss) + KidOffset(x, k - 1));
    }
    if k < KidCount(x) {
      KidStored(x, ss, m, o, k);
    }
  }

  lemma KidStored(x: Sexp, ss: nat, m: seq<byte>, o: nat, k: nat)
    requires IsR(x) && Stored(x, ss, m, o) && HeadersServe(x, ss, true) && k < KidCount(x)
    ensures IsR(Kid(x, k)) && HeadersServe(Kid(x, k), Storage(Kid(x, k)), true)
    ensures Stored(Kid(x, k), Storage(Kid(x, k)), m, o + HeadSize(x, ss) + KidOffset(x, k))
  {
    hide KidOffset, Storage, Slot, SlotCount, IsR, OwnBytesStored, HeaderServes, HeadSize;
    KidIsR(x, k);
  }

  lemma OwnSkip(x: Sexp, ss: nat, m: seq<byte>, o: nat)
    requires IsR(x) && Stored(x, ss, m, o) && HeadersServe(x, ss, true)
    ensures HeaderThere(m, o) && Skip(m, o) == o + SizeAs(x, ss) && HeaderEnd(m, o) == o + HeadSize(x, ss)
  {
    hide Storage, Payload, Slot, SlotCount, IsR, HeaderStored, Declared, HeaderEnd, HeaderThere, KidOffset, TypeCode,
      Truncated, WordAt, AtomAt, PaddedAt;
    HeaderParsed(x, ss, m, o);
  }

  /** A header holds its length unless it is short and the payload needs more than 24 bits. */
  lemma HeaderHolds(x: Sexp, ss: nat)
    requires Payload(x) < LEN56
    ensures HeaderServes(x, ss, true) <==> (HeadSize(x, ss) == 8 || Payload(x) < LEN24)
  {
    hide Payload, Storage;
  }

  lemma NullIsEmpty(x: Sexp)
    requires IsR(x) && x.body.Null?
    ensures Payload(x) == 0
  {
  }

  /** Without raw or logical vectors of length one every header holds its length, because the
      estimate that chose it was not too low. */
  lemma {:induction false} EstimateServes(x: Sexp, ss: nat)
    requires IsR(x) && Shorts(x) == 0 && ss >= Storage(x) && Payload(x) < LEN56
    ensures HeadersServe(x, ss, true)
    decreases x
  {
    hide Storage, KidOffset, Slot, SlotCount, AtomSize, IsR, Truncated, OwnShort;
    SizeBound(x);
    HeaderHolds(x, ss);
    if x.body.Null? {
      NullIsEmpty(x);
    }
    forall k | 0 <= k < KidCount(x)
      ensures HeadersServe(Kid(x, k), Storage(Kid(x, k)), true)
    {
      KidIsR(x, k);
      KidOffsetStep(x, k);
      SumMonotone(KidShorts(x), k, KidCount(x));
      EstimateServes(Kid(x, k), Storage(Kid(x, k)));
    }
  }

  /** Whatever the estimate was, no header is too short for a payload below 2^24 bytes. */
  lemma {:induction false} SmallServes(x: Sexp, ss: nat)
    requires IsR(x) && Payload(x) < LEN24
    ensures HeadersServe(x, ss, true)
    decreases x
  {
    hide Storage, KidOffset, Slot, SlotCount, AtomSize, IsR, Truncated;
    HeaderHolds(x, ss);
    forall k | 0 <= k < KidCount(x)
      ensures HeadersServe(Kid(x, k), Storage(Kid(x, k)), true)
    {
      KidIsR(x, k);
      KidOffsetStep(x, k);
      SmallServes(Kid(x, k), Storage(Kid(x, k)));
    }
  }

  // ---- reading back what was stored ----

  /** Exactly the values that survive a round trip: readable ones whose headers serve the
      C reader. */
  predicate Survives(x: Sexp, ss: nat)
  {
    Readable(x) && HeadersServe(x, ss, false)
  }

  /** Values that are read right, but with the cursor left inside their attributes, because those
      are longer than what the header says of the whole: the reader does not need the length for
      the data, and then takes it for the end. */
  predicate Rewound(x: Sexp, ss: nat)
  {
    (x.body.Raw? || x.body.Symbol? || x.body == Strings([])) && Truncated(x, ss) < KidOffset(x, AttrCount(x))
  }

  /** No such value is nested in x. Behind one, the reader would go on with bytes of its
      attributes, and whatever those are. */
  predicate Steady(x: Sexp)
    decreases x
  {
    forall k :: 0 <= k < KidCount(x) ==> !Rewound(Kid(x, k), Storage(Kid(x, k))) && Steady(Kid(x, k))
  }

  lemma KidSteady(x: Sexp, k: nat)
    requires Steady(x) && k < KidCount(x)
    ensures Steady(Kid(x, k)) && !Rewound(Kid(x, k), Storage(Kid(x, k)))
  {
    hide Rewound, Slot, SlotCount, Storage;
  }

  lemma StoredReadsBack(x: Sexp, ss: nat, m: seq<byte>, o: nat)
    requires IsR(x) && Stored(x, ss, m, o) && Survives(x, ss)
    ensures o <= |m| && DecodeAt(m, o) == Done(x, o + SizeAs(x, ss))
  {
    hide Stored, IsR, Readable, HeadersServe, Image, DecodeAt, SizeAs;
    StoredImage(x, ss, false, m, o);
    ReadBack(x, false, m, o, o + SizeAs(x, ss));
  }

  /** The short header of a value without parts never overflows by its own data alone. */
  lemma AtomIsShort(x: Sexp, ss: nat)
    requires ss >= Storage(x) && HeadSize(x, ss) == 4 && !x.body.Null?
    ensures AtomSize(x.body) < LEN24
  {
    hide AtomSize, AtomStorage, PartsStorage, OwnShort;
    AtomCovered(x.body);
    OneShort(x.body);
  }

  lemma OneShort(b: Body)
    ensures OwnShort(b) <= 1
  {
  }

  /** The C reader does not return x from bytes stored for x; only for a bare S4 object does
      it return the value, with the cursor still at its start. */
  ghost predicate NotReadBack(x: Sexp, r: Outcome, o: nat)
  {
    r.Done? && r.value == x ==> x == Sexp(NoAttributes, S4) && r.next == o
  }

  /** A value that does not survive is not read back. */
  lemma {:induction false} Lost(x: Sexp, ss: nat, m: seq<byte>, o: nat)
    requires IsR(x) && Stored(x, ss, m, o) && ss >= Storage(x) && Payload(x) < LEN56
    requires !Survives(x, ss) && Steady(x) && !Rewound(x, ss)
    ensures o <= |m| && NotReadBack(x, DecodeAt(m, o), o)
    decreases x, 3
  {
    hide Stored, IsR, Survives, SizeAs, TypeCode, Truncated, DecodeAt, DecodeBody, NodeIsR, Storage, Payload, WordAt,
      KidOffset, Steady, Rewound, HeaderThere, HeaderEnd, Declared, Slot, SlotCount;
    OwnParts(x, ss, m, o);
    HeaderParsed(x, ss, m, o);
    HeaderOpens(m, o);
    if x.attr.Attributes? {
      if Survives(Kid(x, 0), Storage(Kid(x, 0))) {
        BehindAttributes(x, ss, m, o);
        BodyLost(x, ss, m, o, o + HeadSize(x, ss) + KidOffset(x, 1));
      } else {
        AttributesLost(x, ss, m, o);
      }
    } else {
      NoneBefore(x);
      BodyLost(x, ss, m, o, o);
    }
  }

  /** Attributes that survive are read and the data behind them follows. */
  lemma BehindAttributes(x: Sexp, ss: nat, m: seq<byte>, o: nat)
    requires IsR(x) && Stored(x, ss, m, o) && Payload(x) < LEN56 && x.attr.Attributes?
    requires Survives(Kid(x, 0), Storage(Kid(x, 0)))
    ensures var b, ln := o + HeadSize(x, ss) + KidOffset(x, 1), Truncated(x, ss) - KidOffset(x, 1);
      && b <= |m| && o + HeadSize(x, ss) <= |m| && Kid(x, 0) == x.attr.list
      && Attributed(m, TypeCode(x.body), o + HeadSize(x, ss), Truncated(x, ss))
         == SetAttrib(DecodeBody(m, TypeCode(x.body), b, ln, b), x.attr.list)
  {
    hide Stored, IsR, Survives, SizeAs, TypeCode, Truncated, DecodeAt, DecodeBody, NodeIsR, Storage, Payload, WordAt,
      KidOffset, HeadSize;
    KidParts(x, ss, m, o, 0);
    NoneBefore(x);
    StoredReadsBack(Kid(x, 0), Storage(Kid(x, 0)), m, o + HeadSize(x, ss));
  }

  lemma OwnParts(x: Sexp, ss: nat, m: seq<byte>, o: nat)
    requires IsR(x) && Stored(x, ss, m, o)
    ensures NodeIsR(x) && o + SizeAs(x, ss) <= |m| && HeaderStored(x, ss, m, o)
    ensures o + HeadSize(x, ss) + KidOffset(x, KidCount(x)) + AtomSize(x.body) == o + SizeAs(x, ss)
  {
    hide TypeCode, AtomAt, PaddedAt, KidOffset, AtomSize, Storage, Slot, SlotCount;
    NoneBefore(x);
  }

  /** Nested values inherit everything but the question whether they survive. */
  lemma KidParts(x: Sexp, ss: nat, m: seq<byte>, o: nat, k: nat)
    requires IsR(x) && Stored(x, ss, m, o) && Payload(x) < LEN56 && k < KidCount(x)
    ensures IsR(Kid(x, k)) && Payload(Kid(x, k)) < LEN56
    ensures Stored(Kid(x, k), Storage(Kid(x, k)), m, o + HeadSize(x, ss) + KidOffset(x, k))
    ensures o + HeadSize(x, ss) + KidOffset(x, k) + Size(Kid(x, k)) == o + HeadSize(x, ss) + KidOffset(x, k + 1) <= |m|
    ensures SizeAs(Kid(x, k), Storage(Kid(x, k))) == Size(Kid(x, k))
  {
    hide TypeCode, AtomAt, PaddedAt, KidOffset, AtomSize, Storage, Slot, SlotCount, HeaderStored;
    KidOffsetStep(x, k);
    OwnParts(x, ss, m, o);
  }

  /** Either some nested value from i on does not survive, or x itself is the problem. */
  ghost predicate LostFrom(x: Sexp, ss: nat, i: nat)
  {
    || (exists k :: i <= k < KidCount(x) && !Survives(Kid(x, k), Storage(Kid(x, k))))
    || !NodeReadable(x) || !HeaderServes(x, ss, false)
  }

  lemma LostSomewhere(x: Sexp, ss: nat)
    requires !Survives(x, ss)
    ensures LostFrom(x, ss, 0)
  {
    hide Storage, Slot, SlotCount, NodeReadable, HeaderServes;
    if forall k :: 0 <= k < KidCount(x) ==> Survives(Kid(x, k), Storage(Kid(x, k))) {
      assert forall k :: 0 <= k < KidCount(x) ==> Readable(Kid(x, k));
    }
  }

  /** Attributes that do not survive are not read back, and so neither is x. */
  lemma {:induction false} AttributesLost(x: Sexp, ss: nat, m: seq<byte>, o: nat)
    requires IsR(x) && Stored(x, ss, m, o) && Payload(x) < LEN56 && Steady(x)
    requires x.attr.Attributes? && !Survives(Kid(x, 0), Storage(Kid(x, 0)))
    ensures o <= |m| && NotReadBack(x, DecodeAt(m, o), o)
    decreases x, 2
  {
    hide Stored, IsR, Survives, SizeAs, TypeCode, Truncated, DecodeAt, DecodeBody, Storage, Payload, HeaderStored,
      WordAt, KidOffset, Steady, Rewound, HeaderThere, HeaderEnd, Declared, Slot, SlotCount, HeadSize, NodeIsR;
    OwnParts(x, ss, m, o);
    HeaderParsed(x, ss, m, o);
    HeaderOpens(m, o);
    KidParts(x, ss, m, o, 0);
    NoneBefore(x);
    KidSteady(x, 0);
    ListHasNoObject(x);
    Lost(Kid(x, 0), Storage(Kid(x, 0)), m, o + HeadSize(x, ss));
  }

  /** The data behind surviving attributes does not come back as the body of x. */
  lemma {:induction false} BodyLost(x: Sexp, ss: nat, m: seq<byte>, o: nat, stay: nat)
    requires IsR(x) && Stored(x, ss, m, o) && ss >= Storage(x) && Payload(x) < LEN56
    requires !Survives(x, ss) && Steady(x) && !Rewound(x, ss)
    requires x.attr.Attributes? ==> Survives(Kid(x, 0), Storage(Kid(x, 0)))
    requires stay == if x.attr.Attributes? then o + HeadSize(x, ss) + KidOffset(x, 1) else o
    ensures o + HeadSize(x, ss) + KidOffset(x, AttrCount(x)) <= |m|
    ensures var r := DecodeBody(m, TypeCode(x.body), o + HeadSize(x, ss) + KidOffset(x, AttrCount(x)),
                                Truncated(x, ss) - KidOffset(x, AttrCount(x)), stay);
      r.Done? && r.value.body == x.body ==> x == Sexp(NoAttributes, S4) && r.next == o
    decreases x, 1
  {
    hide Stored, IsR, Survives, SizeAs, Truncated, Storage, Payload, HeaderStored, KidOffset, DecodeElems, DecodeCells,
      NodeReadable, HeaderServes, Slot, AtomSize, Steady, Rewound;
    OwnParts(x, ss, m, o);
    KidOffsetWithin(x, AttrCount(x));
    LostSomewhere(x, ss);
    assert LostFrom(x, ss, AttrCount(x));
    var ie := o + HeadSize(x, ss) + Truncated(x, ss);
    match x.body {
      case Vector(_, elems) =>
        EmptyServes(x, ss);
        if ie <= |m| {
          ElemsLost(x, ss, m, o, 0);
        }
      case Pairs(_, cells) =>
        if ie <= |m| {
          CellsLost(x, ss, m, o, 0);
        }
      case _ =>
        AtomLost(x, ss, m, o, stay);
    }
  }

  /** An empty list or vector survives if its attributes do: its length does not matter. */
  lemma EmptyServes(x: Sexp, ss: nat)
    requires IsContainer(x.body) && LostFrom(x, ss, AttrCount(x))
    ensures SlotCount(x.body) > 0
  {
    hide Storage, Payload, KidOffset, Truncated, Survives, IsTagged;
  }

  lemma KidOffsetWithin(x: Sexp, k: nat)
    requires k <= KidCount(x)
    ensures KidOffset(x, k) <= KidOffset(x, KidCount(x)) <= Payload(x)
  {
    hide Slot, SlotCount, AtomSize, Storage, KidSizes;
    SumMonotone(KidSizes(x), k, KidCount(x));
  }

  /** Too long a payload for the short header leaves less than nothing for the data. */
  lemma AtomLost(x: Sexp, ss: nat, m: seq<byte>, o: nat, stay: nat)
    requires IsR(x) && Stored(x, ss, m, o) && ss >= Storage(x) && Payload(x) < LEN56
    requires !IsContainer(x.body) && LostFrom(x, ss, AttrCount(x)) && !Rewound(x, ss)
    requires o <= stay <= o + HeadSize(x, ss) + KidOffset(x, AttrCount(x)) <= |m|
    requires x.attr.NoAttributes? ==> stay == o
    ensures var r := DecodeBody(m, TypeCode(x.body), o + HeadSize(x, ss) + KidOffset(x, AttrCount(x)),
                                Truncated(x, ss) - KidOffset(x, AttrCount(x)), stay);
      r.Done? && r.value.body == x.body ==> x == Sexp(NoAttributes, S4) && r.next == o
  {
    hide Stored, Storage, KidOffset, IsTagged, AtomSize, Payload, Truncated, DecodeBody, Rewound, HeadSize, NodeIsR;
    OwnParts(x, ss, m, o);
    var b, ln := o + HeadSize(x, ss) + KidOffset(x, AttrCount(x)), Truncated(x, ss) - KidOffset(x, AttrCount(x));
    if x.body.Closure? || x.body.Other? || x == Sexp(NoAttributes, S4) {
      Disregarded(x.body, m, b, ln, stay);
    } else {
      AtomUnserved(x, ss);
      NegativeIsOther(x.body, m, b, ln, stay);
    }
  }

  lemma AtomUnserved(x: Sexp, ss: nat)
    requires IsR(x) && ss >= Storage(x) && Payload(x) < LEN56
    requires !IsContainer(x.body) && LostFrom(x, ss, AttrCount(x)) && !Rewound(x, ss)
    requires !x.body.Closure? && !x.body.Other? && x != Sexp(NoAttributes, S4)
    ensures -0x200_0000 <= Truncated(x, ss) - KidOffset(x, AttrCount(x)) < 0
    ensures x.body.Ints? || x.body.Reals? || x.body.Complexes? || (x.body.Strings? && x.body.strings != [])
  {
    hide Storage, KidOffset, AtomSize, Payload, Truncated, Survives;
    assert SlotCount(x.body) == 0 && KidCount(x) == AttrCount(x);
    assert !HeaderServes(x, ss, false);
    TruncatedBelow(x, ss);
    if x.body.Null? {
      NullIsEmpty(x);
    } else {
      Negative(x, ss);
      NoneBefore(x);
      ShortHead(x, ss);
      PayloadBelowTwice(x, ss);
      KidOffsetWithin(x, AttrCount(x));
    }
  }

  lemma ShortHead(x: Sexp, ss: nat)
    requires Truncated(x, ss) != Payload(x) && Payload(x) < LEN56 && !x.body.Null?
    ensures ss <= LARGE_LIMIT
  {
    hide Storage, Payload;
  }

  /** A negative length is a negative number of elements, or no text at all. */
  lemma NegativeIsOther(b: Body, m: seq<byte>, at: nat, ln: int, stay: nat)
    requires b.Ints? || b.Reals? || b.Complexes? || (b.Strings? && b.strings != [])
    requires -0x200_0000 <= ln < 0 && stay <= at <= |m| && at + ln >= 0
    ensures var r := DecodeBody(m, TypeCode(b), at, ln, stay); r.Done? ==> r.value.body != b
  {
    hide StringsOf, NulAfter, Count;
    CountNegative(-ln, 4);
    CountNegative(-ln, 8);
    CountNegative(-ln, 16);
  }

  lemma Negative(x: Sexp, ss: nat)
    requires ss >= Storage(x) && Payload(x) < LEN56 && !x.body.Null? && SlotCount(x.body) == 0
    requires Truncated(x, ss) != Payload(x)
    ensures Truncated(x, ss) < KidOffset(x, AttrCount(x))
  {
    hide AtomSize, Storage, KidOffset, IsTagged;
    NoneBefore(x);
    AtomIsShort(x, ss);
    var p := Payload(x);
    assert p % LEN24 + p / LEN24 * LEN24 == p;
  }

  /** From entry i on, the element loop does not complete the vector. */
  lemma {:induction false} ElemsLost(x: Sexp, ss: nat, m: seq<byte>, o: nat, i: nat)
    requires IsR(x) && Stored(x, ss, m, o) && ss >= Storage(x) && Payload(x) < LEN56 && Steady(x)
    requires x.body.Vector? && i < |x.body.elems|
    requires LostFrom(x, ss, AttrCount(x) + i)
    ensures o + HeadSize(x, ss) + KidOffset(x, AttrCount(x) + i) <= |m|
    ensures var l := DecodeElems(m, o + HeadSize(x, ss) + KidOffset(x, AttrCount(x) + i),
                                 o + HeadSize(x, ss) + Truncated(x, ss), x.body.elems[..i]);
      l.Finished? ==> l.items != x.body.elems
    decreases x, 0, |x.body.elems| - i
  {
    hide Stored, IsR, Survives, SizeAs, Truncated, Storage, Payload, KidOffset, DecodeAt, AtomSize, HeadSize, Steady,
      Rewound;
    var elems, k := x.body.elems, AttrCount(x) + i;
    var base := o + HeadSize(x, ss);
    KidParts(x, ss, m, o, k);
    KidOffsetStep(x, k);
    KidSteady(x, k);
    assert Kid(x, k) == elems[i];
    if Survives(elems[i], Storage(elems[i])) {
      StoredReadsBack(elems[i], Storage(elems[i]), m, base + KidOffset(x, k));
      if KidOffset(x, k) < Truncated(x, ss) {
        StillLost(x, ss, k, 1);
        ElemsLost(x, ss, m, o, i + 1);
        assert elems[..i] + [elems[i]] == elems[..i + 1];
      }
    } else {
      Lost(elems[i], Storage(elems[i]), m, base + KidOffset(x, k));
    }
  }

  /** If the entry at k survives and the loop got to it, then a later one is lost. */
  lemma StillLost(x: Sexp, ss: nat, k: nat, per: nat)
    requires IsContainer(x.body) && SlotCount(x.body) > 0 && LostFrom(x, ss, k)
    requires per == KidCount(x) - LastEntry(x) && k <= LastEntry(x)
    requires forall j :: k <= j < k + per ==> Survives(Kid(x, j), Storage(Kid(x, j)))
    requires KidOffset(x, k) < Truncated(x, ss)
    ensures k < LastEntry(x) && LostFrom(x, ss, k + per)
  {
    hide Survives, Storage, KidOffset, Truncated, Payload, Slot, SlotCount, IsTagged;
  }

  /** Where the k-th nested value of x is stored. */
  function KidAt(x: Sexp, ss: nat, o: nat, k: nat): nat
    requires k <= KidCount(x)
  {
    o + HeadSize(x, ss) + KidOffset(x, k)
  }

  /** From cell i on, the loop does not complete the pairlist. */
  lemma {:induction false} CellsLost(x: Sexp, ss: nat, m: seq<byte>, o: nat, i: nat)
    requires IsR(x) && Stored(x, ss, m, o) && ss >= Storage(x) && Payload(x) < LEN56 && Steady(x)
    requires x.body.Pairs? && i < |x.body.cells|
    requires LostFrom(x, ss, CellIndex(x, i))
    ensures LoopFails(x, ss, m, o, i)
    decreases x, 0, |x.body.cells| - i
  {
    hide Stored, IsR, Survives, SizeAs, Truncated, Storage, Payload, KidOffset, DecodeAt, AtomSize, HeadSize,
      IsTagged, Slot, LostFrom, Steady,
      CellSurvives, DecodeCells;
    var cells, k := x.body.cells, CellIndex(x, i);
    CellIsKid(x, i);
    KidParts(x, ss, m, o, k);
    if CellSurvives(x, i) {
      if KidOffset(x, k) < Truncated(x, ss) {
        CellReadBack(x, ss, m, o, i);
        StillLost(x, ss, k, PerCell(x));
        CellsLost(x, ss, m, o, i + 1);
        assert cells[..i] + [cells[i]] == cells[..i + 1];
        CellsTurn(m, IsTagged(cells), KidAt(x, ss, o, k), o + HeadSize(x, ss) + Truncated(x, ss), cells[..i], cells[i],
                  KidAt(x, ss, o, CellIndex(x, i + 1)));
      } else {
        CellsEnd(m, IsTagged(cells), KidAt(x, ss, o, k), o + HeadSize(x, ss) + Truncated(x, ss), cells[..i]);
      }
    } else {
      CellLost(x, ss, m, o, i);
    }
  }

  ghost predicate LoopFails(x: Sexp, ss: nat, m: seq<byte>, o: nat, i: nat)
    requires x.body.Pairs? && i < |x.body.cells|
  {
    var cells, at, ie := x.body.cells, KidAt(x, ss, o, CellIndex(x, i)), o + HeadSize(x, ss) + Truncated(x, ss);
    && at <= |m|
    && var l := DecodeCells(m, IsTagged(cells), at, ie, cells[..i]);
       l.Finished? ==> l.items != cells
  }

  predicate CellSurvives(x: Sexp, i: nat)
    requires x.body.Pairs? && i < |x.body.cells|
  {
    && Survives(x.body.cells[i].car, Storage(x.body.cells[i].car))
    && (IsTagged(x.body.cells) ==> Survives(x.body.cells[i].tag, Storage(x.body.cells[i].tag)))
  }

  /** One turn of the cell loop: the cell and where it ends. */
  ghost predicate TurnGives(m: seq<byte>, tagged: bool, cur: nat, c: Cell, next: nat)
  {
    && cur < next <= |m|
    && var el := DecodeAt(m, cur);
       && el.Done? && el.value == c.car
       && if tagged then DecodeAt(m, el.next) == Done(c.tag, next) else c.tag == NIL && el.next == next
  }

  lemma CellReadBack(x: Sexp, ss: nat, m: seq<byte>, o: nat, i: nat)
    requires IsR(x) && Stored(x, ss, m, o) && Payload(x) < LEN56
    requires x.body.Pairs? && i < |x.body.cells| && CellSurvives(x, i)
    ensures TurnGives(m, IsTagged(x.body.cells), KidAt(x, ss, o, CellIndex(x, i)), x.body.cells[i],
                      KidAt(x, ss, o, CellIndex(x, i + 1)))
    ensures forall j :: CellIndex(x, i) <= j < CellIndex(x, i + 1) ==> Survives(Kid(x, j), Storage(Kid(x, j)))
  {
    hide Stored, IsR, Survives, SizeAs, Storage, Payload, KidOffset, DecodeAt, AtomSize, HeadSize, IsTagged, Slot;
    var cell, k := x.body.cells[i], CellIndex(x, i);
    CellIsKid(x, i);
    KidParts(x, ss, m, o, k);
    StoredReadsBack(cell.car, Storage(cell.car), m, KidAt(x, ss, o, k));
    if IsTagged(x.body.cells) {
      KidParts(x, ss, m, o, k + 1);
      StoredReadsBack(cell.tag, Storage(cell.tag), m, KidAt(x, ss, o, k + 1));
    }
  }

  /** A cell whose value or tag does not survive keeps the loop from completing the list. */
  lemma {:induction false} CellLost(x: Sexp, ss: nat, m: seq<byte>, o: nat, i: nat)
    requires IsR(x) && Stored(x, ss, m, o) && ss >= Storage(x) && Payload(x) < LEN56 && Steady(x)
    requires x.body.Pairs? && i < |x.body.cells| && !CellSurvives(x, i)
    ensures LoopFails(x, ss, m, o, i)
    decreases x, 0, 0
  {
    hide Stored, IsR, Survives, SizeAs, Truncated, Storage, Payload, KidOffset, DecodeAt, AtomSize, HeadSize,
      IsTagged, Slot, LostFrom, Steady, Rewound;
    var cell, k := x.body.cells[i], CellIndex(x, i);
    CellIsKid(x, i);
    KidParts(x, ss, m, o, k);
    if !Survives(cell.car, Storage(cell.car)) {
      KidSteady(x, k);
      Lost(cell.car, Storage(cell.car), m, KidAt(x, ss, o, k));
    } else {
      StoredReadsBack(cell.car, Storage(cell.car), m, KidAt(x, ss, o, k));
      KidParts(x, ss, m, o, k + 1);
      KidSteady(x, k + 1);
      Lost(cell.tag, Storage(cell.tag), m, KidAt(x, ss, o, k + 1));
      TagNoObject(x, i);
    }
  }

  /** A rewound value comes back, with the cursor where its header says it ends. */
  lemma RewoundReadBack(x: Sexp, ss: nat, m: seq<byte>, o: nat)
    requires IsR(x) && Stored(x, ss, m, o) && Payload(x) < LEN56 && Rewound(x, ss)
    requires x.attr.Attributes? ==> Survives(x.attr.list, Storage(x.attr.list))
    ensures o <= |m| && DecodeAt(m, o) == Done(x, o + HeadSize(x, ss) + Truncated(x, ss))
    ensures HeadSize(x, ss) + Truncated(x, ss) < SizeAs(x, ss)
  {
    hide Stored, IsR, Survives, SizeAs, TypeCode, Truncated, DecodeAt, DecodeBody, Storage, Payload, WordAt,
      KidOffset, HeaderThere, HeaderEnd, Declared, Slot, HeaderStored;
    OwnParts(x, ss, m, o);
    HeaderParsed(x, ss, m, o);
    HeaderOpens(m, o);
    NoneBefore(x);
    RewoundHasAttributes(x, ss);
    BehindAttributes(x, ss, m, o);
    AtomIsThere(x, ss, m, o);
    BodyWithoutLength(x.body, m, o + HeadSize(x, ss) + KidOffset(x, 1), Truncated(x, ss) - KidOffset(x, 1));
    AttributesSet(x);
    OwnSizeIs(x, ss);
  }

  lemma RewoundHasAttributes(x: Sexp, ss: nat)
    requires Rewound(x, ss)
    ensures x.attr.Attributes? && KidCount(x) == 1
  {
    hide Storage, Payload;
  }

  lemma OwnSizeIs(x: Sexp, ss: nat)
    ensures SizeAs(x, ss) == HeadSize(x, ss) + KidOffset(x, KidCount(x)) + AtomSize(x.body)
  {
    hide Storage, KidOffset, AtomSize;
    NoneBefore(x);
  }

  lemma AtomIsThere(x: Sexp, ss: nat, m: seq<byte>, o: nat)
    requires IsR(x) && Stored(x, ss, m, o)
    ensures NodeIsR(x)
    ensures var a := o + HeadSize(x, ss) + KidOffset(x, KidCount(x));
      a + AtomSize(x.body) <= |m| && AtomAt(x.body, m, a)
  {
    hide Storage, KidOffset, AtomSize, AtomAt, PaddedAt, HeaderStored, NodeIsR;
    OwnSizeIs(x, ss);
  }

  /** Data that is read without its length, and the cursor set back by it. */
  lemma BodyWithoutLength(b: Body, m: seq<byte>, at: nat, ln: int)
    requires b.Raw? || b.Symbol? || b == Strings([])
    requires NodeIsR(Sexp(NoAttributes, b)) && at + AtomSize(b) <= |m| && AtomAt(b, m, at) && ln < 0 && at + ln >= 0
    ensures DecodeBody(m, TypeCode(b), at, ln, at) == Done(Sexp(NoAttributes, b), at + ln)
  {
    hide StringsOf, NulAfter, WordAt, Count;
    if b.Symbol? {
      NameReadBack(b.name, m, at);
    }
  }

  /** The round trip, exactly. For a value R can hold, stored with an expected size not below
      the estimate, the reader at its first byte returns the value and leaves the cursor just
      behind it, whatever surrounds it, if the value survives: it contains no closure, no
      unknown type and no S4 object without attributes, and every short header can hold its
      payload (or a length the reader is content with). And it does so only then, unless a value
      is nested in it whose attributes set the cursor back. */
  lemma RoundTrip(x: Sexp, ss: nat, m: seq<byte>, o: nat)
    requires IsR(x) && Stored(x, ss, m, o) && ss >= Storage(x) && Payload(x) < LEN56
    ensures o <= |m|
    ensures Survives(x, ss) ==> DecodeAt(m, o) == Done(x, o + SizeAs(x, ss))
    ensures Steady(x) ==> (DecodeAt(m, o) == Done(x, o + SizeAs(x, ss)) <==> Survives(x, ss))
  {
    hide Stored, IsR, Survives, Storage, Payload, DecodeAt, Steady, SizeAs, HeadSize, Rewound, Truncated, KidOffset;
    StoredInside(x, ss, m, o);
    if Survives(x, ss) {
      StoredReadsBack(x, ss, m, o);
    } else if Steady(x) {
      if !Rewound(x, ss) {
        Lost(x, ss, m, o);
        NotBehind(x, ss);
      } else if x.attr.Attributes? && !Survives(Kid(x, 0), Storage(Kid(x, 0))) {
        AttributesLost(x, ss, m, o);
      } else {
        RewoundReadBack(x, ss, m, o);
      }
    }
  }

  lemma StoredInside(x: Sexp, ss: nat, m: seq<byte>, o: nat)
    requires Stored(x, ss, m, o)
    ensures o <= |m|
  {
    hide SizeAs, HeaderStored, AtomAt, PaddedAt, Slot, SlotCount, KidOffset;
  }

  lemma NotBehind(x: Sexp, ss: nat)
    ensures SizeAs(x, ss) > 0
  {
  }

  /** In particular, when every header holds its length, the value is read back if and only if
      the reader can represent it. */
  lemma RoundTripInGeneral(x: Sexp, ss: nat, m: seq<byte>, o: nat)
    requires IsR(x) && Stored(x, ss, m, o) && HeadersServe(x, ss, true)
    ensures o <= |m|
    ensures DecodeAt(m, o) == Done(x, o + SizeAs(x, ss)) <==> Readable(x)
  {
    hide Stored, IsR, Readable, DecodeAt, HeadersServe, Image, SizeAs;
    StoredImage(x, ss, true, m, o);
    CReadsExactly(x, m, o, o + SizeAs(x, ss));
  }

  // ---- where it fails ----

  /** A stored value is skipped correctly by its own header exactly when that header is large
      or the payload needs no more than 24 bits. */
  lemma SkipIsExact(x: Sexp, ss: nat, m: seq<byte>, o: nat)
    requires IsR(x) && Stored(x, ss, m, o) && Payload(x) < LEN56
    ensures HeaderThere(m, o)
    ensures Skip(m, o) == o + SizeAs(x, ss) <==> HeadSize(x, ss) == 8 || Payload(x) < LEN24
  {
    hide KidOffset, AtomAt, PaddedAt, Storage, Slot, SlotCount, AtomSize, IsR, HeaderStored, Declared, HeaderEnd,
      Payload;
    OwnParts(x, ss, m, o);
    HeaderParsed(x, ss, m, o);
  }

  /** The expected size can be so low that the short header is chosen for a payload of 2^24
      bytes and more: a plain list of single logicals is stored, but not read back. With the
      bare estimate as expected size this happens for 1398102 to 2097149 of them, with the five
      quarters of it that the server passes up to 1677719. */
  lemma ManyFlagsLost(n: nat, ss: nat, m: seq<byte>, o: nat)
    requires 1398102 <= n && Storage(Flags(n)) <= ss <= LARGE_LIMIT
    requires Stored(Flags(n), ss, m, o)
    ensures IsR(Flags(n)) && o <= |m|
    ensures DecodeAt(m, o) != Done(Flags(n), o + SizeAs(Flags(n), ss))
  {
    hide Stored, DecodeAt, Storage, SizeAs;
    var x := Flags(n);
    FlagsMeasured(n);
    FlagsUnserved(n, ss);
    FlagsSteady(n);
    RoundTrip(x, ss, m, o);
  }

  lemma FlagsSteady(n: nat)
    ensures Steady(Flags(n))
  {
    assert forall k :: 0 <= k < n ==> Kid(Flags(n), k) == Sexp(NoAttributes, Logicals([True]));
    assert Steady(Sexp(NoAttributes, Logicals([True])));
  }

  /** The numbers for which such an expected size exists. */
  lemma FlagsExpected(n: nat)
    ensures Storage(Flags(n)) <= LARGE_LIMIT <==> n <= 2097149
    ensures Storage(Flags(n)) + Storage(Flags(n)) / 4 <= LARGE_LIMIT <==> n <= 1677719
  {
    FlagsMeasured(n);
  }

  lemma FlagsUnserved(n: nat, ss: nat)
    requires 1398102 <= n && Storage(Flags(n)) <= ss <= LARGE_LIMIT
    ensures !Survives(Flags(n), ss)
  {
    hide Storage, Payload, KidOffset, Size, Flags, Truncated;
    var x := Flags(n);
    FlagsMeasured(n);
    FlagsParts(n);
    KidOffsetStep(x, n - 1);
    NoneBefore(x);
    LastFlag(n);
    assert Truncated(x, ss) == 12 * n - LEN24 by { ShortTruncated(x, ss, n); }
  }

  lemma FlagsParts(n: nat)
    requires n > 0
    ensures var x := Flags(n);
      && IsContainer(x.body) && SlotCount(x.body) == n == KidCount(x) && LastEntry(x) == n - 1 && AtomSize(x.body) == 0
  {
  }

  lemma ShortTruncated(x: Sexp, ss: nat, n: nat)
    requires ss <= LARGE_LIMIT && Payload(x) == 12 * n && 1398102 <= n < 2 * 1398101
    ensures Truncated(x, ss) == 12 * n - LEN24
  {
    hide Storage, Payload;
  }

  lemma LastFlag(n: nat)
    requires n > 0
    ensures Kid(Flags(n), n - 1) == Sexp(NoAttributes, Logicals([True])) && Size(Kid(Flags(n), n - 1)) == 12
  {
  }

  lemma {:induction false} StrictIsEnough(x: Sexp, ss: nat)
    requires HeadersServe(x, ss, true)
    ensures HeadersServe(x, ss, false)
    decreases x
  {
    hide Slot, SlotCount, Storage, Truncated, Payload, KidOffset;
    forall k | 0 <= k < KidCount(x)
      ensures HeadersServe(Kid(x, k), Storage(Kid(x, k)), false)
    {
      StrictIsEnough(Kid(x, k), Storage(Kid(x, k)));
    }
  }

  /** A value whose headers all hold their lengths has nothing rewound in it. */
  lemma {:induction false} ServedIsSteady(x: Sexp, ss: nat)
    requires HeadersServe(x, ss, true)
    ensures Steady(x) && !Rewound(x, ss)
    decreases x
  {
    hide Slot, SlotCount, Storage, Truncated, Payload, KidOffset;
    KidOffsetWithin(x, AttrCount(x));
    forall k | 0 <= k < KidCount(x)
      ensures !Rewound(Kid(x, k), Storage(Kid(x, k))) && Steady(Kid(x, k))
    {
      ServedIsSteady(Kid(x, k), Storage(Kid(x, k)));
    }
  }
}
