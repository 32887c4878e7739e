/** The two implementations of the format meet: each side's reader on the other side's bytes. */
module Wire {
  import opened Bytes
  import opened Rsrv
  import opened Sexps
  import opened QapLayout
  import opened QapDecode
  import opened QapImage
  import opened QapTheorems
  import opened QapExact
  import opened Replies
  import opened JavaLength
  import opened JavaImage
  import opened JavaWrite
  import opened JavaParse
  import opened JavaTheorems

  /** All values nested in x are stored with headers that hold their lengths. */
  predicate PartsServe(x: Sexp)
  {
    forall k :: 0 <= k < KidCount(x) ==> HeadersServe(Kid(x, k), Storage(Kid(x, k)), true)
  }

  /** What C stored, Java reads. If the headers of the nested values hold their lengths, Java
      returns the value and its end exactly if it has such a value and the outermost header holds
      its length, too, or the value is an empty string vector, for which the parser returns the
      end of the attributes. Without the first condition it still never returns a value whose
      outermost header does not hold its length. */
  lemma CToJava(x: Sexp, ss: nat, m: seq<byte>, o: nat)
    requires IsR(x) && Stored(x, ss, m, o) && |m| <= MAX_INT32
    ensures PartsServe(x) ==>
      (ParseAt(m, o) == Parsed(x, o + SizeAs(x, ss)) <==>
        InJava(x) && (HeaderServes(x, ss, true) || x.body == Strings([])))
    ensures !HeaderServes(x, ss, true) && x.body != Strings([]) ==> ParseAt(m, o) != Parsed(x, o + SizeAs(x, ss))
  {
    hide Stored, IsR, Storage, Payload, ParseAt, HeadersServe, Image, InJava, HeaderServes, PartsServe, SizeAs;
    if HeaderServes(x, ss, true) {
      if PartsServe(x) {
        AllServe(x, ss);
        StoredImage(x, ss, true, m, o);
        JavaReadsExactly(x, m, o, o + SizeAs(x, ss));
      }
    } else if x.body != Strings([]) {
      StopsShort(x, ss, m, o);
    } else if PartsServe(x) {
      EmptyStringsParsed(x, ss, m, o);
    }
  }

  lemma AllServe(x: Sexp, ss: nat)
    ensures HeadersServe(x, ss, true) <==> HeaderServes(x, ss, true) && PartsServe(x)
  {
    hide HeaderServes, Slot, SlotCount, Storage;
  }

  /** The parser goes beyond the declared end only where there is nothing to read. */
  lemma StopsShort(x: Sexp, ss: nat, m: seq<byte>, o: nat)
    requires IsR(x) && Stored(x, ss, m, o) && |m| <= MAX_INT32 && !HeaderServes(x, ss, true)
    requires x.body != Strings([])
    ensures var r := ParseAt(m, o); r.Parsed? && r.value.body == x.body ==> r.next < o + SizeAs(x, ss)
  {
    hide Stored, IsR, Storage, Payload, ParseAt, ParseBody, KidOffset, AtomSize, WordAt, HeaderStored, HeaderThere,
      HeaderEnd, Declared, Truncated, TypeCode, NodeIsR;
    OwnParts(x, ss, m, o);
    HeaderParsed(x, ss, m, o);
    TruncatedBelow(x, ss);
    HeaderInJava(x, ss, m, o);
    if x.body.Null? {
      NullIsEmpty(x);
    }
  }

  /** What the client makes of a stored header. */
  lemma HeaderInJava(x: Sexp, ss: nat, m: seq<byte>, o: nat)
    requires HeaderThere(m, o) && HeaderEnd(m, o) == o + HeadSize(x, ss) && Declared(m, o) == Truncated(x, ss)
    requires o + SizeAs(x, ss) <= |m| <= MAX_INT32
    requires GET_XT(PAR_TYPE(WordAt(m, o))) == TypeCode(x.body)
    requires HAS_ATTR(PAR_TYPE(WordAt(m, o))) == x.attr.Attributes?
    ensures ParseAt(m, o) == AfterHeader(m, TypeCode(x.body), x.attr.Attributes?, o + HeadSize(x, ss),
                                         o + HeadSize(x, ss) + Truncated(x, ss))
  {
    hide Payload, Storage, TypeCode, WordAt, Truncated, ParseBody;
    TruncatedBelow(x, ss);
    SameHeader(m, o);
  }

  function AfterHeader(m: seq<byte>, xt: nat, hasAttr: bool, b: nat, eox: nat): Parse
  {
    if hasAttr then ParseAttributed(m, xt, b, eox) else ParseBody(m, xt, b, eox, NoAttributes)
  }

  lemma EmptyStringsParsed(x: Sexp, ss: nat, m: seq<byte>, o: nat)
    requires IsR(x) && Stored(x, ss, m, o) && |m| <= MAX_INT32 && PartsServe(x)
    requires x.body == Strings([]) && !HeaderServes(x, ss, true)
    ensures ParseAt(m, o) == Parsed(x, o + SizeAs(x, ss)) <==> InJava(x)
  {
    hide Stored, IsR, Storage, Payload, ParseAt, ParseBody, KidOffset, AtomSize, WordAt, HeaderStored, HeaderThere,
      HeaderEnd, Declared, Truncated, NodeIsR, InJava, HeadersServe, Image, BodyInJava, HeadSize;
    OwnParts(x, ss, m, o);
    HeaderParsed(x, ss, m, o);
    TruncatedBelow(x, ss);
    HeaderInJava(x, ss, m, o);
    OnlyAttributes(x, ss, m, o);
    var l, b, end := x.attr.list, o + HeadSize(x, ss), o + SizeAs(x, ss);
    KidIsR(x, 0);
    assert HeadersServe(Kid(x, 0), Storage(Kid(x, 0)), true);
    StoredImage(l, Storage(l), true, m, b);
    JavaReadsExactly(l, m, b, end);
    InJavaParts(x);
    assert BodyInJava(x) by { StringsInJava(x); }
    if ParseAt(m, b).Parsed? {
      NothingToParse(m, end, b + Truncated(x, ss), Attributes(ParseAt(m, b).value));
    }
  }

  lemma StringsInJava(x: Sexp)
    requires x.body == Strings([])
    ensures BodyInJava(x)
  {
  }

  lemma NothingToParse(m: seq<byte>, b: nat, eox: nat, attr: Attributes)
    requires eox <= b
    ensures ParseBody(m, XT_ARRAY_STR, b, eox, attr) == Parsed(Sexp(NoAttributes, Strings([])), b)
  {
  }

  /** An empty string vector whose header does not hold its length is nothing but attributes. */
  lemma OnlyAttributes(x: Sexp, ss: nat, m: seq<byte>, o: nat)
    requires IsR(x) && Stored(x, ss, m, o) && x.body == Strings([]) && !HeaderServes(x, ss, true)
    ensures x.attr.Attributes? && KidCount(x) == 1 && Kid(x, 0) == x.attr.list && x == Sexp(x.attr, Strings([]))
    ensures x.attr.list.body.Pairs?
    ensures Stored(x.attr.list, Storage(x.attr.list), m, o + HeadSize(x, ss))
    ensures SizeAs(x.attr.list, Storage(x.attr.list)) == Payload(x)
  {
    hide Storage, KidOffset, IsR, HeaderStored, PaddedAt;
    NoneBefore(x);
    if x.attr.Attributes? {
      KidOffsetStep(x, 0);
      AttributesAreList(x);
    }
  }

  /** Every value below 16 megabytes travels: stored by C it is read back by C exactly if the C
      reader can represent it, and by Java exactly if Java has it. */
  lemma SmallValuesTravel(x: Sexp, ss: nat, m: seq<byte>, o: nat)
    requires IsR(x) && Stored(x, ss, m, o) && Payload(x) < LEN24 && |m| <= MAX_INT32
    ensures o <= |m|
    ensures DecodeAt(m, o) == Done(x, o + SizeAs(x, ss)) <==> Readable(x)
    ensures ParseAt(m, o) == Parsed(x, o + SizeAs(x, ss)) <==> InJava(x)
  {
    hide Stored, IsR, Storage, Payload, ParseAt, DecodeAt, HeadersServe, InJava, Readable, SizeAs;
    SmallServes(x, ss);
    AllServe(x, ss);
    RoundTripInGeneral(x, ss, m, o);
    CToJava(x, ss, m, o);
  }

  lemma {:induction false} GenericIsR(x: Sexp)
    requires IsR(x)
    ensures IsR(AsGeneric(x))
    decreases x
  {
    hide IsR, NodeIsR, AsGeneric, Kid, KidCount;
    KidsAreR(x);
    GenericKids(x);
    GenericNode(x);
    forall k | 0 <= k < KidCount(x)
      ensures IsR(Kid(AsGeneric(x), k))
    {
      GenericIsR(Kid(x, k));
    }
    NodeAndKids(AsGeneric(x));
  }

  lemma GenericNode(x: Sexp)
    requires NodeIsR(x)
    ensures NodeIsR(AsGeneric(x))
  {
    if x.attr.Attributes? {
      GenericAttr(x);
    }
    GenericBody(x);
    if x.body.Pairs? {
      GenericTags(x);
      hide IsTagged, AsGeneric;
      var cells := x.body.cells;
      forall i | 0 <= i < |cells|
        ensures IsTag(AsGeneric(x).body.cells[i].tag)
      {
        assert IsTag(cells[i].tag);
        GenericTag(cells[i].tag);
      }
    } else {
      hide AsGeneric;
    }
  }

  lemma GenericAttr(x: Sexp)
    requires x.attr.Attributes? && x.attr.list.body.Pairs? && !x.attr.list.body.isCall
    ensures AsGeneric(x).attr.Attributes? && AsGeneric(x).attr.list.body.Pairs? && !AsGeneric(x).attr.list.body.isCall
  {
  }

  lemma GenericTag(t: Sexp)
    requires IsTag(t)
    ensures IsTag(AsGeneric(t))
  {
  }

  lemma NodeAndKids(x: Sexp)
    requires NodeIsR(x) && forall k :: 0 <= k < KidCount(x) ==> IsR(Kid(x, k))
    ensures IsR(x)
  {
    hide NodeIsR, Kid, KidCount;
  }

  /** What Java writes, C reads: the value, as the client holds it, and its end, exactly if there
      is no S4 object without attributes in it. */
  method JavaToC(x: Sexp, buf: array<byte>, off: nat) returns (st: Status, val: Sexp, at: nat)
    requires IsR(x) && AllShaped(x)
    requires off % 4 == 0 && off + Reach(x) <= buf.Length <= MAX_INT32
    modifies buf
    ensures WellWritten(x) ==>
      (st == Fine && val == AsGeneric(x) && at == off + Announced(x) <==> Readable(AsGeneric(x)))
  {
    hide Image, IsR, AllShaped, WellWritten, Reach, Announced, Readable, DecodeAt, JSize, AsGeneric, HeaderWritten,
      Written, CallNames;
    AnnouncedWithin(x);
    GenericIsR(x);
    var end := GetBinaryRepresentation(buf, off, x);
    if WellWritten(x) {
      ReachIsSize(x);
      CReadsExactly(AsGeneric(x), buf[..], off, end);
    }
    var cursor := new Cursor(off);
    st, val := Decode(buf[..], cursor);
    at := cursor.at;
  }

  /** What Java writes, Java reads: the value, as the client holds it, and its end, unless a list
      has the same key twice or the names of a vector are no strings. */
  method JavaRoundTrip(x: Sexp, buf: array<byte>, off: nat) returns (st: Ending, val: Sexp, at: nat)
    requires IsR(x) && AllShaped(x)
    requires off % 4 == 0 && off + Reach(x) <= buf.Length <= MAX_INT32
    modifies buf
    ensures WellWritten(x) ==>
      (st == Returned && val == AsGeneric(x) && at == off + Announced(x) <==> InJava(AsGeneric(x)))
  {
    hide Image, IsR, AllShaped, WellWritten, Reach, Announced, InJava, ParseAt, JSize, AsGeneric, HeaderWritten,
      Written, CallNames;
    GenericIsR(x);
    var end := GetBinaryRepresentation(buf, off, x);
    if WellWritten(x) {
      ReachIsSize(x);
      JavaReadsExactly(AsGeneric(x), buf[..], off, end);
    }
    var f := new REXPFactory();
    st, at := f.ParseREXP(buf[..], off);
    val := f.cont;
  }

  /** What the server sends, the client reads: below 16 megabytes the value and its end exactly if
      Java has it, and beyond as CToJava says, as long as the reply is no longer than an array of
      the client can be. It is sent if the buffer is as long as its size says, there is no limit,
      and the margin covers the one-element vectors. */
  method ServerToClient(x: Sexp, b: SendBuffer, memory: bool) returns (r: Reply, st: Ending, val: Sexp, at: nat)
    requires b.Valid() && IsR(x) && SizeAs(x, Margin(x)) < LEN56
    modifies b, b.buf
    ensures r.Sent? && r.to <= MAX_INT32 && PartsServe(x) ==>
      (st == Returned && val == x && at == r.to <==>
        InJava(x) && (HeaderServes(x, Margin(x), true) || x.body == Strings([])))
    ensures r.Sent? && Payload(x) < LEN24 ==> (st == Returned && val == x && at == r.to <==> InJava(x))
    ensures old(b.buf.Length >= b.size) && b.max == 0 && memory && WithinMargin(x) ==> r.Sent?
  {
    hide IsR, Stored, Payload, WithinMargin, InJava, ParseAt, Storage, Fits, HeaderServes, PartsServe, SizeAs,
      HeadersServe;
    r := b.SendValue(x, memory);
    st, val, at := Unmodelled, NIL, 0;
    if r.Sent? {
      var packet := r.m[..r.to];
      StoredFrame(x, Margin(x), r.m, packet, 8);
      if r.to <= MAX_INT32 {
        CToJava(x, Margin(x), packet, 8);
      }
      if Payload(x) < LEN24 {
        SmallReply(x);
        SmallValuesTravel(x, Margin(x), packet, 8);
      }
      var f := new REXPFactory();
      st, at := f.ParseREXP(packet, 8);
      val := f.cont;
    }
  }

  lemma SmallReply(x: Sexp)
    requires Payload(x) < LEN24
    ensures 8 + SizeAs(x, Margin(x)) <= MAX_INT32
  {
    hide Payload, Storage;
  }
}
