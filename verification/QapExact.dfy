/** The C reader on any bytes in the format, whoever wrote them: it returns the value if and only
    if it can represent it. */
module QapExact {
  import opened Bytes
  import opened Rsrv
  import opened Sexps
  import opened QapLayout
  import opened QapDecode
  import opened QapImage

  lemma CReadsExactly(x: Sexp, m: seq<byte>, o: nat, e: nat)
    requires IsR(x) && Image(x, true, m, o, e)
    ensures o <= |m| && o < e
    ensures DecodeAt(m, o) == Done(x, e) <==> Readable(x)
  {
    hide IsR, Readable, Image, DecodeAt;
    ImageExtent(x, m, o, e);
    if Readable(x) {
      ReadBack(x, true, m, o, e);
    } else {
      Unread(x, m, o, e);
    }
  }

  lemma ImageExtent(x: Sexp, m: seq<byte>, o: nat, e: nat)
    requires Image(x, true, m, o, e)
    ensures o + 4 <= e <= |m|
  {
    hide ImageBy;
    var ps :| ImageBy(x, true, m, o, e, ps);
    Parts(x, m, o, e, ps);
  }

  /** Header, boundaries and end, as the reader computes them. */
  lemma Parts(x: Sexp, m: seq<byte>, o: nat, e: nat, ps: seq<nat>)
    requires ImageBy(x, true, m, o, e, ps)
    ensures |ps| == KidCount(x) + 1 && HeaderThere(m, o) && o + 4 <= ps[0] == HeaderEnd(m, o)
    ensures ps[0] + Declared(m, o) == e <= |m|
    ensures ps[0] <= ps[AttrCount(x)] <= ps[KidCount(x)] <= e
    ensures GET_XT(PAR_TYPE(WordAt(m, o))) == TypeCode(x.body)
    ensures HAS_ATTR(PAR_TYPE(WordAt(m, o))) == x.attr.Attributes?
    ensures IsContainer(x.body) ==> ps[KidCount(x)] == e
  {
    hide AtomAt, AtomSize, Slot, SlotCount, TypeCode, Image, WordAt, Declared;
    Ordered(x, true, m, o, e, ps, 0, AttrCount(x));
    Ordered(x, true, m, o, e, ps, AttrCount(x), KidCount(x));
    if IsContainer(x.body) {
      ContainerEmpty(x.body);
    }
  }

  /** The value is not returned, or it is an S4 object without attributes and the cursor has not
      moved. */
  ghost predicate Missed(x: Sexp, r: Outcome, o: nat)
  {
    r.Done? && r.value == x ==> x == Sexp(NoAttributes, S4) && r.next == o
  }

  lemma {:induction false} Unread(x: Sexp, m: seq<byte>, o: nat, e: nat)
    requires IsR(x) && Image(x, true, m, o, e) && !Readable(x)
    ensures o <= |m| && Missed(x, DecodeAt(m, o), o)
    decreases x, 3
  {
    hide TypeCode, AtomAt, AtomSize, DecodeBody, Slot, SlotCount, IsR, Readable, ImageBy, NodeIsR, NodeReadable, WordAt;
    var ps :| ImageBy(x, true, m, o, e, ps);
    Parts(x, m, o, e, ps);
    if x.attr.Attributes? {
      KidIsR(x, 0);
      KidImage(x, true, m, o, e, ps, 0);
      ListHasNoObject(x);
      if Readable(Kid(x, 0)) {
        ReadBack(Kid(x, 0), true, m, ps[0], ps[1]);
        BodyUnread(x, m, o, e, ps, ps[1]);
      } else {
        Unread(Kid(x, 0), m, ps[0], ps[1]);
      }
    } else {
      BodyUnread(x, m, o, e, ps, o);
    }
  }

  lemma ListHasNoObject(x: Sexp)
    requires IsR(x) && x.attr.Attributes?
    ensures Kid(x, 0) == x.attr.list && x.attr == Attributes(x.attr.list) && !x.attr.list.body.S4?
  {
  }

  /** Some nested value from i on cannot be represented, or the body itself. */
  ghost predicate UnreadFrom(x: Sexp, i: nat)
  {
    (exists k :: i <= k < KidCount(x) && !Readable(Kid(x, k))) || !NodeReadable(x)
  }

  lemma UnreadSomewhere(x: Sexp)
    requires !Readable(x) && (x.attr.Attributes? ==> Readable(Kid(x, 0)))
    ensures UnreadFrom(x, AttrCount(x))
  {
    hide Slot, SlotCount, NodeReadable;
  }

  lemma {:induction false} BodyUnread(x: Sexp, m: seq<byte>, o: nat, e: nat, ps: seq<nat>, stay: nat)
    requires IsR(x) && ImageBy(x, true, m, o, e, ps) && !Readable(x)
    requires |ps| == KidCount(x) + 1 && ps[AttrCount(x)] <= e <= |m| && ps[0] + Declared0(m, o) == e
    requires x.attr.Attributes? ==> Readable(Kid(x, 0))
    requires stay == if x.attr.Attributes? then ps[1] else o
    requires stay <= ps[AttrCount(x)]
    ensures var r := DecodeBody(m, TypeCode(x.body), ps[AttrCount(x)], e - ps[AttrCount(x)], stay);
      r.Done? && r.value.body == x.body ==> x == Sexp(NoAttributes, S4) && r.next == o
    decreases x, 2
  {
    hide AtomAt, AtomSize, Readable, IsR, ImageBy, NodeReadable, DecodeElems, DecodeCells, Slot, WordAt;
    UnreadSomewhere(x);
    var at := ps[AttrCount(x)];
    match x.body {
      case Vector(_, elems) =>
        ElemsUnread(x, m, o, e, ps, 0);
      case Pairs(_, cells) =>
        CellsUnread(x, m, o, e, ps, 0);
      case _ =>
        OnlyThese(x);
        Disregarded(x.body, m, at, e - at, stay);
    }
  }

  function Declared0(m: seq<byte>, o: nat): nat { if HeaderThere(m, o) then Declared(m, o) else 0 }

  lemma OnlyThese(x: Sexp)
    requires UnreadFrom(x, AttrCount(x)) && !x.body.Vector? && !x.body.Pairs?
    ensures x.body.Closure? || x.body.Other? || x == Sexp(NoAttributes, S4)
  {
    hide Readable;
  }

  /** Closures and unknown types come back as NULL. */
  lemma Disregarded(b: Body, m: seq<byte>, at: nat, ln: int, stay: nat)
    requires b.Closure? || b.Other? || b.S4?
    requires stay <= at <= |m| && at + ln >= 0
    ensures var r := DecodeBody(m, TypeCode(b), at, ln, stay);
      r.Done? ==> if b.S4? then r.value.body.S4? && r.next == stay else r.value.body.Null?
  {
    hide StringsOf, NulAfter;
  }

  /** From element i on, the loop does not complete the vector. */
  lemma {:induction false} ElemsUnread(x: Sexp, m: seq<byte>, o: nat, e: nat, ps: seq<nat>, i: nat)
    requires IsR(x) && ImageBy(x, true, m, o, e, ps) && x.body.Vector? && i <= |x.body.elems|
    requires UnreadFrom(x, AttrCount(x) + i)
    ensures |ps| == KidCount(x) + 1 && ps[AttrCount(x) + i] <= |m|
    ensures var l := DecodeElems(m, ps[AttrCount(x) + i], e, x.body.elems[..i]);
      l.Finished? ==> l.items != x.body.elems
    decreases x, 1, |x.body.elems| - i
  {
    hide Readable, IsR, ImageBy, DecodeAt, DecodeElems, UnreadFrom, Slot, SlotCount, Image, WordAt, HeaderThere,
      HeaderEnd, Declared;
    var elems, k := x.body.elems, AttrCount(x) + i;
    Parts(x, m, o, e, ps);
    ElemCount(x);
    if i < |elems| {
      ElemIsKid(x, i);
      KidImage(x, true, m, o, e, ps, k);
      Ordered(x, true, m, o, e, ps, k + 1, KidCount(x));
      KidIsR(x, k);
      if Readable(elems[i]) {
        ReadBack(elems[i], true, m, ps[k], ps[k + 1]);
        UnreadLater(x, k, 1);
        ElemsUnread(x, m, o, e, ps, i + 1);
        assert elems[..i] + [elems[i]] == elems[..i + 1];
        ElemsTurn(m, ps[k], e, elems[..i], elems[i], ps[k + 1]);
      } else {
        Unread(elems[i], m, ps[k], ps[k + 1]);
        ElemsWrong(m, ps[k], e, elems, i);
      }
    } else {
      NoneUnread(x);
    }
  }

  lemma NoneUnread(x: Sexp)
    requires IsContainer(x.body)
    ensures !UnreadFrom(x, KidCount(x))
  {
    hide Readable, Slot, SlotCount;
  }

  lemma UnreadLater(x: Sexp, k: nat, n: nat)
    requires UnreadFrom(x, k) && k + n <= KidCount(x) && forall j :: k <= j < k + n ==> Readable(Kid(x, j))
    ensures UnreadFrom(x, k + n)
  {
    hide Readable, Slot, SlotCount, NodeReadable;
  }

  /** A value that does not come back, or with the cursor standing still, keeps the loop from
      completing the vector. */
  lemma ElemsWrong(m: seq<byte>, cur: nat, ie: nat, elems: seq<Sexp>, i: nat)
    requires cur <= |m| && i < |elems| && Missed(elems[i], DecodeAt(m, cur), cur)
    ensures var l := DecodeElems(m, cur, ie, elems[..i]); l.Finished? ==> l.items != elems
  {
    hide DecodeAt;
  }

  lemma {:induction false} CellsUnread(x: Sexp, m: seq<byte>, o: nat, e: nat, ps: seq<nat>, i: nat)
    requires IsR(x) && ImageBy(x, true, m, o, e, ps) && x.body.Pairs? && i <= |x.body.cells|
    requires UnreadFrom(x, CellIndex(x, i))
    ensures |ps| == KidCount(x) + 1 && ps[CellIndex(x, i)] <= |m|
    ensures var l := DecodeCells(m, IsTagged(x.body.cells), ps[CellIndex(x, i)], e, x.body.cells[..i]);
      l.Finished? ==> l.items != x.body.cells
    decreases x, 1, |x.body.cells| - i
  {
    hide Readable, IsR, ImageBy, DecodeAt, DecodeCells, UnreadFrom, IsTagged, Slot, SlotCount, Image, WordAt,
      HeaderThere, HeaderEnd, Declared, CellIndex;
    var cells, k := x.body.cells, CellIndex(x, i);
    var tagged := IsTagged(cells);
    Parts(x, m, o, e, ps);
    CellPlaces(x, i);
    if i < |cells| {
      KidImage(x, true, m, o, e, ps, k);
      Ordered(x, true, m, o, e, ps, k + 1, KidCount(x));
      KidIsR(x, k);
      if Readable(cells[i].car) {
        ReadBack(cells[i].car, true, m, ps[k], ps[k + 1]);
        if tagged {
          TagRead(x, m, o, e, ps, i);
        }
        UnreadLater(x, k, if tagged then 2 else 1);
        CellsUnread(x, m, o, e, ps, i + 1);
        assert cells[..i] + [cells[i]] == cells[..i + 1];
        Ordered(x, true, m, o, e, ps, k, CellIndex(x, i + 1));
        Ordered(x, true, m, o, e, ps, k, KidCount(x));
        CellsTurn(m, tagged, ps[k], e, cells[..i], cells[i], ps[CellIndex(x, i + 1)]);
      } else {
        Unread(cells[i].car, m, ps[k], ps[k + 1]);
        TagNoObject(x, i);
        CellsWrong(m, tagged, ps[k], e, cells, i);
      }
    } else {
      NoneUnread(x);
    }
  }

  lemma CellPlaces(x: Sexp, i: nat)
    requires x.body.Pairs? && i <= |x.body.cells|
    ensures i == |x.body.cells| ==> CellIndex(x, i) == KidCount(x)
    ensures i < |x.body.cells| ==>
      var k, cells := CellIndex(x, i), x.body.cells;
      && CellIndex(x, i + 1) == k + (if IsTagged(cells) then 2 else 1) <= KidCount(x)
      && Kid(x, k) == cells[i].car
      && if IsTagged(cells) then Kid(x, k + 1) == cells[i].tag else cells[i].tag == NIL
  {
    if i < |x.body.cells| {
      CellIsKid(x, i);
    }
    hide IsTagged;
  }

  lemma CellsWrong(m: seq<byte>, tagged: bool, cur: nat, ie: nat, cells: seq<Cell>, i: nat)
    requires cur <= |m| && i < |cells| && Missed(cells[i].car, DecodeAt(m, cur), cur)
    ensures var l := DecodeCells(m, tagged, cur, ie, cells[..i]);
      l.Finished? ==> l.items != cells
  {
    hide DecodeAt;
  }

  lemma TagRead(x: Sexp, m: seq<byte>, o: nat, e: nat, ps: seq<nat>, i: nat)
    requires IsR(x) && ImageBy(x, true, m, o, e, ps) && x.body.Pairs? && IsTagged(x.body.cells) && i < |x.body.cells|
    ensures var k := CellIndex(x, i) + 1;
      && |ps| == KidCount(x) + 1 && ps[k] < ps[k + 1] && ps[k + 1] <= e <= |m|
      && Readable(x.body.cells[i].tag)
      && DecodeAt(m, ps[k]) == Done(x.body.cells[i].tag, ps[k + 1])
  {
    hide IsR, ImageBy, DecodeAt, IsTagged, Slot;
    var k := CellIndex(x, i) + 1;
    Parts(x, m, o, e, ps);
    CellIsKid(x, i);
    KidImage(x, true, m, o, e, ps, k);
    Ordered(x, true, m, o, e, ps, k + 1, KidCount(x));
    KidIsR(x, k);
    TagNoObject(x, i);
    ReadBack(x.body.cells[i].tag, true, m, ps[k], ps[k + 1]);
  }

  lemma TagNoObject(x: Sexp, i: nat)
    requires IsR(x) && x.body.Pairs? && i < |x.body.cells|
    ensures Readable(x.body.cells[i].tag) && !x.body.cells[i].tag.body.S4?
  {
    assert IsTag(x.body.cells[i].tag);
  }
}
