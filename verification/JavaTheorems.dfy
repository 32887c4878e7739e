/** The Java client's parser inverts the format, exactly on the values it can represent. */
module JavaTheorems {
  import opened Bytes
  import opened Rsrv
  import opened Sexps
  import opened QapLayout
  import opened QapDecode
  import opened QapImage
  import opened RTalk
  import opened JavaParse

  // ---- which values Java has ----

  /** The first n tags of a pairlist are different, apart from missing ones. */
  predicate DistinctTags(cells: seq<Cell>, n: nat)
    requires n <= |cells|
  {
    forall i, j :: 0 <= i < j < n && cells[i].tag != NIL ==> cells[i].tag != cells[j].tag
  }

  /** Complex vectors, CHARSXPs and closures have no counterpart, symbols no attributes, an RList
      no key twice, and the names of a vector are strings or can be asked for some. */
  predicate NodeInJava(x: Sexp)
  {
    && (x.body.Vector? ==> NamesUsable(x.attr))
    && match x.body
       case Symbol(_) => x.attr.NoAttributes?
       case Pairs(_, cells) => DistinctTags(cells, |cells|)
       case Complexes(_) => false
       case CharString(_) => false
       case Closure(_, _) => false
       case _ => true
  }

  predicate InJava(x: Sexp)
    decreases x
  {
    NodeInJava(x) && forall k :: 0 <= k < KidCount(x) ==> InJava(Kid(x, k))
  }

  // ---- headers ----

  /** The client reads the same header as the C side, as long as the length is an int. */
  lemma SameHeader(m: seq<byte>, o: nat)
    requires HeaderThere(m, o) && HeaderEnd(m, o) + Declared(m, o) <= MAX_INT32
    ensures IS_LARGE(m[o]) == IS_LARGE(PAR_TYPE(WordAt(m, o))) && HAS_ATTR(m[o]) == HAS_ATTR(PAR_TYPE(WordAt(m, o)))
    ensures GET_XT(m[o]) == GET_XT(PAR_TYPE(WordAt(m, o)))
    ensures GetLen(m, o) == Declared(m, o)
  {
    assert PAR_TYPE(WordAt(m, o)) == m[o];
    assert PAR_LEN(WordAt(m, o)) == m[o + 1] as int + 0x100 * m[o + 2] as int + 0x1_0000 * m[o + 3] as int;
    if IS_LARGE(m[o]) {
      assert WordAt(m, o + 4) < 0x80;
      assert WordAt(m, o + 4) == m[o + 4];
    }
  }

  // ---- values without nested values ----

  predicate AtomInJava(b: Body)
  {
    (IsAtom(b) || b.Other?) && !b.Complexes? && !b.CharString?
  }

  lemma AtomParsed(b: Body, m: seq<byte>, a: nat)
    requires AtomInJava(b) && NodeIsR(Sexp(NoAttributes, b))
    requires a + AtomSize(b) <= |m| && AtomAt(b, m, a)
    ensures ParseAtom(m, TypeCode(b), a, a + AtomSize(b)) == Parsed(Sexp(NoAttributes, b), a + AtomSize(b))
  {
    hide Escaped, EscapedAll, StringsOf, NulAfter, WordAt;
    match b
    case Strings(s) =>
      StringsAtomReadBack(s, m, a);
      NoBytes(s, m, a);
    case Symbol(s) => NameReadBack(s, m, a);
    case Logicals(s) => LogicalsReadBack(s, m, a);
    case Ints(s) => IntsParsed(s, m, a);
    case Reals(s) => RealsParsed(s, m, a);
    case _ =>
  }

  lemma IntsParsed(s: seq<word>, m: seq<byte>, a: nat)
    requires a + AtomSize(Ints(s)) <= |m| && AtomAt(Ints(s), m, a)
    ensures ParseAtom(m, XT_ARRAY_INT, a, a + AtomSize(Ints(s)))
         == Parsed(Sexp(NoAttributes, Ints(s)), a + AtomSize(Ints(s)))
  {
    hide WordAt;
    assert s == seq(|s|, i requires 0 <= i < |s| => WordAt(m, a + 4 * i));
  }

  lemma RealsParsed(s: seq<Double>, m: seq<byte>, a: nat)
    requires a + AtomSize(Reals(s)) <= |m| && AtomAt(Reals(s), m, a)
    ensures ParseAtom(m, XT_ARRAY_DOUBLE, a, a + AtomSize(Reals(s)))
         == Parsed(Sexp(NoAttributes, Reals(s)), a + AtomSize(Reals(s)))
  {
    hide WordAt;
    assert s == seq(|s|, i requires 0 <= i < |s| => DoubleOf(m, a + 8 * i));
  }

  /** Only an empty string vector takes no bytes. */
  lemma NoBytes(s: seq<RString>, m: seq<byte>, a: nat)
    requires a + AtomSize(Strings(s)) <= |m| && StringsOf(m, a, a, a + AtomSize(Strings(s))) == s
    ensures AtomSize(Strings(s)) == 0 <==> s == []
  {
  }

  /** Without a counterpart in Java the value is not parsed, or parsed as something else. */
  lemma AtomNotParsed(b: Body, m: seq<byte>, xt: nat, a: nat, eox: nat)
    requires b.Complexes? || b.CharString? || b.Closure?
    requires a <= eox && xt == TypeCode(b)
    ensures var r := ParseAtom(m, xt, a, eox); !r.LeftOut? && (r.Parsed? ==> r.next == eox && r.value.body != b)
  {
    hide StringsOf, NulAfter;
  }

  // ---- all values ----

  /** x is parsed up to e, as itself exactly if Java has it; nothing in it is left out of the
      model. */
  ghost predicate Exact(x: Sexp, r: Parse, e: nat)
  {
    !r.LeftOut? && (r.Parsed? ==> r.next == e) && (r == Parsed(x, e) <==> InJava(x))
  }

  /** The body of x is parsed up to e, given its attributes as itself exactly if Java has it. */
  ghost predicate BodyExact(x: Sexp, attr: Attributes, r: Parse, e: nat)
  {
    && !r.LeftOut? && (r.Parsed? ==> r.next == e && r.value.attr.NoAttributes?)
    && (attr == x.attr ==> (r == Parsed(Sexp(NoAttributes, x.body), e) <==> BodyInJava(x)))
  }

  predicate BodyInJava(x: Sexp)
  {
    && NodeInJava(if x.body.Symbol? then Sexp(NoAttributes, x.body) else x)
    && forall k :: AttrCount(x) <= k < KidCount(x) ==> InJava(Kid(x, k))
  }

  lemma InJavaParts(x: Sexp)
    ensures InJava(x) <==>
      && BodyInJava(x)
      && (x.body.Symbol? ==> x.attr.NoAttributes?)
      && (x.attr.Attributes? ==> InJava(Kid(x, 0)))
  {
    hide SlotCount, Slot;
  }

  /** On bytes in the format, the parser returns where the value ends, and it returns the value
      if and only if Java has it. */
  lemma {:induction false} JavaReadsExactly(x: Sexp, m: seq<byte>, o: nat, e: nat)
    requires IsR(x) && |m| <= MAX_INT32 && Image(x, true, m, o, e)
    ensures Exact(x, ParseAt(m, o), e)
    decreases x, 3
  {
    hide TypeCode, AtomAt, AtomSize, ParseBody, Slot, SlotCount, IsR, InJava, BodyInJava, NodeIsR, ImageBy, WordAt,
      OwnImage;
    var ps :| ImageBy(x, true, m, o, e, ps);
    HeaderIs(x, m, o, e, ps);
    InJavaParts(x);
    if x.attr.Attributes? {
      KidIsR(x, 0);
      KidImage(x, true, m, o, e, ps, 0);
      JavaReadsExactly(Kid(x, 0), m, ps[0], ps[1]);
      var a := ParseAt(m, ps[0]);
      if a.Parsed? {
        BodyReadsExactly(x, m, o, e, ps, Attributes(a.value));
        AttributesAreList(x);
      }
    } else {
      BodyReadsExactly(x, m, o, e, ps, NoAttributes);
    }
  }

  lemma AttributesAreList(x: Sexp)
    requires IsR(x) && x.attr.Attributes?
    ensures x.attr.list.body.Pairs? && x.attr == Attributes(x.attr.list)
  {
  }

  lemma HeaderIs(x: Sexp, m: seq<byte>, o: nat, e: nat, ps: seq<nat>)
    requires |m| <= MAX_INT32 && ImageBy(x, true, m, o, e, ps)
    ensures |ps| == KidCount(x) + 1 && o + 4 <= |m| && (IS_LARGE(m[o]) ==> o + 8 <= |m|)
    ensures ps[0] == o + (if IS_LARGE(m[o]) then 8 else 4) && ps[0] + GetLen(m, o) == e <= |m|
    ensures GET_XT(m[o]) == TypeCode(x.body) && HAS_ATTR(m[o]) == x.attr.Attributes?
    ensures ps[0] <= ps[AttrCount(x)] <= ps[KidCount(x)] <= e
  {
    hide TypeCode, AtomAt, AtomSize, Slot, SlotCount, Image, WordAt, Declared;
    Ordered(x, true, m, o, e, ps, 0, AttrCount(x));
    Ordered(x, true, m, o, e, ps, AttrCount(x), KidCount(x));
    SameHeader(m, o);
  }

  lemma {:induction false} BodyReadsExactly(x: Sexp, m: seq<byte>, o: nat, e: nat, ps: seq<nat>, attr: Attributes)
    requires IsR(x) && |m| <= MAX_INT32 && ImageBy(x, true, m, o, e, ps)
    ensures |ps| == KidCount(x) + 1 && ps[AttrCount(x)] <= e
    ensures BodyExact(x, attr, ParseBody(m, TypeCode(x.body), ps[AttrCount(x)], e, attr), e)
    decreases x, 2
  {
    hide TypeCode, AtomAt, AtomSize, ParseBody, Slot, SlotCount, IsR, InJava, BodyInJava, Image, BodyExact;
    HeaderIs(x, m, o, e, ps);
    if x.body.Vector? {
      VectorReadsExactly(x, m, o, e, ps, attr);
    } else if x.body.Pairs? {
      PairsReadExactly(x, m, o, e, ps, attr);
    } else {
      AtomReadsExactly(x, m, o, e, ps, attr);
    }
  }

  lemma AtomReadsExactly(x: Sexp, m: seq<byte>, o: nat, e: nat, ps: seq<nat>, attr: Attributes)
    requires IsR(x) && |m| <= MAX_INT32 && ImageBy(x, true, m, o, e, ps) && !x.body.Vector? && !x.body.Pairs?
    requires |ps| == KidCount(x) + 1 && ps[AttrCount(x)] <= e
    ensures BodyExact(x, attr, ParseBody(m, TypeCode(x.body), ps[AttrCount(x)], e, attr), e)
  {
    hide TypeCode, AtomAt, AtomSize, ParseAtom, ParseBody, InJava, Image, HeaderThere, Declared, HeaderEnd, Slot,
      NamesUsable;
    var b := x.body;
    AtomBody(m, b, ps[AttrCount(x)], e, attr);
    if b.Complexes? || b.CharString? || b.Closure? {
      AtomNotParsed(b, m, TypeCode(b), ps[AttrCount(x)], e);
    } else {
      assert KidCount(x) == AttrCount(x) && NodeIsR(Sexp(NoAttributes, b)) && AtomInJava(b);
      AtomParsed(b, m, ps[AttrCount(x)]);
      assert BodyInJava(x);
    }
  }

  lemma AtomBody(m: seq<byte>, b: Body, at: nat, e: nat, attr: Attributes)
    requires !b.Vector? && !b.Pairs? && at <= e
    ensures ParseBody(m, TypeCode(b), at, e, attr) == ParseAtom(m, TypeCode(b), at, e)
  {
    hide ParseAtom, ParseCells, ParseElems;
  }

  lemma {:induction false} VectorReadsExactly(x: Sexp, m: seq<byte>, o: nat, e: nat, ps: seq<nat>, attr: Attributes)
    requires IsR(x) && |m| <= MAX_INT32 && ImageBy(x, true, m, o, e, ps) && x.body.Vector?
    requires |ps| == KidCount(x) + 1 && ps[AttrCount(x)] <= e
    ensures BodyExact(x, attr, ParseBody(m, TypeCode(x.body), ps[AttrCount(x)], e, attr), e)
    decreases x, 1
  {
    hide AtomAt, AtomSize, InJava, Image, HeaderThere, Declared, HeaderEnd, NamesUsable, ParseElems, IsR, OwnImage,
      ImageBy, BodyInJava, Slot, SlotCount;
    ElemsReadExactly(x, m, o, e, ps, 0, []);
    assert x.body.elems[..0] == [];
    VectorInJava(x);
  }

  lemma VectorInJava(x: Sexp)
    requires x.body.Vector?
    ensures BodyInJava(x) <==>
      NamesUsable(x.attr) && forall j :: 0 <= j < |x.body.elems| ==> InJava(x.body.elems[j])
  {
    hide InJava, NamesUsable;
    var elems := x.body.elems;
    assert forall j :: 0 <= j < |elems| ==> Kid(x, AttrCount(x) + j) == elems[j];
    assert forall k :: AttrCount(x) <= k < KidCount(x) ==> Kid(x, k) == elems[k - AttrCount(x)];
  }

  /** From element i on, with the values acc collected before. */
  lemma {:induction false} ElemsReadExactly(x: Sexp, m: seq<byte>, o: nat, e: nat, ps: seq<nat>, i: nat, acc: seq<Sexp>)
    requires IsR(x) && |m| <= MAX_INT32 && ImageBy(x, true, m, o, e, ps)
    requires x.body.Vector? && |acc| == i <= |x.body.elems| && |ps| == KidCount(x) + 1
    ensures ParseElems(m, ps[AttrCount(x) + i], e, acc) != Failed(LeftOut)
    ensures var elems := x.body.elems;
      ParseElems(m, ps[AttrCount(x) + i], e, acc) == Items(elems) <==>
      acc == elems[..i] && forall j :: i <= j < |elems| ==> InJava(elems[j])
    decreases x, 0, |x.body.elems| - i
  {
    hide AtomAt, AtomSize, InJava, Image, ImageBy, ParseAt, IsR;
    var elems, k := x.body.elems, AttrCount(x) + i;
    if i == |elems| {
      LastEnds(x, m, o, e, ps);
      assert elems[..i] == elems;
    } else {
      KidImage(x, true, m, o, e, ps, k);
      Ordered(x, true, m, o, e, ps, k, k + 1);
      assert Kid(x, k) == elems[i];
      KidIsR(x, k);
      JavaReadsExactly(elems[i], m, ps[k], ps[k + 1]);
      var xx := ParseAt(m, ps[k]);
      if xx.Parsed? {
        ElemsReadExactly(x, m, o, e, ps, i + 1, acc + [xx.value]);
        OneMore(elems, i, acc, xx.value);
      }
    }
  }

  lemma LastEnds(x: Sexp, m: seq<byte>, o: nat, e: nat, ps: seq<nat>)
    requires ImageBy(x, true, m, o, e, ps) && IsContainer(x.body)
    ensures |ps| == KidCount(x) + 1 && ps[KidCount(x)] == e
  {
    hide AtomAt, AtomSize, Image, Slot, SlotCount, TypeCode;
    ContainerEmpty(x.body);
  }

  lemma OneMore<T>(s: seq<T>, i: nat, acc: seq<T>, v: T)
    requires |acc| == i < |s|
    ensures acc + [v] == s[..i + 1] <==> acc == s[..i] && v == s[i]
  {
    assert s[..i + 1] == s[..i] + [s[i]];
    if acc + [v] == s[..i] + [s[i]] {
      assert acc == (acc + [v])[..i] == s[..i];
    }
  }

  lemma {:induction false} PairsReadExactly(x: Sexp, m: seq<byte>, o: nat, e: nat, ps: seq<nat>, attr: Attributes)
    requires IsR(x) && |m| <= MAX_INT32 && ImageBy(x, true, m, o, e, ps) && x.body.Pairs?
    requires |ps| == KidCount(x) + 1 && ps[AttrCount(x)] <= e
    ensures BodyExact(x, attr, ParseBody(m, TypeCode(x.body), ps[AttrCount(x)], e, attr), e)
    decreases x, 1
  {
    hide AtomAt, AtomSize, InJava, BodyInJava, Image, HeaderThere, Declared, HeaderEnd, NamesUsable, ParseCells, IsR,
      OwnImage, IsTagged, Fresh;
    CellsReadExactly(x, m, o, e, ps, 0, []);
    assert x.body.cells[..0] == [];
    assert ps[CellIndex(x, 0)] == ps[AttrCount(x)];
    CellsInJava(x);
  }

  /** The tag of cell i is missing or was not used before. */
  predicate Fresh(cells: seq<Cell>, i: nat)
    requires i < |cells|
  {
    cells[i].tag == NIL || forall h :: 0 <= h < i ==> cells[h].tag != cells[i].tag
  }

  lemma CellsInJava(x: Sexp)
    requires IsR(x) && x.body.Pairs?
    ensures BodyInJava(x) <==>
      forall j :: 0 <= j < |x.body.cells| ==> InJava(x.body.cells[j].car) && Fresh(x.body.cells, j)
  {
    hide IsTagged, IsR, NodeIsR, InJava, Kid, Fresh;
    var cells, a := x.body.cells, AttrCount(x);
    FreshIsDistinct(cells);
    if BodyInJava(x) {
      forall j | 0 <= j < |cells|
        ensures InJava(cells[j].car)
      {
        CellIsKid(x, j);
      }
    } else if forall j :: 0 <= j < |cells| ==> InJava(cells[j].car) && Fresh(cells, j) {
      forall k | a <= k < KidCount(x)
        ensures InJava(Kid(x, k))
      {
        var j := if IsTagged(cells) then (k - a) / 2 else k - a;
        CellIsKid(x, j);
        TagInJava(x, j);
      }
    }
  }

  lemma FreshIsDistinct(cells: seq<Cell>)
    ensures DistinctTags(cells, |cells|) <==> forall j :: 0 <= j < |cells| ==> Fresh(cells, j)
  {
    if DistinctTags(cells, |cells|) {
      forall j | 0 <= j < |cells|
        ensures Fresh(cells, j)
      {
        assert forall h :: 0 <= h < j && cells[h].tag != NIL ==> cells[h].tag != cells[j].tag;
      }
    } else {
      var i, j :| 0 <= i < j < |cells| && cells[i].tag != NIL && cells[i].tag == cells[j].tag;
      assert !Fresh(cells, j);
    }
  }

  lemma TagInJava(x: Sexp, j: nat)
    requires IsR(x) && x.body.Pairs? && j < |x.body.cells|
    ensures IsTag(x.body.cells[j].tag) && InJava(x.body.cells[j].tag)
  {
    assert IsTag(x.body.cells[j].tag);
  }

  /** One turn of the loop over cells. */
  lemma CellParsed(m: seq<byte>, tagged: bool, cur: nat, eox: nat, acc: seq<Cell>)
    ensures cur >= eox ==> ParseCells(m, tagged, cur, eox, acc) == Items(acc)
    ensures cur < eox && !ParseAt(m, cur).Parsed? ==> ParseCells(m, tagged, cur, eox, acc) == Failed(ParseAt(m, cur))
    ensures cur < eox && ParseAt(m, cur).Parsed? && !tagged ==>
      ParseCells(m, tagged, cur, eox, acc)
      == ParseCells(m, tagged, ParseAt(m, cur).next, eox, Put(acc, ParseAt(m, cur).value, NoKey))
    ensures cur < eox && ParseAt(m, cur).Parsed? && tagged ==>
      var nf := ParseAt(m, ParseAt(m, cur).next);
      nf.Parsed? && nf.value.body != Strings([]) ==>
        ParseCells(m, tagged, cur, eox, acc)
        == ParseCells(m, tagged, nf.next, eox, Put(acc, ParseAt(m, cur).value, KeyIn(nf.value)))
  {
    hide ParseAt, Put, KeyIn;
  }

  /** The loop from cell i on, with acc collected before, gives the cells exactly if acc are the
      ones before and Java has the others under new keys. */
  ghost predicate CellsExact(x: Sexp, i: nat, acc: seq<Cell>, l: Run<Cell>)
    requires x.body.Pairs? && i <= |x.body.cells|
  {
    var cells := x.body.cells;
    && l != Failed(LeftOut)
    && (l == Items(cells) <==>
        acc == cells[..i] && forall j :: i <= j < |cells| ==> InJava(cells[j].car) && Fresh(cells, j))
  }

  /** acc is shorter than i if a key came up twice. */
  lemma {:induction false} CellsReadExactly(x: Sexp, m: seq<byte>, o: nat, e: nat, ps: seq<nat>, i: nat, acc: seq<Cell>)
    requires IsR(x) && |m| <= MAX_INT32 && ImageBy(x, true, m, o, e, ps)
    requires x.body.Pairs? && |acc| <= i <= |x.body.cells| && |ps| == KidCount(x) + 1
    ensures CellsExact(x, i, acc, ParseCells(m, IsTagged(x.body.cells), ps[CellIndex(x, i)], e, acc))
    decreases x, 0, |x.body.cells| - i
  {
    hide AtomAt, AtomSize, InJava, Image, ImageBy, ParseAt, IsR, IsTagged, NodeIsR, Slot, Put, ParseCells, CellsExact;
    var cells := x.body.cells;
    var tagged := IsTagged(cells);
    var k := CellIndex(x, i);
    CellParsed(m, tagged, ps[k], e, acc);
    if i == |cells| {
      LastEnds(x, m, o, e, ps);
      AllCells(x, acc);
    } else {
      KidImage(x, true, m, o, e, ps, k);
      Ordered(x, true, m, o, e, ps, k, k + 1);
      CellIsKid(x, i);
      KidIsR(x, k);
      JavaReadsExactly(cells[i].car, m, ps[k], ps[k + 1]);
      var lc := ParseAt(m, ps[k]);
      if lc.Parsed? {
        if tagged {
          TagReadsExactly(x, m, o, e, ps, i);
        }
        PutOne(x, i, acc, lc.value);
        CellsReadExactly(x, m, o, e, ps, i + 1, Put(acc, lc.value, KeyIn(cells[i].tag)));
        OneFurther(x, i, acc, lc.value, ParseCells(m, tagged, ps[k], e, acc));
      } else {
        NoFurther(x, i, acc, lc);
      }
    }
  }

  lemma AllCells(x: Sexp, acc: seq<Cell>)
    requires x.body.Pairs?
    ensures CellsExact(x, |x.body.cells|, acc, Items(acc))
  {
    assert x.body.cells[..|x.body.cells|] == x.body.cells;
  }

  lemma OneFurther(x: Sexp, i: nat, acc: seq<Cell>, v: Sexp, l: Run<Cell>)
    requires IsR(x) && x.body.Pairs? && |acc| <= i < |x.body.cells| && x.body.cells[i].tag.body != Strings([])
    requires v == x.body.cells[i].car <==> InJava(x.body.cells[i].car)
    requires CellsExact(x, i + 1, Put(acc, v, KeyIn(x.body.cells[i].tag)), l)
    ensures CellsExact(x, i, acc, l)
  {
    hide InJava, IsR, Put, KeyIn, Fresh, NodeIsR;
    PutOne(x, i, acc, v);
  }

  lemma NoFurther(x: Sexp, i: nat, acc: seq<Cell>, why: Parse)
    requires x.body.Pairs? && i < |x.body.cells| && !InJava(x.body.cells[i].car) && !why.LeftOut?
    ensures CellsExact(x, i, acc, Failed(why))
  {
    hide InJava, Fresh;
  }

  lemma TagReadsExactly(x: Sexp, m: seq<byte>, o: nat, e: nat, ps: seq<nat>, i: nat)
    requires IsR(x) && |m| <= MAX_INT32 && ImageBy(x, true, m, o, e, ps)
    requires x.body.Pairs? && IsTagged(x.body.cells) && i < |x.body.cells| && |ps| == KidCount(x) + 1
    ensures ParseAt(m, ps[AttrCount(x) + 2 * i + 1]) == Parsed(x.body.cells[i].tag, ps[AttrCount(x) + 2 * i + 2])
    ensures x.body.cells[i].tag.body != Strings([])
    decreases x, 0, 0
  {
    hide AtomAt, AtomSize, InJava, Image, ImageBy, ParseAt, IsR, IsTagged, NodeIsR, Slot;
    var k := AttrCount(x) + 2 * i + 1;
    KidImage(x, true, m, o, e, ps, k);
    CellIsKid(x, i);
    KidIsR(x, k);
    TagInJava(x, i);
    JavaReadsExactly(x.body.cells[i].tag, m, ps[k], ps[k + 1]);
  }

  /** Putting the right value under the right key continues the list if the key is new. */
  lemma PutOne(x: Sexp, i: nat, acc: seq<Cell>, v: Sexp)
    requires IsR(x) && x.body.Pairs? && |acc| <= i < |x.body.cells|
    ensures x.body.cells[i].tag.body != Strings([])
    ensures |Put(acc, v, KeyIn(x.body.cells[i].tag))| <= i + 1
    ensures Put(acc, v, KeyIn(x.body.cells[i].tag)) == x.body.cells[..i + 1] <==>
      acc == x.body.cells[..i] && v == x.body.cells[i].car && Fresh(x.body.cells, i)
  {
    hide InJava, IsR;
    var cells := x.body.cells;
    TagInJava(x, i);
    var c := Cell(v, cells[i].tag);
    assert TagOf(KeyIn(cells[i].tag)) == cells[i].tag;
    if |acc| == i {
      OneMore(cells, i, acc, c);
      assert c == cells[i] <==> v == cells[i].car;
    }
  }

  // ---- what is not in the format ----

  /** A value at o whose header announces len bytes, and their end. */
  predicate Announces(m: seq<byte>, o: nat, ty: byte, len: byte)
  {
    o + 4 + len as int <= |m| <= MAX_INT32 && m[o..o + 4] == [ty, len, 0, 0]
  }

  lemma AtomAnnounced(m: seq<byte>, o: nat, ty: byte, len: byte)
    requires Announces(m, o, ty, len) && ty < 64 && !IsPairType(ty) && ty != XT_VECTOR && ty != XT_VECTOR_EXP
    ensures ParseAt(m, o) == ParseAtom(m, ty, o + 4, o + 4 + len as int)
  {
    hide ParseAtom;
    var h := m[o..o + 4];
    assert m[o] == h[0] && m[o + 1] == h[1] && m[o + 2] == h[2] && m[o + 3] == h[3];
  }

  /** The single values of old servers, whose types are 1, 2, 6 and 35. */
  lemma OldValues(m: seq<byte>, o: nat)
    ensures Announces(m, o, 1, 4) ==> ParseAt(m, o) == Parsed(Sexp(NoAttributes, Ints([WordAt(m, o + 4)])), o + 8)
    ensures Announces(m, o, 2, 8) ==>
              ParseAt(m, o) == Parsed(Sexp(NoAttributes, Reals([Double(WordAt(m, o + 4), WordAt(m, o + 8))])), o + 12)
    ensures Announces(m, o, 6, 4) && m[o + 4] == 1 ==>
              ParseAt(m, o) == Parsed(Sexp(NoAttributes, Logicals([True])), o + 8)
    ensures Announces(m, o, 35, 3) && m[o + 4..o + 7] == [0, 1, 2] ==>
              ParseAt(m, o) == Parsed(Sexp(NoAttributes, Logicals([False, True, LogicalNA])), o + 7)
  {
    hide ParseAt, WordAt;
    if Announces(m, o, 1, 4) {
      AtomAnnounced(m, o, 1, 4);
    }
    if Announces(m, o, 2, 8) {
      AtomAnnounced(m, o, 2, 8);
    }
    if Announces(m, o, 6, 4) {
      AtomAnnounced(m, o, 6, 4);
    }
    if Announces(m, o, 35, 3) && m[o + 4..o + 7] == [0, 1, 2] {
      AtomAnnounced(m, o, 35, 3);
      var s := m[o + 4..o + 7];
      assert m[o + 4] == s[0] && m[o + 5] == s[1] && m[o + 6] == s[2];
      var l := ParseAt(m, o).value.body.logicals;
      assert l[0] == LogicalOf(m[o + 4 + 0]) && l[1] == LogicalOf(m[o + 4 + 1]) && l[2] == LogicalOf(m[o + 4 + 2]);
      assert l == [False, True, LogicalNA];
    }
  }

  /** Number vectors whose length is no multiple of their elements' end in an exception, unless they
      are shorter than one element; complex vectors and closures leave nothing; and four old types
      are not modelled. */
  lemma BadValues(m: seq<byte>, o: nat, len: byte)
    ensures Announces(m, o, 32, len) && len > 4 && len % 4 != 0 ==> ParseAt(m, o) == Threw
    ensures Announces(m, o, 33, len) && len > 8 && len % 8 != 0 ==> ParseAt(m, o) == Threw
    ensures Announces(m, o, 38, len) || Announces(m, o, 18, len) ==> ParseAt(m, o) == NoContent
    ensures forall ty :: Announces(m, o, ty, len) && ty in {4, 5, 17, 27} ==> ParseAt(m, o) == LeftOut
  {
    hide ParseAt, WordAt;
    if Announces(m, o, 32, len) {
      AtomAnnounced(m, o, 32, len);
    }
    if Announces(m, o, 33, len) {
      AtomAnnounced(m, o, 33, len);
    }
    if Announces(m, o, 38, len) {
      AtomAnnounced(m, o, 38, len);
    }
    if Announces(m, o, 18, len) {
      AtomAnnounced(m, o, 18, len);
    }
    forall ty | Announces(m, o, ty, len) && ty in {4, 5, 17, 27}
      ensures ParseAt(m, o) == LeftOut
    {
      AtomAnnounced(m, o, ty, len);
    }
  }

  /** An attribute list with v as its only attribute. */
  function Named(name: seq<byte>, v: Body): Attributes
  {
    Attributes(Sexp(NoAttributes, Pairs(false, [Cell(Sexp(NoAttributes, v), Sexp(NoAttributes, Symbol(name)))])))
  }

  function OneElement(v: Body): Attributes { Named(NAMES, Vector(false, [Sexp(NoAttributes, v)])) }

  lemma NamedElement(v: Body)
    ensures NamesUsable(OneElement(v)) == HasString(v)
  {
    var cells := OneElement(v).list.body.cells;
    assert KeyIndex(cells, NAMES) == 0;
    var elems := cells[0].car.body.elems;
    assert elems[0].body == v;
  }

  /** For which "names" a vector can be read: strings, and lists of values with a first string. */
  lemma NamesSpelled(d: Double)
    ensures NamesUsable(NoAttributes) && NamesUsable(Named(NAMES, Strings([]))) && NamesUsable(Named(NAMES, S4))
    ensures !NamesUsable(Named(NAMES, Ints([1]))) && !NamesUsable(Named(NAMES, Reals([d])))
    ensures !NamesUsable(Named(NAMES, Logicals([True]))) && !NamesUsable(Named(NAMES, Raw([1])))
    ensures NamesUsable(Named([0x6e], Ints([1])))
    ensures NamesUsable(OneElement(Symbol([]))) && NamesUsable(OneElement(Strings([StringNA])))
    ensures NamesUsable(OneElement(Ints([1]))) && NamesUsable(OneElement(Reals([d])))
    ensures NamesUsable(OneElement(Logicals([True])))
    ensures !NamesUsable(OneElement(Strings([]))) && !NamesUsable(OneElement(Ints([])))
    ensures !NamesUsable(OneElement(Reals([]))) && !NamesUsable(OneElement(Logicals([])))
    ensures !NamesUsable(OneElement(Raw([1]))) && !NamesUsable(OneElement(Null))
  {
    hide NamesUsable, OneElement;
    NamedElement(Symbol([]));
    NamedElement(Strings([StringNA]));
    NamedElement(Ints([1]));
    NamedElement(Reals([d]));
    NamedElement(Logicals([True]));
    NamedElement(Strings([]));
    NamedElement(Ints([]));
    NamedElement(Reals([]));
    NamedElement(Logicals([]));
    NamedElement(Raw([1]));
    NamedElement(Null);
    NamedDirectly(d);
  }

  lemma NamedDirectly(d: Double)
    ensures NamesUsable(NoAttributes) && NamesUsable(Named(NAMES, Strings([]))) && NamesUsable(Named(NAMES, S4))
    ensures !NamesUsable(Named(NAMES, Ints([1]))) && !NamesUsable(Named(NAMES, Reals([d])))
    ensures !NamesUsable(Named(NAMES, Logicals([True]))) && !NamesUsable(Named(NAMES, Raw([1])))
    ensures NamesUsable(Named([0x6e], Ints([1])))
  {
    OtherName([0x6e], Ints([1]));
  }

  lemma OtherName(name: seq<byte>, v: Body)
    requires name != NAMES
    ensures NamesUsable(Named(name, v))
  {
    var cells := Named(name, v).list.body.cells;
    assert cells[1..] == [] && KeyIndex(cells, NAMES) == 1 + KeyIndex([], NAMES) == 1;
  }
}
