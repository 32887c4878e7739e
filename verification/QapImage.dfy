/** The QAP1 format as a relation between values and bytes, independent of who wrote them,
    and the theorem that the C reader inverts it. */
module QapImage {
  import opened Bytes
  import opened Rsrv
  import opened Sexps
  import opened QapLayout
  import opened QapDecode

  // ---- headers as a reader sees them ----

  predicate HeaderThere(m: seq<byte>, o: nat)
  {
    o + 4 <= |m| && (IS_LARGE(PAR_TYPE(WordAt(m, o))) ==> o + 8 <= |m|)
  }

  /** Where the header at o ends. */
  function HeaderEnd(m: seq<byte>, o: nat): nat
    requires HeaderThere(m, o)
  {
    if IS_LARGE(PAR_TYPE(WordAt(m, o))) then o + 8 else o + 4
  }

  /** The 24-bit or 56-bit length in the header. */
  function Declared(m: seq<byte>, o: nat): nat
    requires HeaderThere(m, o)
  {
    PAR_LEN(WordAt(m, o)) + if IS_LARGE(PAR_TYPE(WordAt(m, o))) then WordAt(m, o + 4) * LEN24 else 0
  }

  /** Where the next value starts if this one is skipped by its header alone. */
  function Skip(m: seq<byte>, o: nat): nat
    requires HeaderThere(m, o)
  {
    HeaderEnd(m, o) + Declared(m, o)
  }

  // ---- the format ----

  /** The first entry the last turn of the element loop reads. */
  function LastEntry(x: Sexp): nat
    requires SlotCount(x.body) > 0
  {
    KidCount(x) - if x.body.Pairs? && IsTagged(x.body.cells) then 2 else 1
  }

  /** How many stored values make up one cell. */
  function PerCell(x: Sexp): nat
    requires x.body.Pairs?
  {
    if IsTagged(x.body.cells) then 2 else 1
  }

  /** Which nested value the i-th cell starts with. */
  function CellIndex(x: Sexp, i: nat): (k: nat)
    requires x.body.Pairs? && i <= |x.body.cells|
    ensures k <= KidCount(x)
  {
    AttrCount(x) + if IsTagged(x.body.cells) then 2 * i else i
  }

  predicate IsContainer(b: Body) { b.Vector? || b.Pairs? }

  /** The declared length counts exactly the bytes behind the header. A lax reader, as the C
      one is, also accepts any length for logicals and S4 objects, which it does not look at, for
      vectors and lists any that makes it read the last entry, and for empty ones any that does not
      make it read more. */
  predicate LengthFits(x: Sexp, strict: bool, len: nat, base: nat, e: nat, last: nat)
  {
    || base + len == e
    || (!strict && (x.body.Logicals? || x.body.S4?))
    || (!strict && IsContainer(x.body) && base + len <= e && (SlotCount(x.body) > 0 ==> last < base + len))
  }

  /** The bytes [o, e) of m are x: a header with the type, the two flags and the length, then
      the nested values between the boundaries ps, then the data. */
  ghost predicate ImageBy(x: Sexp, strict: bool, m: seq<byte>, o: nat, e: nat, ps: seq<nat>)
    decreases x, 0
  {
    && OwnImage(x, strict, m, o, e, ps)
    && forall k :: 0 <= k < KidCount(x) ==> ps[k] < ps[k + 1] && Image(Kid(x, k), strict, m, ps[k], ps[k + 1])
  }

  ghost predicate OwnImage(x: Sexp, strict: bool, m: seq<byte>, o: nat, e: nat, ps: seq<nat>)
  {
    && |ps| == KidCount(x) + 1
    && HeaderThere(m, o)
    && GET_XT(PAR_TYPE(WordAt(m, o))) == TypeCode(x.body)
    && HAS_ATTR(PAR_TYPE(WordAt(m, o))) == x.attr.Attributes?
    && ps[0] == HeaderEnd(m, o)
    && ps[KidCount(x)] + AtomSize(x.body) == e <= |m|
    && AtomAt(x.body, m, ps[KidCount(x)])
    && LengthFits(x, strict, Declared(m, o), ps[0], e, if SlotCount(x.body) > 0 then ps[LastEntry(x)] else 0)
  }

  ghost predicate Image(x: Sexp, strict: bool, m: seq<byte>, o: nat, e: nat)
    decreases x, 1
  {
    exists ps :: ImageBy(x, strict, m, o, e, ps)
  }

  // ---- what the C reader can return ----

  predicate NodeReadable(x: Sexp)
  {
    && !x.body.Closure? && !x.body.Other?
    && (x.body.S4? ==> x.attr.Attributes?)
  }

  /** No closure, no unknown type and no S4 object without attributes, at any level. */
  predicate Readable(x: Sexp)
    decreases x
  {
    NodeReadable(x) && forall k :: 0 <= k < KidCount(x) ==> Readable(Kid(x, k))
  }

  // ---- strings and names ----

  lemma {:induction false} EscapedPart(s: seq<RString>, i: nat, n: nat)
    requires i < n <= |s|
    ensures |EscapedAll(s, i)| + |Escaped(s[i])| == |EscapedAll(s, i + 1)| <= |EscapedAll(s, n)|
    ensures EscapedAll(s, n)[|EscapedAll(s, i)|..|EscapedAll(s, i + 1)|] == Escaped(s[i])
    decreases n
  {
    hide Escaped;
    if i + 1 < n {
      EscapedPart(s, i, n - 1);
      assert EscapedAll(s, n) == EscapedAll(s, n - 1) + Escaped(s[n - 1]);
    }
  }

  /** Bytes other than NUL are passed over up to the end of the element. */
  lemma {:induction false} ElementScanned(m: seq<byte>, cc: nat, c: nat, z: nat, sen: nat)
    requires cc <= c <= z < sen <= |m| && m[z] == 0
    requires forall i :: c <= i < z ==> m[i] != 0
    ensures StringsOf(m, cc, c, sen) == [ElementOf(m, cc, z)] + StringsOf(m, z + 1, z + 1, sen)
    decreases z - c
  {
    if c < z {
      ElementScanned(m, cc, c + 1, z, sen);
    }
  }

  lemma {:induction false} PaddingScanned(m: seq<byte>, cc: nat, c: nat, sen: nat)
    requires cc <= c <= sen <= |m|
    requires forall i :: c <= i < sen ==> m[i] != 0
    ensures StringsOf(m, cc, c, sen) == []
    decreases sen - c
  {
    if c < sen {
      PaddingScanned(m, cc, c + 1, sen);
    }
  }

  /** One escaped element is read back as itself: NA, the empty string and strings that begin
      with 0xff are told apart. */
  lemma ElementReadBack(m: seq<byte>, o: nat, s: RString, sen: nat)
    requires s.Text? ==> NoNul(s.chars)
    requires o + |Escaped(s)| <= sen <= |m| && m[o..o + |Escaped(s)|] == Escaped(s)
    ensures StringsOf(m, o, o, sen) == [s] + StringsOf(m, o + |Escaped(s)|, o + |Escaped(s)|, sen)
  {
    hide StringsOf, ElementOf, Escaped;
    ElementIs(m, o, o + |Escaped(s)| - 1, s);
    ElementScanned(m, o, o, o + |Escaped(s)| - 1, sen);
  }

  lemma ElementIs(m: seq<byte>, o: nat, z: nat, s: RString)
    requires s.Text? ==> NoNul(s.chars)
    requires z + 1 <= |m| && z + 1 == o + |Escaped(s)| && m[o..z + 1] == Escaped(s)
    ensures m[z] == 0 && (forall i :: o <= i < z ==> m[i] != 0)
    ensures ElementOf(m, o, z) == s
  {
    var e := Escaped(s);
    assert forall i :: 0 <= i < |e| ==> m[o + i] == m[o..z + 1][i] == e[i];
    assert forall i :: 0 <= i < |e| - 1 ==> e[i] != 0;
    assert forall i :: o <= i < z ==> m[i] == e[i - o];
    if s.Text? {
      if e[0] == 0xff {
        assert m[o + 1..z] == e[1..|e| - 1] == s.chars;
      } else {
        assert m[o..z] == e[..|e| - 1] == s.chars;
      }
    }
  }

  lemma {:induction false} StringsReadBack(s: seq<RString>, m: seq<byte>, a: nat, sen: nat, i: nat)
    requires forall j :: 0 <= j < |s| && s[j].Text? ==> NoNul(s[j].chars)
    requires i <= |s| && a + |EscapedAll(s, |s|)| <= sen <= |m|
    requires m[a..a + |EscapedAll(s, |s|)|] == EscapedAll(s, |s|)
    requires forall j :: a + |EscapedAll(s, |s|)| <= j < sen ==> m[j] != 0
    ensures a + |EscapedAll(s, i)| <= sen
    ensures StringsOf(m, a + |EscapedAll(s, i)|, a + |EscapedAll(s, i)|, sen) == s[i..]
    decreases |s| - i
  {
    hide Escaped, StringsOf, EscapedAll;
    if i == |s| {
      PaddingScanned(m, a + |EscapedAll(s, i)|, a + |EscapedAll(s, i)|, sen);
    } else {
      EscapedPart(s, i, |s|);
      StringsReadBack(s, m, a, sen, i + 1);
      var all, from, to := EscapedAll(s, |s|), |EscapedAll(s, i)|, |EscapedAll(s, i + 1)|;
      SliceOfSlice(m, a, a + |all|, from, to);
      ElementReadBack(m, a + from, s[i], sen);
      assert s[i..] == [s[i]] + s[i + 1..];
    }
  }

  lemma {:induction false} NulFound(m: seq<byte>, o: nat, z: nat)
    requires o <= z < |m| && m[z] == 0 && forall i :: o <= i < z ==> m[i] != 0
    ensures NulAfter(m, o) == z
    decreases z - o
  {
    if o < z {
      NulFound(m, o + 1, z);
    }
  }

  // ---- the reader inverts the format ----

  predicate IsAtom(b: Body)
  {
    !IsContainer(b) && !b.Closure? && !b.Other?
  }

  lemma NameReadBack(s: seq<byte>, m: seq<byte>, a: nat)
    requires NoNul(s) && a + |s| < |m| && m[a..a + |s|] == s && m[a + |s|] == 0
    ensures NulAfter(m, a) == a + |s|
  {
    assert forall i :: a <= i < a + |s| ==> m[i] == s[i - a];
    NulFound(m, a, a + |s|);
  }

  /** The data of a body without parts is read back, and the cursor is left behind it. */
  lemma AtomReadBack(b: Body, m: seq<byte>, a: nat, ln: int, stay: nat)
    requires IsAtom(b) && NodeIsR(Sexp(NoAttributes, b))
    requires stay <= a && a + AtomSize(b) <= |m| && AtomAt(b, m, a)
    requires a + ln >= 0 && (ln == AtomSize(b) || b.Logicals? || b.S4?)
    ensures DecodeAtom(m, TypeCode(b), a, ln, stay)
         == Done(Sexp(NoAttributes, b), if b.S4? then stay else a + AtomSize(b))
  {
    hide DecodeAtom, AtomAt;
    if b.Ints? || b.Reals? || b.Complexes? {
      NumbersReadBack(b, m, a, stay);
    } else if b.Strings? || b.Symbol? || b.CharString? {
      TextReadBack(b, m, a, stay);
    } else {
      OthersReadBack(b, m, a, ln, stay);
    }
  }

  lemma TextReadBack(b: Body, m: seq<byte>, a: nat, stay: nat)
    requires b.Strings? || b.Symbol? || b.CharString?
    requires NodeIsR(Sexp(NoAttributes, b)) && stay <= a && a + AtomSize(b) <= |m| && AtomAt(b, m, a)
    ensures DecodeAtom(m, TypeCode(b), a, AtomSize(b), stay) == Done(Sexp(NoAttributes, b), a + AtomSize(b))
  {
    hide Escaped, EscapedAll, StringsOf, NulAfter, WordAt, Count;
    match b
    case Strings(s) => StringsAtomReadBack(s, m, a);
    case Symbol(s) => NameReadBack(s, m, a);
    case CharString(s) => NameReadBack(s, m, a);
  }

  lemma OthersReadBack(b: Body, m: seq<byte>, a: nat, ln: int, stay: nat)
    requires b.Null? || b.S4? || b.Raw? || b.Logicals?
    requires NodeIsR(Sexp(NoAttributes, b)) && stay <= a && a + AtomSize(b) <= |m| && AtomAt(b, m, a)
    requires a + ln >= 0 && (ln == AtomSize(b) || b.Logicals? || b.S4?)
    ensures DecodeAtom(m, TypeCode(b), a, ln, stay)
         == Done(Sexp(NoAttributes, b), if b.S4? then stay else a + AtomSize(b))
  {
    hide StringsOf, NulAfter, WordAt, Count, LogicalOf, MeansLogical;
    if b.Logicals? {
      LogicalsReadBack(b.logicals, m, a);
    }
  }

  lemma NumbersReadBack(b: Body, m: seq<byte>, a: nat, stay: nat)
    requires b.Ints? || b.Reals? || b.Complexes?
    requires NodeIsR(Sexp(NoAttributes, b)) && stay <= a && a + AtomSize(b) <= |m| && AtomAt(b, m, a)
    ensures DecodeAtom(m, TypeCode(b), a, AtomSize(b), stay) == Done(Sexp(NoAttributes, b), a + AtomSize(b))
  {
    hide Count, WordAt;
    match b
    case Ints(s) =>
      CountIs(4 * |s|, 4);
      assert s == seq(|s|, i requires 0 <= i < |s| => WordAt(m, a + 4 * i));
    case Reals(s) =>
      CountIs(8 * |s|, 8);
      assert s == seq(|s|, i requires 0 <= i < |s| => DoubleOf(m, a + 8 * i));
    case Complexes(s) =>
      CountIs(16 * |s|, 16);
      ComplexesReadBack(s, m, a);
  }

  lemma LogicalsReadBack(s: seq<Logical>, m: seq<byte>, a: nat)
    requires a + 4 + |s| <= |m| && forall i :: 0 <= i < |s| ==> MeansLogical(m[a + 4 + i], s[i])
    ensures s == seq(|s|, i requires 0 <= i < |s| => LogicalOf(m[a + 4 + i]))
  {
    forall i | 0 <= i < |s|
      ensures s[i] == LogicalOf(m[a + 4 + i])
    {
      assert MeansLogical(m[a + 4 + i], s[i]);
    }
  }

  lemma ComplexesReadBack(s: seq<Complex>, m: seq<byte>, a: nat)
    requires a + 16 * |s| <= |m| && AtomAt(Complexes(s), m, a)
    ensures s == seq(|s|, i requires 0 <= i < |s| => Complex(DoubleOf(m, a + 16 * i), DoubleOf(m, a + 16 * i + 8)))
  {
    forall i | 0 <= i < |s|
      ensures s[i] == Complex(DoubleOf(m, a + 16 * i), DoubleOf(m, a + 16 * i + 8))
    {
      assert s[i] == Complex(s[i].re, s[i].im);
    }
  }

  lemma StringsAtomReadBack(s: seq<RString>, m: seq<byte>, a: nat)
    requires NodeIsR(Sexp(NoAttributes, Strings(s)))
    requires a + AtomSize(Strings(s)) <= |m| && AtomAt(Strings(s), m, a)
    ensures StringsOf(m, a, a, a + AtomSize(Strings(s))) == s
  {
    hide Escaped, StringsOf;
    StringsReadBack(s, m, a, a + AtomSize(Strings(s)), 0);
  }

  /** The C reader, at the start of the bytes of a readable value, returns that value with
      the cursor exactly behind them, whatever follows. */
  lemma {:induction false} ReadBack(x: Sexp, strict: bool, m: seq<byte>, o: nat, e: nat)
    requires IsR(x) && Readable(x) && Image(x, strict, m, o, e)
    ensures o < e <= |m| && DecodeAt(m, o) == Done(x, e)
    decreases x, 2
  {
    hide TypeCode, AtomAt, AtomSize, DecodeAt, DecodeBody, Slot, SlotCount, IsR, Readable, WordAt, HeaderThere,
      HeaderEnd, Declared, LengthFits, NodeIsR, OwnImage;
    var ps :| ImageBy(x, strict, m, o, e, ps);
    HasBody(x, strict, m, o, e, ps);
    var a := ps[AttrCount(x)];
    Unfold(x);
    HeaderOpens(m, o);
    BodyReadBack(x, strict, m, o, e, ps, if x.attr.Attributes? then a else o);
    if x.attr.Attributes? {
      ReadBack(Kid(x, 0), strict, m, ps[0], ps[1]);
      AttributesSet(x);
    }
  }

  lemma AttributesSet(x: Sexp)
    requires NodeIsR(x) && x.attr.Attributes?
    ensures Kid(x, 0) == x.attr.list
    ensures forall n :: SetAttrib(Done(Sexp(NoAttributes, x.body), n), x.attr.list) == Done(x, n)
  {
  }

  lemma HasBody(x: Sexp, strict: bool, m: seq<byte>, o: nat, e: nat, ps: seq<nat>)
    requires ImageBy(x, strict, m, o, e, ps)
    ensures |ps| == KidCount(x) + 1 && o + 4 <= ps[0] <= ps[AttrCount(x)] <= e <= |m|
    ensures HeaderThere(m, o) && HeaderEnd(m, o) == ps[0]
    ensures GET_XT(PAR_TYPE(WordAt(m, o))) == TypeCode(x.body)
    ensures HAS_ATTR(PAR_TYPE(WordAt(m, o))) == x.attr.Attributes?
  {
    hide TypeCode, AtomAt, AtomSize, Slot, SlotCount, WordAt, Declared, LengthFits, Image;
    Ordered(x, strict, m, o, e, ps, 0, AttrCount(x));
    Ordered(x, strict, m, o, e, ps, AttrCount(x), KidCount(x));
  }

  /** What the reader makes of a header. */
  lemma HeaderOpens(m: seq<byte>, o: nat)
    requires HeaderThere(m, o)
    ensures HeaderEnd(m, o) <= |m|
    ensures var ty, b, ln := PAR_TYPE(WordAt(m, o)), HeaderEnd(m, o), Declared(m, o);
      DecodeAt(m, o) == if HAS_ATTR(ty) then Attributed(m, GET_XT(ty), b, ln) else DecodeBody(m, GET_XT(ty), b, ln, o)
  {
    hide DecodeBody, WordAt;
  }

  lemma Unfold(x: Sexp)
    requires IsR(x) && Readable(x)
    ensures NodeIsR(x) && NodeReadable(x)
    ensures forall k :: 0 <= k < KidCount(x) ==> IsR(Kid(x, k)) && Readable(Kid(x, k))
  {
    hide Slot, SlotCount;
  }

  lemma {:induction false} BodyReadBack(x: Sexp, strict: bool, m: seq<byte>, o: nat, e: nat, ps: seq<nat>, stay: nat)
    requires IsR(x) && Readable(x) && ImageBy(x, strict, m, o, e, ps)
    requires stay <= ps[AttrCount(x)]
    requires x.attr.Attributes? ==> stay == ps[AttrCount(x)]
    ensures ps[0] <= ps[AttrCount(x)] <= e
    ensures DecodeBody(m, TypeCode(x.body), ps[AttrCount(x)], Declared(m, o) - (ps[AttrCount(x)] - ps[0]), stay)
         == Done(Sexp(NoAttributes, x.body), e)
    decreases x, 1
  {
    hide AtomAt, AtomSize, IsR, Readable, Slot, SlotCount, DecodeBody, TypeCode, DecodeElems, DecodeCells,
      HeaderEnd, Declared;
    Unfold(x);
    Ordered(x, strict, m, o, e, ps, 0, AttrCount(x));
    Ordered(x, strict, m, o, e, ps, AttrCount(x), KidCount(x));
    if x.body.Vector? {
      VectorReadBack(x, strict, m, o, e, ps, stay);
    } else if x.body.Pairs? {
      PairsReadBack(x, strict, m, o, e, ps, stay);
    } else {
      AtomBodyReadBack(x, strict, m, o, e, ps, stay);
    }
  }

  lemma AtomBodyReadBack(x: Sexp, strict: bool, m: seq<byte>, o: nat, e: nat, ps: seq<nat>, stay: nat)
    requires NodeIsR(x) && NodeReadable(x) && OwnImage(x, strict, m, o, e, ps) && IsAtom(x.body)
    requires stay <= ps[AttrCount(x)] && ps[0] <= ps[AttrCount(x)]
    requires x.attr.Attributes? ==> stay == ps[AttrCount(x)]
    ensures DecodeBody(m, TypeCode(x.body), ps[AttrCount(x)], Declared(m, o) - (ps[AttrCount(x)] - ps[0]), stay)
         == Done(Sexp(NoAttributes, x.body), e)
  {
    hide AtomAt, AtomSize, DecodeBody, TypeCode, HeaderEnd, Declared, IsTagged;
    S4IsEmpty(x.body);
    AtomIsDecoded(x.body, m, ps[AttrCount(x)], Declared(m, o) - (ps[AttrCount(x)] - ps[0]), stay);
  }

  lemma S4IsEmpty(b: Body)
    ensures b.S4? ==> AtomSize(b) == 0
  {
  }

  lemma {:induction false} VectorReadBack(x: Sexp, strict: bool, m: seq<byte>, o: nat, e: nat, ps: seq<nat>, stay: nat)
    requires IsR(x) && Readable(x) && ImageBy(x, strict, m, o, e, ps) && x.body.Vector?
    requires stay <= ps[AttrCount(x)] <= e
    ensures DecodeBody(m, TypeCode(x.body), ps[AttrCount(x)], Declared(m, o) - (ps[AttrCount(x)] - ps[0]), stay)
         == Done(Sexp(NoAttributes, x.body), e)
    decreases x, 0, |x.body.elems| + 1
  {
    hide AtomAt, AtomSize, IsR, Readable, DecodeElems, HeaderEnd, Declared, Slot;
    ContainerEmpty(x.body);
    ElemsReadBack(x, strict, m, o, e, ps, 0);
    assert x.body.elems[..0] == [];
    if |x.body.elems| > 0 {
      Ordered(x, strict, m, o, e, ps, AttrCount(x), LastEntry(x));
    }
  }

  lemma {:induction false} PairsReadBack(x: Sexp, strict: bool, m: seq<byte>, o: nat, e: nat, ps: seq<nat>, stay: nat)
    requires IsR(x) && Readable(x) && ImageBy(x, strict, m, o, e, ps) && x.body.Pairs?
    requires stay <= ps[AttrCount(x)] <= e
    ensures DecodeBody(m, TypeCode(x.body), ps[AttrCount(x)], Declared(m, o) - (ps[AttrCount(x)] - ps[0]), stay)
         == Done(Sexp(NoAttributes, x.body), e)
    decreases x, 0, |x.body.cells| + 1
  {
    hide AtomAt, AtomSize, IsR, Readable, DecodeCells, HeaderEnd, Declared, Slot, IsTagged;
    Unfold(x);
    ContainerEmpty(x.body);
    CellsReadBack(x, strict, m, o, e, ps, 0);
    assert x.body.cells[..0] == [];
    Ordered(x, strict, m, o, e, ps, AttrCount(x), LastEntry(x));
  }

  lemma ContainerEmpty(b: Body)
    requires IsContainer(b)
    ensures AtomSize(b) == 0
  {
  }

  lemma AtomIsDecoded(b: Body, m: seq<byte>, a: nat, ln: int, stay: nat)
    requires IsAtom(b) && NodeIsR(Sexp(NoAttributes, b))
    requires stay <= a && a + AtomSize(b) <= |m| && AtomAt(b, m, a)
    requires a + ln >= 0 && (ln == AtomSize(b) || b.Logicals? || b.S4?)
    ensures DecodeBody(m, TypeCode(b), a, ln, stay)
         == Done(Sexp(NoAttributes, b), if b.S4? then stay else a + AtomSize(b))
  {
    hide AtomAt, AtomSize, DecodeAtom;
    AtomReadBack(b, m, a, ln, stay);
  }

  /** The boundaries increase. */
  lemma {:induction false} Ordered(x: Sexp, strict: bool, m: seq<byte>, o: nat, e: nat, ps: seq<nat>, i: nat, j: nat)
    requires ImageBy(x, strict, m, o, e, ps) && i <= j <= KidCount(x)
    ensures ps[i] <= ps[j] <= e
    ensures i < j ==> ps[i] < ps[j]
    decreases KidCount(x) - i
  {
    hide AtomAt, AtomSize, Slot, SlotCount, Image, HeaderEnd, Declared, TypeCode;
    if i < j {
      Ordered(x, strict, m, o, e, ps, i + 1, j);
    } else if i < KidCount(x) {
      Ordered(x, strict, m, o, e, ps, i + 1, KidCount(x));
    }
  }

  /** Image only speaks of the bytes from o to e. */
  lemma {:induction false} ImageFrame(x: Sexp, strict: bool, m: seq<byte>, m': seq<byte>, o: nat, e: nat)
    requires Image(x, strict, m, o, e) && SameOn(m, m', o, e)
    ensures Image(x, strict, m', o, e)
    decreases x
  {
    hide AtomAt, AtomSize, Slot, SlotCount, TypeCode, OwnImage;
    var ps :| ImageBy(x, strict, m, o, e, ps);
    OwnImageFrame(x, strict, m, m', o, e, ps);
    Starts(x, strict, m, o, e, ps);
    forall k | 0 <= k < KidCount(x)
      ensures ps[k] < ps[k + 1] && Image(Kid(x, k), strict, m', ps[k], ps[k + 1])
    {
      Ordered(x, strict, m, o, e, ps, 0, k);
      Ordered(x, strict, m, o, e, ps, k + 1, KidCount(x));
      ImageFrame(Kid(x, k), strict, m, m', ps[k], ps[k + 1]);
    }
    assert ImageBy(x, strict, m', o, e, ps);
  }

  lemma Starts(x: Sexp, strict: bool, m: seq<byte>, o: nat, e: nat, ps: seq<nat>)
    requires OwnImage(x, strict, m, o, e, ps)
    ensures |ps| == KidCount(x) + 1 && o + 4 <= ps[0] && ps[KidCount(x)] + AtomSize(x.body) == e <= |m|
  {
    hide AtomAt, AtomSize, Slot, SlotCount, TypeCode;
  }

  lemma OwnImageFrame(x: Sexp, strict: bool, m: seq<byte>, m': seq<byte>, o: nat, e: nat, ps: seq<nat>)
    requires ImageBy(x, strict, m, o, e, ps) && SameOn(m, m', o, e)
    ensures OwnImage(x, strict, m', o, e, ps)
  {
    hide AtomAt, AtomSize, Slot, SlotCount, TypeCode, Image;
    Ordered(x, strict, m, o, e, ps, 0, KidCount(x));
    AtomFrame(x.body, m, m', ps[KidCount(x)]);
    assert WordAt(m', o) == WordAt(m, o);
    if IS_LARGE(PAR_TYPE(WordAt(m, o))) {
      assert WordAt(m', o + 4) == WordAt(m, o + 4);
    }
  }

  lemma {:induction false} ElemsReadBack(x: Sexp, strict: bool, m: seq<byte>, o: nat, e: nat, ps: seq<nat>, i: nat)
    requires IsR(x) && Readable(x) && ImageBy(x, strict, m, o, e, ps)
    requires x.body.Vector? && i <= |x.body.elems|
    ensures ps[AttrCount(x) + i] <= |m|
    ensures DecodeElems(m, ps[AttrCount(x) + i], ps[0] + Declared(m, o), x.body.elems[..i])
         == Finished(x.body.elems, e)
    decreases x, 0, |x.body.elems| - i
  {
    hide AtomAt, AtomSize, IsR, Readable, Declared, HeaderEnd, HeaderThere, TypeCode, DecodeAt, DecodeElems, Image,
      ImageBy, NodeIsR, NodeReadable, Slot, LastEntry;
    Unfold(x);
    var elems, k := x.body.elems, AttrCount(x) + i;
    Ordered(x, strict, m, o, e, ps, k, KidCount(x));
    HasBody(x, strict, m, o, e, ps);
    if i == |elems| {
      assert elems[..i] == elems;
      AtEnd(x, strict, m, o, e, ps);
      ElemsEnd(m, ps[k], ps[0] + Declared(m, o), elems);
    } else {
      Spans(x, strict, m, o, e, ps);
      LastElem(x);
      Ordered(x, strict, m, o, e, ps, k, LastEntry(x));
      KidImage(x, strict, m, o, e, ps, k);
      assert Kid(x, k) == elems[i] by { ElemIsKid(x, i); }
      ReadBack(elems[i], strict, m, ps[k], ps[k + 1]);
      ElemsReadBack(x, strict, m, o, e, ps, i + 1);
      assert elems[..i] + [elems[i]] == elems[..i + 1];
      ElemsTurn(m, ps[k], ps[0] + Declared(m, o), elems[..i], elems[i], ps[k + 1]);
    }
  }

  lemma ElemIsKid(x: Sexp, i: nat)
    requires x.body.Vector? && i < |x.body.elems|
    ensures AttrCount(x) + i < KidCount(x) && Kid(x, AttrCount(x) + i) == x.body.elems[i]
  {
  }

  lemma ElemCount(x: Sexp)
    requires x.body.Vector?
    ensures KidCount(x) == AttrCount(x) + |x.body.elems|
  {
  }

  lemma LastElem(x: Sexp)
    requires x.body.Vector? && |x.body.elems| > 0
    ensures SlotCount(x.body) > 0 && LastEntry(x) == AttrCount(x) + |x.body.elems| - 1 == KidCount(x) - 1
  {
  }

  /** Behind the last entry of a list or vector, the declared end is reached. */
  lemma AtEnd(x: Sexp, strict: bool, m: seq<byte>, o: nat, e: nat, ps: seq<nat>)
    requires ImageBy(x, strict, m, o, e, ps) && IsContainer(x.body)
    ensures |ps| == KidCount(x) + 1 && HeaderThere(m, o) && ps[0] + Declared(m, o) <= ps[KidCount(x)] == e <= |m|
  {
    hide AtomAt, AtomSize, Slot, SlotCount, TypeCode, HeaderEnd, Declared, IsTagged, Image, LastEntry;
    ContainerEmpty(x.body);
  }

  lemma ElemsEnd(m: seq<byte>, cur: nat, ie: nat, acc: seq<Sexp>)
    requires ie <= cur <= |m|
    ensures DecodeElems(m, cur, ie, acc) == Finished(acc, cur)
  {
  }

  /** One turn of the loop over the elements of a vector. */
  lemma ElemsTurn(m: seq<byte>, cur: nat, ie: nat, acc: seq<Sexp>, v: Sexp, next: nat)
    requires cur < ie && cur < next <= |m| && DecodeAt(m, cur) == Done(v, next)
    ensures DecodeElems(m, cur, ie, acc) == DecodeElems(m, next, ie, acc + [v])
  {
    hide DecodeAt;
  }

  /** The declared length of a list or vector makes the reader read all entries and stop. */
  lemma Spans(x: Sexp, strict: bool, m: seq<byte>, o: nat, e: nat, ps: seq<nat>)
    requires ImageBy(x, strict, m, o, e, ps) && IsContainer(x.body) && SlotCount(x.body) > 0
    ensures |ps| == KidCount(x) + 1 && HeaderThere(m, o) && ps[KidCount(x)] == e <= |m|
    ensures ps[LastEntry(x)] < ps[0] + Declared(m, o) <= e
  {
    hide AtomAt, AtomSize, Slot, SlotCount, TypeCode, HeaderEnd, Declared, IsTagged, Image;
    ContainerEmpty(x.body);
    Ordered(x, strict, m, o, e, ps, LastEntry(x), KidCount(x));
  }

  lemma KidImage(x: Sexp, strict: bool, m: seq<byte>, o: nat, e: nat, ps: seq<nat>, k: nat)
    requires ImageBy(x, strict, m, o, e, ps) && k < KidCount(x)
    ensures |ps| == KidCount(x) + 1 && ps[k] < ps[k + 1] && Image(Kid(x, k), strict, m, ps[k], ps[k + 1])
  {
    hide AtomAt, AtomSize, Slot, SlotCount, TypeCode, HeaderEnd, Declared, IsTagged, Image;
  }

  lemma {:induction false} CellsReadBack(x: Sexp, strict: bool, m: seq<byte>, o: nat, e: nat, ps: seq<nat>, i: nat)
    requires IsR(x) && Readable(x) && ImageBy(x, strict, m, o, e, ps)
    requires x.body.Pairs? && |x.body.cells| > 0 && i <= |x.body.cells|
    ensures |ps| == KidCount(x) + 1 && HeaderThere(m, o)
    ensures var cells := x.body.cells;
      var at := AttrCount(x) + if IsTagged(cells) then 2 * i else i;
      && ps[at] <= |m|
      && DecodeCells(m, IsTagged(cells), ps[at], ps[0] + Declared(m, o), cells[..i]) == Finished(cells, e)
    decreases x, 0, |x.body.cells| - i
  {
    hide AtomAt, AtomSize, IsR, Readable, Declared, HeaderEnd, TypeCode, DecodeAt, IsTagged, Slot, Image, ImageBy,
      DecodeCells,
      NodeIsR, NodeReadable;
    Spans(x, strict, m, o, e, ps);
    var cells := x.body.cells;
    var tagged := IsTagged(cells);
    var k := AttrCount(x) + if tagged then 2 * i else i;
    if i == |cells| {
      assert cells[..i] == cells;
      CellsEnd(m, tagged, ps[k], ps[0] + Declared(m, o), cells);
    } else {
      Ordered(x, strict, m, o, e, ps, k, LastEntry(x));
      CellIsKid(x, i);
      Unfold(x);
      KidImage(x, strict, m, o, e, ps, k);
      ReadBack(cells[i].car, strict, m, ps[k], ps[k + 1]);
      if tagged {
        KidImage(x, strict, m, o, e, ps, k + 1);
        ReadBack(cells[i].tag, strict, m, ps[k + 1], ps[k + 2]);
      }
      CellsReadBack(x, strict, m, o, e, ps, i + 1);
      assert cells[..i] + [cells[i]] == cells[..i + 1];
      CellsTurn(m, tagged, ps[k], ps[0] + Declared(m, o), cells[..i], cells[i], ps[k + if tagged then 2 else 1]);
    }
  }

  lemma CellsEnd(m: seq<byte>, tagged: bool, cur: nat, ie: nat, acc: seq<Cell>)
    requires ie <= cur <= |m|
    ensures DecodeCells(m, tagged, cur, ie, acc) == Finished(acc, cur)
  {
  }

  /** One turn of the loop over cells. */
  lemma CellsTurn(m: seq<byte>, tagged: bool, cur: nat, ie: nat, acc: seq<Cell>, c: Cell, next: nat)
    requires cur < ie && cur < next <= |m|
    requires var el := DecodeAt(m, cur);
      && el.Done? && el.value == c.car
      && if tagged then DecodeAt(m, el.next) == Done(c.tag, next) else c.tag == NIL && el.next == next
    ensures DecodeCells(m, tagged, cur, ie, acc) == DecodeCells(m, tagged, next, ie, acc + [c])
  {
    hide DecodeAt;
    assert c == Cell(c.car, c.tag);
  }

  lemma CellIsKid(x: Sexp, i: nat)
    requires x.body.Pairs? && i < |x.body.cells|
    ensures var cells := x.body.cells;
      && cells[i] == Cell(cells[i].car, cells[i].tag)
      && (IsTagged(cells) ==> Kid(x, AttrCount(x) + 2 * i) == cells[i].car
                              && Kid(x, AttrCount(x) + 2 * i + 1) == cells[i].tag)
      && (!IsTagged(cells) ==> Kid(x, AttrCount(x) + i) == cells[i].car && cells[i].tag == NIL)
  {
  }
}
