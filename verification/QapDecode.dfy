/** The C reader: decode_to_SEXP on a memory that ends where the received bytes end. */
module QapDecode {
  import opened Bytes
  import opened Rsrv
  import opened Sexps

  /** What one call of the reader does. Done gives the value and the offset of the cursor
      afterwards. Stuck: the element loop runs forever, its cursor standing still. Malformed:
      the bytes end inside the value, or R refuses it (a vector of negative length, an attribute
      list that is no pairlist). An attribute list that is longer than its value leaves a length
      that is negative as a pointer offset and wraps around as an unsigned number. */
  datatype Outcome = Done(value: Sexp, next: nat) | Stuck | Malformed

  /** The values read by an element loop, or why there are none. */
  datatype Loop<T> = Finished(items: seq<T>, next: nat) | Spins | Broken

  function ToOutcome<T>(l: Loop<T>): Outcome
    requires !l.Finished?
  {
    if l.Spins? then Stuck else Malformed
  }

  function ToLoop<T>(r: Outcome): (l: Loop<T>)
    requires !r.Done?
    ensures !l.Finished?
  {
    if r.Stuck? then Spins else Broken
  }

  function DoubleOf(m: seq<byte>, o: nat): Double
    requires o + 8 <= |m|
  {
    Double(WordAt(m, o), WordAt(m, o + 4))
  }

  function LogicalOf(b: byte): Logical
  {
    if b == 1 then True else if b == 0 then False else LogicalNA
  }

  /** The offset of the first NUL at or behind o, if there is one before the end. */
  function NulAfter(m: seq<byte>, o: nat): (n: nat)
    requires o <= |m|
    ensures o <= n <= |m|
    ensures forall i :: o <= i < n ==> m[i] != 0
    ensures n < |m| ==> m[n] == 0
    decreases |m| - o
  {
    if o == |m| || m[o] == 0 then o else NulAfter(m, o + 1)
  }

  /** The element that starts at cc and is terminated at c. */
  function ElementOf(m: seq<byte>, cc: nat, c: nat): RString
    requires cc <= c < |m| && m[c] == 0
  {
    if m[cc] == 0xff then
      (if m[cc + 1] == 0 then StringNA else Text(m[cc + 1..c]))
    else
      Text(m[cc..c])
  }

  /** The elements terminated in [c, sen), the first of them having started at cc. */
  function StringsOf(m: seq<byte>, cc: nat, c: nat, sen: nat): seq<RString>
    requires cc <= c <= sen <= |m|
    decreases sen - c
  {
    if c == sen then []
    else if m[c] != 0 then StringsOf(m, cc, c + 1, sen)
    else [ElementOf(m, cc, c)] + StringsOf(m, c + 1, c + 1, sen)
  }

  predicate IsPairType(ty: nat)
  {
    ty == XT_LIST_NOTAG || ty == XT_LIST_TAG || ty == XT_LANG_NOTAG || ty == XT_LANG_TAG
  }

  const WRAP := 0x1_0000_0000_0000_0000

  /** ln / size as an R_len_t, ln being an unsigned 64-bit number. */
  function Count(ln: int, size: nat): (l: int)
    requires size > 0
  {
    var n := ln % WRAP / size % 0x1_0000_0000;
    if n > MAX_INT32 then n - 0x1_0000_0000 else n
  }

  lemma CountIs(ln: nat, size: nat)
    requires size > 0 && ln < WRAP && ln / size <= MAX_INT32
    ensures Count(ln, size) == ln / size
  {
    assert ln % WRAP == ln;
    assert ln / size % 0x1_0000_0000 == ln / size;
  }

  /** The largest and the smallest count. */
  lemma CountLimits()
    ensures Count(0x1_ffff_fffc, 4) == 0x7fff_ffff && Count(0x2_0000_0000, 4) == -0x8000_0000
  {
  }

  /** What a wrapped length makes of 2^25 bytes or fewer is a negative count, which R refuses: minus
      the number of elements that hold them. */
  lemma CountNegative(k: int, size: nat)
    requires 0 < k <= 0x200_0000 && (size == 4 || size == 8 || size == 16)
    ensures Count(-k, size) == -((k + size - 1) / size) < 0
  {
    var d := (k + size - 1) / size;
    Quotients(k);
    Wrapped(-k, size, WRAP / 0x1_0000_0000 / size, d);
  }

  lemma Quotients(k: nat)
    requires 0 < k <= 0x200_0000
    ensures (WRAP - k) / 4 == 0x4000_0000 * 0x1_0000_0000 - (k + 3) / 4 && 0 < (k + 3) / 4 <= 0x200_0000
    ensures (WRAP - k) / 8 == 0x2000_0000 * 0x1_0000_0000 - (k + 7) / 8 && 0 < (k + 7) / 8 <= 0x200_0000
    ensures (WRAP - k) / 16 == 0x1000_0000 * 0x1_0000_0000 - (k + 15) / 16 && 0 < (k + 15) / 16 <= 0x200_0000
  {
  }

  lemma Wrapped(ln: int, size: nat, c: nat, d: nat)
    requires -WRAP < ln < 0 && size > 0 && c > 0
    requires (ln + WRAP) / size == c * 0x1_0000_0000 - d && 0 < d <= 0x200_0000
    ensures Count(ln, size) == -(d as int)
  {
    assert ln % WRAP == ln + WRAP;
    BelowMultiple(c, d, (ln + WRAP) / size);
  }

  lemma BelowMultiple(c: nat, d: nat, n: int)
    requires n == c * 0x1_0000_0000 - d && 0 < d <= 0x200_0000 && c > 0
    ensures n % 0x1_0000_0000 == 0x1_0000_0000 - d
  {
    assert n == (c - 1) * 0x1_0000_0000 + (0x1_0000_0000 - d);
  }

  /** The lowest offset at which the cursor may be left. */
  function Low(b: nat, ln: int, stay: nat): nat
    requires b + ln >= 0
  {
    if b + ln < stay then b + ln else stay
  }

  /** The data of a value whose type needs no element loop; ln is the declared length
      without the attributes and stay is where the shared cursor stands. */
  function DecodeAtom(m: seq<byte>, ty: nat, b: nat, ln: int, stay: nat): (r: Outcome)
    requires stay <= b <= |m| && b + ln >= 0
    ensures r.Done? ==> r.value.attr.NoAttributes? && Low(b, ln, stay) <= r.next <= |m|
    ensures r.Done? && r.next < b && ln >= 0 ==> r.value.body.S4?
  {
    if ty == XT_NULL then Done(NIL, b)
    else if ty == XT_S4 then Done(Sexp(NoAttributes, S4), stay)
    else if ty == XT_ARRAY_BOOL then
      if b + 4 > |m| || WordAt(m, b) > MAX_INT32 || b + 4 + Align(WordAt(m, b)) > |m| then Malformed
      else
        var vl := WordAt(m, b);
        Done(Sexp(NoAttributes, Logicals(seq(vl, i requires 0 <= i < vl => LogicalOf(m[b + 4 + i])))),
             b + 4 + Align(vl))
    else if b + ln > |m| then Malformed
    else if ty == XT_INT || ty == XT_ARRAY_INT then
      var l := Count(ln, 4);
      if l < 0 || b + 4 * l > |m| then Malformed
      else Done(Sexp(NoAttributes, Ints(seq(l, i requires 0 <= i < l => WordAt(m, b + 4 * i)))), b + 4 * l)
    else if ty == XT_DOUBLE || ty == XT_ARRAY_DOUBLE then
      var l := Count(ln, 8);
      if l < 0 || b + 8 * l > |m| then Malformed
      else Done(Sexp(NoAttributes, Reals(seq(l, i requires 0 <= i < l => DoubleOf(m, b + 8 * i)))), b + 8 * l)
    else if ty == XT_ARRAY_CPLX then
      var l := Count(ln, 16);
      if l < 0 || b + 16 * l > |m| then Malformed
      else Done(Sexp(NoAttributes, Complexes(seq(l, i requires 0 <= i < l =>
             Complex(DoubleOf(m, b + 16 * i), DoubleOf(m, b + 16 * i + 8))))), b + 16 * l)
    else if ty == XT_ARRAY_STR then
      Done(Sexp(NoAttributes, Strings(if ln < 0 then [] else StringsOf(m, b, b, b + ln))), b + ln)
    else if ty == XT_RAW then
      if b + 4 > |m| || WordAt(m, b) > MAX_INT32 || b + 4 + WordAt(m, b) > |m| then Malformed
      else Done(Sexp(NoAttributes, Raw(m[b + 4..b + 4 + WordAt(m, b)])), b + ln)
    else if ty == XT_STR || ty == XT_SYMNAME then
      var c := NulAfter(m, b);
      if c == |m| then Malformed
      else Done(Sexp(NoAttributes, if ty == XT_STR then CharString(m[b..c]) else Symbol(m[b..c])), b + ln)
    else Done(NIL, b + ln)
  }

  /** SET_ATTRIB(val, vatt). */
  function SetAttrib(r: Outcome, vatt: Sexp): Outcome
  {
    if !r.Done? || vatt.body.Null? then r
    else if !vatt.body.Pairs? || vatt.body.isCall || r.value.body.Null? then Malformed
    else Done(Sexp(Attributes(vatt), r.value.body), r.next)
  }

  /** decode_to_SEXP with the cursor at o. */
  function DecodeAt(m: seq<byte>, o: nat): (r: Outcome)
    requires o <= |m|
    ensures r.Done? ==> o <= r.next <= |m|
    decreases |m| - o, 0
  {
    if o + 4 > |m| then Malformed else
    var ty := PAR_TYPE(WordAt(m, o));
    var b := if IS_LARGE(ty) then o + 8 else o + 4;
    if b > |m| then Malformed else
    var ln := PAR_LEN(WordAt(m, o)) + if IS_LARGE(ty) then WordAt(m, o + 4) * LEN24 else 0;
    if HAS_ATTR(ty) then
      var a := DecodeAt(m, b);
      if !a.Done? then a
      else SetAttrib(DecodeBody(m, GET_XT(ty), a.next, ln - (a.next - b), a.next), a.value)
    else
      DecodeBody(m, GET_XT(ty), b, ln, o)
  }

  /** The switch over the type, behind the attributes. */
  function DecodeBody(m: seq<byte>, ty: nat, b: nat, ln: int, stay: nat): (r: Outcome)
    requires stay <= b <= |m| && b + ln >= 0
    ensures r.Done? ==> Low(b, ln, stay) <= r.next <= |m| && r.value.attr.NoAttributes?
    decreases |m| - b, 2
  {
    if ty == XT_VECTOR || ty == XT_VECTOR_EXP then
      if b + ln > |m| then Malformed else
      var l := DecodeElems(m, b, b + ln, []);
      if !l.Finished? then ToOutcome(l)
      else Done(Sexp(NoAttributes, Vector(ty == XT_VECTOR_EXP, l.items)), l.next)
    else if IsPairType(ty) then
      if b + ln > |m| then Malformed else
      var l := DecodeCells(m, ty == XT_LIST_TAG || ty == XT_LANG_TAG, b, b + ln, []);
      if !l.Finished? then ToOutcome(l)
      else if l.items == [] then Done(NIL, l.next)
      else Done(Sexp(NoAttributes, Pairs(ty == XT_LANG_NOTAG || ty == XT_LANG_TAG, l.items)), l.next)
    else
      DecodeAtom(m, ty, b, ln, stay)
  }

  /** The element loop of a vector: reads values until the cursor reaches ie. */
  function DecodeElems(m: seq<byte>, cur: nat, ie: nat, acc: seq<Sexp>): (l: Loop<Sexp>)
    requires cur <= |m|
    ensures l.Finished? ==> cur <= l.next <= |m| && acc <= l.items
    decreases |m| - cur, 1
  {
    if cur >= ie then Finished(acc, cur) else
    var r := DecodeAt(m, cur);
    if !r.Done? then ToLoop(r)
    else if r.next == cur then Spins
    else DecodeElems(m, r.next, ie, acc + [r.value])
  }

  /** The loop over the cells of a pairlist, each a value followed by its tag if tagged. */
  function DecodeCells(m: seq<byte>, tagged: bool, cur: nat, ie: nat, acc: seq<Cell>): (l: Loop<Cell>)
    requires cur <= |m|
    ensures l.Finished? ==> cur <= l.next <= |m| && acc <= l.items
    decreases |m| - cur, 1
  {
    if cur >= ie then Finished(acc, cur) else
    var el := DecodeAt(m, cur);
    if !el.Done? then ToLoop(el) else
    var ea := if tagged then DecodeAt(m, el.next) else Done(NIL, el.next);
    if !ea.Done? then ToLoop(ea)
    else if ea.next == cur then Spins
    else DecodeCells(m, tagged, ea.next, ie, acc + [Cell(el.value, ea.value)])
  }

  // ---- the reader itself ----

  /** The shared position `*buf` that every nested call advances. */
  class Cursor {
    var at: nat

    constructor (o: nat)
      ensures at == o
    {
      at := o;
    }
  }

  datatype Status = Fine | Loops | Fails

  /** The call returned what the specification says, cursor included. */
  ghost predicate Agrees(r: Outcome, st: Status, val: Sexp, at: nat)
  {
    match r
    case Done(v, n) => st.Fine? && val == v && at == n
    case Stuck => st.Loops?
    case Malformed => st.Fails?
  }

  method ReadInts(m: seq<byte>, b: nat, l: nat) returns (val: Body)
    requires b + 4 * l <= |m|
    ensures val == Ints(seq(l, i requires 0 <= i < l => WordAt(m, b + 4 * i)))
  {
    var a := new word[l];
    for i := 0 to l
      invariant forall j :: 0 <= j < i ==> a[j] == WordAt(m, b + 4 * j)
    {
      a[i] := WordAt(m, b + 4 * i);
    }
    val := Ints(a[..]);
    assert a[..] == seq(l, i requires 0 <= i < l => WordAt(m, b + 4 * i));
  }

  method ReadReals(m: seq<byte>, b: nat, l: nat) returns (val: Body)
    requires b + 8 * l <= |m|
    ensures val == Reals(seq(l, i requires 0 <= i < l => DoubleOf(m, b + 8 * i)))
  {
    var a := new Double[l](_ => Double(0, 0));
    for i := 0 to l
      invariant forall j :: 0 <= j < i ==> a[j] == DoubleOf(m, b + 8 * j)
    {
      a[i] := DoubleOf(m, b + 8 * i);
    }
    val := Reals(a[..]);
    assert a[..] == seq(l, i requires 0 <= i < l => DoubleOf(m, b + 8 * i));
  }

  method ReadComplexes(m: seq<byte>, b: nat, l: nat) returns (val: Body)
    requires b + 16 * l <= |m|
    ensures val == Complexes(seq(l, i requires 0 <= i < l =>
      Complex(DoubleOf(m, b + 16 * i), DoubleOf(m, b + 16 * i + 8))))
  {
    var zero := Double(0, 0);
    var a := new Complex[l](_ => Complex(zero, zero));
    for i := 0 to l
      invariant forall j :: 0 <= j < i ==> a[j] == Complex(DoubleOf(m, b + 16 * j), DoubleOf(m, b + 16 * j + 8))
    {
      a[i] := Complex(DoubleOf(m, b + 16 * i), DoubleOf(m, b + 16 * i + 8));
    }
    val := Complexes(a[..]);
    assert a[..] == seq(l, i requires 0 <= i < l => Complex(DoubleOf(m, b + 16 * i), DoubleOf(m, b + 16 * i + 8)));
  }

  method ReadLogicals(m: seq<byte>, b: nat, vl: nat) returns (val: Body)
    requires b + vl <= |m|
    ensures val == Logicals(seq(vl, i requires 0 <= i < vl => LogicalOf(m[b + i])))
  {
    var a := new Logical[vl](_ => LogicalNA);
    for i := 0 to vl
      invariant forall j :: 0 <= j < i ==> a[j] == LogicalOf(m[b + j])
    {
      a[i] := LogicalOf(m[b + i]);
    }
    val := Logicals(a[..]);
    assert a[..] == seq(vl, i requires 0 <= i < vl => LogicalOf(m[b + i]));
  }

  /** Counts the NULs first, then cuts out the elements between them. */
  method ReadStrings(m: seq<byte>, b: nat, sen: nat) returns (val: Body)
    requires b <= sen <= |m|
    ensures val == Strings(StringsOf(m, b, b, sen))
  {
    ghost var all := StringsOf(m, b, b, sen);
    var i, c := 0, b;
    while c < sen
      invariant b <= c <= sen
      invariant i + Nuls(m, c, sen) == Nuls(m, b, sen)
    {
      if m[c] == 0 {
        i := i + 1;
      }
      c := c + 1;
    }
    ElementsAreNuls(m, b, b, sen);
    var a := new RString[i](_ => StringNA);
    i := 0;
    c := b;
    var cc := b;
    while c < sen
      invariant b <= cc <= c <= sen && i <= a.Length == |all|
      invariant a[..i] + StringsOf(m, cc, c, sen) == all
    {
      if m[c] == 0 {
        assert a[..i] + StringsOf(m, cc, c, sen) == a[..i] + [ElementOf(m, cc, c)] + StringsOf(m, c + 1, c + 1, sen);
        a[i] := ElementOf(m, cc, c);
        assert a[..i + 1] == a[..i] + [ElementOf(m, cc, c)];
        i := i + 1;
        cc := c + 1;
      }
      c := c + 1;
    }
    assert a[..] == a[..i];
    val := Strings(a[..]);
  }

  function Nuls(m: seq<byte>, c: nat, sen: nat): nat
    requires c <= sen <= |m|
    decreases sen - c
  {
    if c == sen then 0 else (if m[c] == 0 then 1 else 0) + Nuls(m, c + 1, sen)
  }

  /** There are as many elements as NULs, wherever the current element began. */
  lemma {:induction false} ElementsAreNuls(m: seq<byte>, cc: nat, c: nat, sen: nat)
    requires cc <= c <= sen <= |m|
    ensures |StringsOf(m, cc, c, sen)| == Nuls(m, c, sen)
    decreases sen - c
  {
    if c < sen {
      ElementsAreNuls(m, if m[c] == 0 then c + 1 else cc, c + 1, sen);
    }
  }

  /** Reads the data of a value that needs no element loop. */
  method ReadAtom(m: seq<byte>, ty: nat, b: nat, ln: int, buf: Cursor) returns (st: Status, val: Sexp)
    requires buf.at <= b <= |m| && b + ln >= 0
    modifies buf
    ensures Agrees(DecodeAtom(m, ty, b, ln, old(buf.at)), st, val, buf.at)
  {
    st, val := Fine, NIL;
    if ty == XT_NULL {
      buf.at := b;
    } else if ty == XT_S4 {
      val := Sexp(NoAttributes, S4);
    } else if ty == XT_ARRAY_BOOL {
      if b + 4 > |m| || WordAt(m, b) > MAX_INT32 || b + 4 + Align(WordAt(m, b)) > |m| {
        return Fails, NIL;
      }
      var vl := WordAt(m, b);
      var v := ReadLogicals(m, b + 4, vl);
      val := Sexp(NoAttributes, v);
      buf.at := b + 4 + Align(vl);
    } else if b + ln > |m| {
      st := Fails;
    } else if ty == XT_INT || ty == XT_ARRAY_INT {
      var l := Count(ln, 4);
      if l < 0 || b + 4 * l > |m| {
        return Fails, NIL;
      }
      var v := ReadInts(m, b, l);
      val := Sexp(NoAttributes, v);
      buf.at := b + 4 * l;
    } else if ty == XT_DOUBLE || ty == XT_ARRAY_DOUBLE {
      var l := Count(ln, 8);
      if l < 0 || b + 8 * l > |m| {
        return Fails, NIL;
      }
      var v := ReadReals(m, b, l);
      val := Sexp(NoAttributes, v);
      buf.at := b + 8 * l;
    } else if ty == XT_ARRAY_CPLX {
      var l := Count(ln, 16);
      if l < 0 || b + 16 * l > |m| {
        return Fails, NIL;
      }
      var v := ReadComplexes(m, b, l);
      val := Sexp(NoAttributes, v);
      buf.at := b + 16 * l;
    } else if ty == XT_ARRAY_STR {
      var v := Strings([]);
      if ln >= 0 {
        v := ReadStrings(m, b, b + ln);
      }
      val := Sexp(NoAttributes, v);
      buf.at := b + ln;
    } else if ty == XT_RAW {
      if b + 4 > |m| || WordAt(m, b) > MAX_INT32 || b + 4 + WordAt(m, b) > |m| {
        return Fails, NIL;
      }
      val := Sexp(NoAttributes, Raw(m[b + 4..b + 4 + WordAt(m, b)]));
      buf.at := b + ln;
    } else if ty == XT_STR || ty == XT_SYMNAME {
      var c := NulAfter(m, b);
      if c == |m| {
        return Fails, NIL;
      }
      val := Sexp(NoAttributes, if ty == XT_STR then CharString(m[b..c]) else Symbol(m[b..c]));
      buf.at := b + ln;
    } else {
      buf.at := b + ln;
    }
  }

  /** decode_to_SEXP. Where the original would loop forever the call returns Loops. */
  method Decode(m: seq<byte>, buf: Cursor) returns (st: Status, val: Sexp)
    requires buf.at <= |m|
    modifies buf
    ensures Agrees(DecodeAt(m, old(buf.at)), st, val, buf.at)
    decreases |m| - buf.at, 0
  {
    hide DecodeBody;
    ghost var o := buf.at;
    var b := buf.at;
    if b + 4 > |m| {
      return Fails, NIL;
    }
    var ty := PAR_TYPE(WordAt(m, b));
    var ln := PAR_LEN(WordAt(m, b));
    if IS_LARGE(ty) {
      b := b + 4;
      if b + 4 > |m| {
        return Fails, NIL;
      }
      ln := ln + WordAt(m, b) * LEN24;
    }
    b := b + 4;
    if HAS_ATTR(ty) {
      st, val := DecodeWithAttributes(m, GET_XT(ty), b, ln, buf);
    } else {
      st, val := DecodeData(m, GET_XT(ty), b, ln, buf);
    }
  }

  /** What DecodeAt gives for a value with attributes, its header ending at pab. */
  function Attributed(m: seq<byte>, ty: nat, pab: nat, ln: nat): Outcome
    requires pab <= |m|
  {
    var a := DecodeAt(m, pab);
    if !a.Done? then a
    else SetAttrib(DecodeBody(m, ty, a.next, ln - (a.next - pab), a.next), a.value)
  }

  /** Reads the attributes, takes them off the length, reads the data and puts both together. */
  method DecodeWithAttributes(m: seq<byte>, ty: nat, pab: nat, declared: nat, buf: Cursor)
    returns (st: Status, val: Sexp)
    requires buf.at <= pab <= |m|
    modifies buf
    ensures Agrees(Attributed(m, ty, pab, declared), st, val, buf.at)
    decreases |m| - pab, 3
  {
    hide DecodeAt, DecodeBody;
    buf.at := pab;
    var vatt;
    st, vatt := Decode(m, buf);
    if !st.Fine? {
      return st, NIL;
    }
    var b := buf.at;
    var ln := declared - (b - pab);
    st, val := DecodeData(m, ty, b, ln, buf);
    if st.Fine? && !vatt.body.Null? {
      if !vatt.body.Pairs? || vatt.body.isCall || val.body.Null? {
        return Fails, NIL;
      }
      val := Sexp(Attributes(vatt), val.body);
    }
  }

  method DecodeData(m: seq<byte>, ty: nat, b: nat, ln: int, buf: Cursor) returns (st: Status, val: Sexp)
    requires buf.at <= b <= |m| && b + ln >= 0
    modifies buf
    ensures Agrees(DecodeBody(m, ty, b, ln, old(buf.at)), st, val, buf.at)
    decreases |m| - b, 2
  {
    if ty == XT_VECTOR || ty == XT_VECTOR_EXP {
      if b + ln > |m| {
        return Fails, NIL;
      }
      buf.at := b;
      var elems;
      st, elems := DecodeVector(m, b + ln, buf);
      val := Sexp(NoAttributes, Vector(ty == XT_VECTOR_EXP, elems));
    } else if IsPairType(ty) {
      if b + ln > |m| {
        return Fails, NIL;
      }
      buf.at := b;
      var cells;
      st, cells := DecodePairs(m, ty == XT_LIST_TAG || ty == XT_LANG_TAG, b + ln, buf);
      val := if cells == [] then NIL
             else Sexp(NoAttributes, Pairs(ty == XT_LANG_NOTAG || ty == XT_LANG_TAG, cells));
    } else {
      st, val := ReadAtom(m, ty, b, ln, buf);
    }
  }

  ghost predicate LoopAgrees<T>(l: Loop<T>, st: Status, items: seq<T>, at: nat)
  {
    match l
    case Finished(v, n) => st.Fine? && items == v && at == n
    case Spins => st.Loops?
    case Broken => st.Fails?
  }

  /** Conses the elements onto a list while reading, then fills the vector from its end. */
  method DecodeVector(m: seq<byte>, ie: nat, buf: Cursor) returns (st: Status, elems: seq<Sexp>)
    requires buf.at <= |m|
    modifies buf
    ensures LoopAgrees(DecodeElems(m, old(buf.at), ie, []), st, elems, buf.at)
    decreases |m| - buf.at, 1
  {
    var lh: seq<Sexp> := [];
    var n := 0;
    ghost var start, acc := buf.at, [];
    while buf.at < ie
      invariant start <= buf.at <= |m|
      invariant DecodeElems(m, buf.at, ie, acc) == DecodeElems(m, start, ie, [])
      invariant n == |lh| == |acc| && forall i :: 0 <= i < n ==> lh[i] == acc[n - 1 - i]
      decreases |m| - buf.at
    {
      var cur := buf.at;
      var v;
      st, v := Decode(m, buf);
      if !st.Fine? {
        return st, [];
      }
      if buf.at == cur {
        return Loops, [];
      }
      lh, n := [v] + lh, n + 1;
      acc := acc + [v];
    }
    elems := FillBackwards(lh, acc);
    st := Fine;
  }

  /** A vector filled from its end with the consed elements. */
  method FillBackwards(consed: seq<Sexp>, ghost acc: seq<Sexp>) returns (elems: seq<Sexp>)
    requires |consed| == |acc| && forall i :: 0 <= i < |acc| ==> consed[i] == acc[|acc| - 1 - i]
    ensures elems == acc
  {
    var lh, n := consed, |consed|;
    var val := new Sexp[n](_ => NIL);
    while n > 0
      invariant 0 <= n <= val.Length == |acc| && |lh| == n
      invariant forall i :: 0 <= i < n ==> lh[i] == acc[n - 1 - i]
      invariant forall i :: n <= i < val.Length ==> val[i] == acc[i]
    {
      n := n - 1;
      val[n] := lh[0];
      lh := lh[1..];
    }
    elems := val[..];
  }

  /** Appends each cell behind the last one. */
  method DecodePairs(m: seq<byte>, tagged: bool, ie: nat, buf: Cursor) returns (st: Status, cells: seq<Cell>)
    requires buf.at <= |m|
    modifies buf
    ensures LoopAgrees(DecodeCells(m, tagged, old(buf.at), ie, []), st, cells, buf.at)
    decreases |m| - buf.at, 1
  {
    cells := [];
    ghost var start := buf.at;
    while buf.at < ie
      invariant start <= buf.at <= |m|
      invariant DecodeCells(m, tagged, buf.at, ie, cells) == DecodeCells(m, tagged, start, ie, [])
      decreases |m| - buf.at
    {
      var cur := buf.at;
      var el;
      st, el := Decode(m, buf);
      if !st.Fine? {
        return st, [];
      }
      var ea := NIL;
      if tagged {
        st, ea := Decode(m, buf);
        if !st.Fine? {
          return st, [];
        }
      }
      if buf.at == cur {
        return Loops, [];
      }
      cells := cells + [Cell(el, ea)];
    }
    st := Fine;
  }
}
