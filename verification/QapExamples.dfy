/** Small values as the serialiser stores them, byte by byte: the type codes of Rsrv.h. */
module QapExamples {
  import opened Bytes
  import opened Sexps
  import opened Sums
  import opened QapLayout
  import QapSizes

  function Bare(b: Body): Sexp { Sexp(NoAttributes, b) }

  /** m holds the bytes b at offset o. */
  predicate HasBytes(m: seq<byte>, o: nat, b: seq<byte>)
  {
    o + |b| <= |m| && m[o..o + |b|] == b
  }

  lemma WordHas(m: seq<byte>, o: nat, w: word, b0: byte, b1: byte, b2: byte, b3: byte)
    requires o + 4 <= |m| && WordAt(m, o) == w
    requires w == b0 as int + 0x100 * b1 as int + 0x1_0000 * b2 as int + 0x100_0000 * b3 as int
    ensures HasBytes(m, o, [b0, b1, b2, b3])
  {
    hide WordAt;
    WordDigits(w, m[o], m[o + 1], m[o + 2], m[o + 3]) by { SpelledWord(m, o); }
    WordDigits(w, b0, b1, b2, b3);
    assert m[o..o + 4] == [m[o], m[o + 1], m[o + 2], m[o + 3]];
  }

  lemma SpelledWord(m: seq<byte>, o: nat)
    requires o + 4 <= |m|
    ensures WordAt(m, o)
         == m[o] as int + 0x100 * m[o + 1] as int + 0x1_0000 * m[o + 2] as int + 0x100_0000 * m[o + 3] as int
  {
  }

  /** A short header with a length below 256, and the values in it. */
  lemma Head(x: Sexp, ss: nat, m: seq<byte>, o: nat, ty: byte, len: byte)
    requires Stored(x, ss, m, o) && HeadSize(x, ss) == 4 && TypeByte(x) == ty && Payload(x) == len
    ensures HasBytes(m, o, [ty, len, 0, 0])
    ensures forall k :: 0 <= k < KidCount(x) ==> Stored(Kid(x, k), Storage(Kid(x, k)), m, o + 4 + KidOffset(x, k))
  {
    hide WordAt, Payload, AtomAt, PaddedAt, HeadSize, TypeByte, KidOffset, Storage, Slot, SlotCount;
    assert o + SizeAs(x, ss) <= |m| && HeaderStored(x, ss, m, o);
    WordHas(m, o, len * 0x100 + ty, ty, len, 0, 0);
  }

  /** A short header and the payload of a value without parts, for types and lengths below 256. */
  lemma Spelled(b: Body, ss: nat, m: seq<byte>, o: nat, ty: byte, len: byte)
    requires Stored(Bare(b), ss, m, o) && HeadSize(Bare(b), ss) == 4
    requires SlotCount(b) == 0 && TypeCode(b) == ty && AtomSize(b) == len
    ensures HasBytes(m, o, [ty, len, 0, 0]) && o + 4 + AtomSize(b) <= |m|
    ensures AtomAt(b, m, o + 4) && PaddedAt(b, m, o + 4)
  {
    hide WordAt, TypeCode, AtomSize, AtomAt, PaddedAt, Slot, SlotCount, HasBytes;
    assert KidOffset(Bare(b), 0) == 0;
    Head(Bare(b), ss, m, o, ty, len);
  }

  lemma EscapedSpelled()
    ensures EscapedAll([Text([0x61]), StringNA, Text([])], 3) == [0x61, 0, 0xff, 0, 0]
  {
    var s := [Text([0x61]), StringNA, Text([])];
    assert EscapedAll(s, 1) == [] + [0x61, 0] && EscapedAll(s, 2) == EscapedAll(s, 1) + [0xff, 0];
  }

  /** 7L */
  lemma StoredInt(m: seq<byte>, o: nat)
    requires Stored(Bare(Ints([7])), 8, m, o)
    ensures HasBytes(m, o, [32, 4, 0, 0]) && HasBytes(m, o + 4, [7, 0, 0, 0])
  {
    hide WordAt, Stored, Escaped, EscapedAll;
    var s: seq<word> := [7];
    Spelled(Ints(s), 8, m, o, 32, 4);
    assert s[0] == 7;
    WordHas(m, o + 4, 7, 7, 0, 0, 0);
  }

  /** 1.0 */
  lemma StoredReal(m: seq<byte>, o: nat)
    requires Stored(Bare(Reals([Double(0, 0x3ff0_0000)])), 12, m, o)
    ensures HasBytes(m, o, [33, 8, 0, 0]) && HasBytes(m, o + 4, [0, 0, 0, 0]) && HasBytes(m, o + 8, [0, 0, 0xf0, 0x3f])
  {
    hide WordAt, Stored, Escaped, EscapedAll;
    var s := [Double(0, 0x3ff0_0000)];
    Spelled(Reals(s), 12, m, o, 33, 8);
    assert s[0].hi == 0x3ff0_0000;
    WordHas(m, o + 4, 0, 0, 0, 0, 0);
    WordHas(m, o + 8, 0x3ff0_0000, 0, 0, 0xf0, 0x3f);
  }

  /** 1.0+0i */
  lemma StoredComplex(m: seq<byte>, o: nat)
    requires Stored(Bare(Complexes([Complex(Double(0, 0x3ff0_0000), Double(0, 0))])), 20, m, o)
    ensures HasBytes(m, o, [38, 16, 0, 0]) && HasBytes(m, o + 4, [0, 0, 0, 0]) && HasBytes(m, o + 8, [0, 0, 0xf0, 0x3f])
    ensures HasBytes(m, o + 12, [0, 0, 0, 0]) && HasBytes(m, o + 16, [0, 0, 0, 0])
  {
    hide WordAt, Stored, Escaped, EscapedAll;
    var s := [Complex(Double(0, 0x3ff0_0000), Double(0, 0))];
    Spelled(Complexes(s), 20, m, o, 38, 16);
    assert s[0].re.hi == 0x3ff0_0000;
    WordHas(m, o + 4, 0, 0, 0, 0, 0);
    WordHas(m, o + 8, 0x3ff0_0000, 0, 0, 0xf0, 0x3f);
    WordHas(m, o + 12, 0, 0, 0, 0, 0);
    WordHas(m, o + 16, 0, 0, 0, 0, 0);
  }

  /** as.raw(5); the padding is what was there before */
  lemma StoredRaw(m: seq<byte>, o: nat)
    requires Stored(Bare(Raw([5])), 8, m, o)
    ensures HasBytes(m, o, [37, 8, 0, 0]) && HasBytes(m, o + 4, [1, 0, 0, 0]) && HasBytes(m, o + 8, [5])
  {
    hide WordAt, Stored, Escaped, EscapedAll;
    var s: seq<byte> := [5];
    Spelled(Raw(s), 8, m, o, 37, 8);
    WordHas(m, o + 4, 1, 1, 0, 0, 0);
    assert m[o + 8..o + 9] == s;
  }

  /** c(NA, TRUE, FALSE) */
  lemma StoredLogicals(m: seq<byte>, o: nat)
    requires Stored(Bare(Logicals([LogicalNA, True, False])), 12, m, o)
    ensures HasBytes(m, o, [36, 8, 0, 0]) && HasBytes(m, o + 4, [3, 0, 0, 0]) && HasBytes(m, o + 8, [2, 1, 0, 255])
  {
    hide WordAt, Stored, Escaped, EscapedAll;
    var s := [LogicalNA, True, False];
    Spelled(Logicals(s), 12, m, o, 36, 8);
    WordHas(m, o + 4, 3, 3, 0, 0, 0);
    assert s[0] == LogicalNA && s[1] == True && s[2] == False;
    assert m[o + 8 + 0] == 2 && m[o + 8 + 1] == 1 && m[o + 8 + 2] == 0 && m[o + 11] == 255;
    assert m[o + 8..o + 12] == [2, 1, 0, 255];
  }

  /** c("a", NA, "") and one byte of padding */
  lemma StoredStrings(m: seq<byte>, o: nat)
    requires Stored(Bare(Strings([Text([0x61]), StringNA, Text([])])), 28, m, o)
    ensures HasBytes(m, o, [34, 8, 0, 0]) && HasBytes(m, o + 4, [0x61, 0, 0xff, 0, 0, 1, 1, 1])
  {
    hide WordAt, Stored, Escaped, EscapedAll;
    var s := [Text([0x61]), StringNA, Text([])];
    EscapedSpelled();
    Spelled(Strings(s), 28, m, o, 34, 8);
    var e := EscapedAll(s, 3);
    assert m[o + 4..o + 9] == e;
    assert m[o + 9] == 1 && m[o + 10] == 1 && m[o + 11] == 1;
    assert m[o + 4..o + 12] == e + [1, 1, 1];
  }

  /** the name "abc" */
  lemma StoredSymbol(m: seq<byte>, o: nat)
    requires Stored(Bare(Symbol([0x61, 0x62, 0x63])), 8, m, o)
    ensures HasBytes(m, o, [19, 4, 0, 0]) && HasBytes(m, o + 4, [0x61, 0x62, 0x63, 0])
  {
    hide WordAt, Stored, Escaped, EscapedAll;
    var s: seq<byte> := [0x61, 0x62, 0x63];
    Spelled(Symbol(s), 8, m, o, 19, 4);
    assert m[o + 4..o + 7] == s && m[o + 7] == 0;
    assert m[o + 4..o + 8] == s + [0];
  }

  /** a single string, "a" */
  lemma StoredText(m: seq<byte>, o: nat)
    requires Stored(Bare(CharString([0x61])), 8, m, o)
    ensures HasBytes(m, o, [3, 4, 0, 0]) && HasBytes(m, o + 4, [0x61, 0, 0, 0])
  {
    hide WordAt, Stored, Escaped, EscapedAll;
    var s: seq<byte> := [0x61];
    Spelled(CharString(s), 8, m, o, 3, 4);
    assert m[o + 4..o + 5] == s && m[o + 5] == 0 && m[o + 6] == 0 && m[o + 7] == 0;
    assert m[o + 4..o + 8] == s + [0, 0, 0];
  }

  /** an external pointer (type 22), of which only the type is stored */
  lemma StoredOther(m: seq<byte>, o: nat)
    requires Stored(Bare(Other(22)), 8, m, o)
    ensures HasBytes(m, o, [48, 4, 0, 0]) && HasBytes(m, o + 4, [22, 0, 0, 0])
  {
    hide WordAt, Stored, Escaped, EscapedAll;
    Spelled(Other(22), 8, m, o, 48, 4);
    WordHas(m, o + 4, 22, 22, 0, 0, 0);
  }

  /** an S4 object without slots */
  lemma StoredEmpty(m: seq<byte>, o: nat)
    requires Stored(Bare(S4), 4, m, o)
    ensures HasBytes(m, o, [7, 0, 0, 0])
  {
    hide WordAt, Stored, Escaped, EscapedAll;
    Spelled(S4, 4, m, o, 7, 0);
  }

  // ---- values in values ----

  lemma StoredNull(ss: nat, m: seq<byte>, o: nat)
    requires Stored(NIL, ss, m, o)
    ensures HasBytes(m, o, [0, 0, 0, 0])
  {
    hide WordAt, Stored, AtomAt, PaddedAt;
    Spelled(Null, ss, m, o, 0, 0);
  }

  lemma OneKid(x: Sexp)
    requires KidCount(x) == 1
    ensures KidOffset(x, 0) == 0 && KidOffset(x, 1) == Size(Kid(x, 0))
  {
    hide Size, Kid;
    assert Sum(KidSizes(x), 1) == Sum(KidSizes(x), 0) + KidSizes(x)[0];
  }

  lemma TwoKids(x: Sexp)
    requires KidCount(x) == 2
    ensures KidOffset(x, 0) == 0 && KidOffset(x, 1) == Size(Kid(x, 0))
    ensures KidOffset(x, 2) == Size(Kid(x, 0)) + Size(Kid(x, 1))
  {
    hide Size, Kid;
    assert Sum(KidSizes(x), 2) == Sum(KidSizes(x), 1) + KidSizes(x)[1];
    assert Sum(KidSizes(x), 1) == Sum(KidSizes(x), 0) + KidSizes(x)[0];
  }

  /** list(NULL), expression(NULL), and the pairlist and the call that hold one NULL. */
  lemma StoredAround(b: Body, ss: nat, m: seq<byte>, o: nat)
    requires (b.Vector? && b.elems == [NIL]) || (b.Pairs? && b.cells == [Cell(NIL, NIL)])
    requires Stored(Bare(b), ss, m, o) && ss <= 0xff_fff0
    ensures var ty := if b.Vector? then (if b.isExpression then 26 else 16) else if b.isCall then 22 else 20;
      HasBytes(m, o, [ty, 4, 0, 0]) && HasBytes(m, o + 4, [0, 0, 0, 0])
  {
    hide WordAt, AtomAt, PaddedAt, Size, KidOffset;
    var x := Bare(b);
    NullSize();
    assert KidCount(x) == 1 && Kid(x, 0) == NIL;
    OneKid(x);
    Head(x, ss, m, o, TypeByte(x), 4);
    assert Stored(Kid(x, 0), Storage(NIL), m, o + 4 + KidOffset(x, 0));
    StoredNull(Storage(NIL), m, o + 4);
  }

  lemma NullSize()
    ensures Size(NIL) == 4
  {
  }

  /** The name "a". */
  const NAME := Bare(Symbol([0x61]))

  lemma NameSize()
    ensures Size(NAME) == 8 && IsTag(NAME) && NAME != NIL
  {
  }

  lemma StoredName(ss: nat, m: seq<byte>, o: nat)
    requires Stored(NAME, ss, m, o) && ss <= 0xff_fff0
    ensures HasBytes(m, o, [19, 4, 0, 0]) && HasBytes(m, o + 4, [0x61, 0, 0, 0])
  {
    hide WordAt, Stored;
    var s: seq<byte> := [0x61];
    Spelled(Symbol(s), ss, m, o, 19, 4);
    assert m[o + 4..o + 5] == s && m[o + 5] == 0 && m[o + 6] == 0 && m[o + 7] == 0;
    assert m[o + 4..o + 8] == s + [0, 0, 0];
  }

  /** The pairlist and the call with one NULL called "a". */
  lemma StoredTagged(isCall: bool, ss: nat, m: seq<byte>, o: nat)
    requires Stored(Bare(Pairs(isCall, [Cell(NIL, NAME)])), ss, m, o) && ss <= 0xff_fff0
    ensures HasBytes(m, o, [if isCall then 23 else 21, 12, 0, 0]) && HasBytes(m, o + 4, [0, 0, 0, 0])
    ensures HasBytes(m, o + 8, [19, 4, 0, 0]) && HasBytes(m, o + 12, [0x61, 0, 0, 0])
  {
    hide WordAt, AtomAt, PaddedAt, Size, KidOffset, Stored, Storage, HasBytes;
    var x := Bare(Pairs(isCall, [Cell(NIL, NAME)]));
    NullSize();
    NameSize();
    assert IsTagged(x.body.cells) by { assert x.body.cells[0].tag != NIL; }
    assert KidCount(x) == 2 && Kid(x, 0) == NIL && Kid(x, 1) == NAME;
    TwoKids(x);
    Head(x, ss, m, o, if isCall then 23 else 21, 12);
    assert Stored(Kid(x, 0), Storage(NIL), m, o + 4 + KidOffset(x, 0));
    assert Stored(Kid(x, 1), Storage(NAME), m, o + 4 + KidOffset(x, 1));
    StoredNull(Storage(NIL), m, o + 4);
    NameStorage();
    StoredName(Storage(NAME), m, o + 8);
  }

  lemma NameStorage()
    ensures Storage(NAME) == 8 == Storage(NIL)
  {
  }

  /** A closure of two NULLs. */
  lemma StoredClosure(ss: nat, m: seq<byte>, o: nat)
    requires Stored(Bare(Closure(NIL, NIL)), ss, m, o) && ss <= 0xff_fff0
    ensures HasBytes(m, o, [18, 8, 0, 0]) && HasBytes(m, o + 4, [0, 0, 0, 0]) && HasBytes(m, o + 8, [0, 0, 0, 0])
  {
    hide WordAt, AtomAt, PaddedAt, Size, KidOffset, Stored, Storage, HasBytes;
    var x := Bare(Closure(NIL, NIL));
    NullSize();
    assert KidCount(x) == 2 && Kid(x, 0) == NIL && Kid(x, 1) == NIL;
    TwoKids(x);
    Head(x, ss, m, o, 18, 8);
    assert Stored(Kid(x, 0), Storage(NIL), m, o + 4 + KidOffset(x, 0));
    assert Stored(Kid(x, 1), Storage(NIL), m, o + 4 + KidOffset(x, 1));
    StoredNull(Storage(NIL), m, o + 4);
    StoredNull(Storage(NIL), m, o + 8);
  }

  /** 7L with an attribute "a" that is NULL: the flag 128, the list and the data. */
  lemma StoredAttribute(ss: nat, m: seq<byte>, o: nat)
    requires Stored(Sexp(Attributes(Bare(Pairs(false, [Cell(NIL, NAME)]))), Ints([7])), ss, m, o) && ss <= 0xff_fff0
    ensures HasBytes(m, o, [128 + 32, 20, 0, 0]) && HasBytes(m, o + 4, [21, 12, 0, 0])
    ensures HasBytes(m, o + 20, [7, 0, 0, 0])
  {
    hide WordAt, Size, KidOffset, Stored, Storage, HasBytes;
    var l := Bare(Pairs(false, [Cell(NIL, NAME)]));
    var s: seq<word> := [7];
    var x := Sexp(Attributes(l), Ints(s));
    ListMeasured();
    assert KidCount(x) == 1 && Kid(x, 0) == l;
    OneKid(x);
    Head(x, ss, m, o, 160, 20);
    assert Stored(Kid(x, 0), Storage(l), m, o + 4 + KidOffset(x, 0));
    StoredTagged(false, Storage(l), m, o + 4);
    OwnAtom(x, ss, m, o);
    assert s[0] == 7;
    WordHas(m, o + 20, 7, 7, 0, 0, 0);
  }

  lemma OwnAtom(x: Sexp, ss: nat, m: seq<byte>, o: nat)
    requires Stored(x, ss, m, o)
    ensures o + SizeAs(x, ss) <= |m| && AtomAt(x.body, m, o + HeadSize(x, ss) + KidOffset(x, KidCount(x)))
  {
    hide AtomAt, PaddedAt, HeaderStored, KidOffset, Slot, SlotCount;
  }

  lemma ListMeasured()
    ensures var l := Bare(Pairs(false, [Cell(NIL, NAME)])); Size(l) == 16 && Storage(l) <= 0xff_fff0
  {
    hide KidOffset, PartsStorage;
    var cells := [Cell(NIL, NAME)];
    var l := Bare(Pairs(false, cells));
    NullSize();
    NameSize();
    NameStorage();
    assert IsTagged(cells) by { assert cells[0].tag != NIL; }
    assert KidCount(l) == 2 && Kid(l, 0) == NIL && Kid(l, 1) == NAME;
    TwoKids(l);
    assert PartsStorage(l.body) == 16 by { QapSizes.OneCell(false, NIL, NAME); }
  }

  /** 7L stored as a large value: the flag 64, and four bytes more of the length. */
  lemma StoredLarge(m: seq<byte>, o: nat)
    requires Stored(Bare(Ints([7])), 0xff_fff1, m, o)
    ensures HasBytes(m, o, [64 + 32, 4, 0, 0]) && HasBytes(m, o + 4, [0, 0, 0, 0]) && HasBytes(m, o + 8, [7, 0, 0, 0])
  {
    hide WordAt, HasBytes;
    var s: seq<word> := [7];
    assert KidOffset(Bare(Ints(s)), 0) == 0;
    assert s[0] == 7;
    OwnAtom(Bare(Ints(s)), 0xff_fff1, m, o);
    WordHas(m, o, 0x460, 96, 4, 0, 0);
    WordHas(m, o + 4, 0, 0, 0, 0, 0);
    WordHas(m, o + 8, 7, 7, 0, 0, 0);
  }
}
