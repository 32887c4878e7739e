/** Sizes of the stored form of a value, and Stored, the bytes that the C serialiser leaves in
    memory. */
module QapLayout {
  import opened Bytes
  import opened Rsrv
  import opened Sexps
  import opened Sums

  // ---- the size estimate ----

  /** Large entries cost four more bytes. */
  function Bump(n: nat): nat { if n > LARGE_LIMIT then n + 4 else n }

  /** The estimate for a stored C string of n bytes, as a value of its own. */
  function CharStorage(n: nat): nat { Bump(4 + Align(n + 1)) }

  /** The text a string element is measured by: R's NA string reads "NA". */
  function ElementLength(s: RString): nat
  {
    match s case StringNA => 2 case Text(c) => |c|
  }

  function StringsStorage(s: seq<RString>): nat
  {
    Sum(seq(|s|, i requires 0 <= i < |s| => CharStorage(ElementLength(s[i]))), |s|)
  }

  /** What the estimate adds for a body without parts. */
  function AtomStorage(b: Body): nat
  {
    match b
    case Ints(s) => 4 * |s|
    case Reals(s) => 8 * |s|
    case Complexes(s) => 16 * |s|
    case Raw(s) => if |s| > 1 then 4 + Align(|s|) else 4
    case Logicals(s) => if |s| > 1 then 4 + Align(|s|) else 4
    case Strings(s) => StringsStorage(s)
    case Symbol(s) => Align(|s| + 1)
    case CharString(s) => Align(|s| + 1)
    case Null => 4
    case Other(_) => 4
    case _ => 0
  }

  /** getStorageSize: how many bytes the value is expected to occupy. The tags of a pairlist
      are added unless they come to no more than four bytes each. */
  function Storage(x: Sexp): (n: nat)
    ensures n >= 4
    decreases x, 1
  {
    var attr := if x.attr.Attributes? then Storage(x.attr.list) else 0;
    Bump(4 + attr + PartsStorage(x.body) + AtomStorage(x.body))
  }

  function PartsStorage(b: Body): nat
    decreases b, 0
  {
    match b
    case Vector(_, elems) =>
      Sum(seq(|elems|, i requires 0 <= i < |elems| => Storage(elems[i])), |elems|)
    case Pairs(_, cells) =>
      var cars := Sum(seq(|cells|, i requires 0 <= i < |cells| => Storage(cells[i].car)), |cells|);
      var tags := Sum(seq(|cells|, i requires 0 <= i < |cells| => Storage(cells[i].tag)), |cells|);
      cars + if tags > 4 * |cells| then tags else 0
    case Closure(formals, code) => Storage(formals) + Storage(code)
    case _ => 0
  }

  // ---- the size really used ----

  function Escaped(s: RString): (e: seq<byte>)
    ensures |e| >= 1 && e[|e| - 1] == 0
  {
    match s
    case StringNA => [0xff, 0]
    case Text(c) => (if c != [] && c[0] == 0xff then [0xff] else []) + c + [0]
  }

  function EscapedAll(s: seq<RString>, n: nat): seq<byte>
    requires n <= |s|
  {
    if n == 0 then [] else EscapedAll(s, n - 1) + Escaped(s[n - 1])
  }

  function AtomSize(b: Body): nat
  {
    match b
    case Ints(s) => 4 * |s|
    case Reals(s) => 8 * |s|
    case Complexes(s) => 16 * |s|
    case Raw(s) => 4 + Align(|s|)
    case Logicals(s) => 4 + Align(|s|)
    case Strings(s) => Align(|EscapedAll(s, |s|)|)
    case Symbol(s) => Align(|s| + 1)
    case CharString(s) => Align(|s| + 1)
    case Other(_) => 4
    case _ => 0
  }

  /** The header used when the size is taken to be ss; NULL always has the short one. */
  function HeadSize(x: Sexp, ss: nat): nat
  {
    if x.body.Null? || ss <= LARGE_LIMIT then 4 else 8
  }

  function Size(x: Sexp): (n: nat)
    ensures n >= 4
    decreases x, 1
  {
    HeadSize(x, Storage(x)) + Payload(x)
  }

  /** The sizes of the values nested in x, in storage order. */
  function KidSizes(x: Sexp): (s: seq<nat>)
    ensures |s| == KidCount(x)
    decreases x, 0, 0
  {
    seq(KidCount(x), k requires 0 <= k < KidCount(x) => Size(Kid(x, k)))
  }

  /** The offset of the k-th nested value behind the header. */
  function KidOffset(x: Sexp, k: nat): nat
    requires k <= KidCount(x)
    decreases x, 0, 1
  {
    Sum(KidSizes(x), k)
  }

  /** The bytes behind the header: the nested values, then the data of a body without parts. */
  function Payload(x: Sexp): nat
    decreases x, 0, 2
  {
    KidOffset(x, KidCount(x)) + AtomSize(x.body)
  }

  /** The size when the caller of the serialiser says that ss bytes are needed. */
  function SizeAs(x: Sexp, ss: nat): (n: nat)
    ensures n >= 4
  {
    HeadSize(x, ss) + Payload(x)
  }

  lemma KidOffsetStep(x: Sexp, k: nat)
    requires k < KidCount(x)
    ensures KidOffset(x, k + 1) == KidOffset(x, k) + Size(Kid(x, k))
    ensures KidOffset(x, k) + Size(Kid(x, k)) <= KidOffset(x, KidCount(x)) <= Payload(x)
  {
    hide Storage, AtomSize, Slot, SlotCount;
    SumMonotone(KidSizes(x), k, KidCount(x));
  }

  // ---- the type byte and the payload of a body without parts ----

  function TypeCode(b: Body): (c: nat)
    ensures c < 64
  {
    match b
    case Null => XT_NULL
    case Ints(_) => XT_ARRAY_INT
    case Reals(_) => XT_ARRAY_DOUBLE
    case Complexes(_) => XT_ARRAY_CPLX
    case Raw(_) => XT_RAW
    case Logicals(_) => XT_ARRAY_BOOL
    case Strings(_) => XT_ARRAY_STR
    case Symbol(_) => XT_SYMNAME
    case CharString(_) => XT_STR
    case Vector(isExpression, _) => if isExpression then XT_VECTOR_EXP else XT_VECTOR
    case Pairs(isCall, cells) =>
      (if isCall then 2 else 0) + if IsTagged(cells) then XT_LIST_TAG else XT_LIST_NOTAG
    case S4 => XT_S4
    case Closure(_, _) => XT_CLOS
    case Other(_) => XT_UNKNOWN
  }

  function TypeByte(x: Sexp): byte
  {
    TypeCode(x.body) + if x.attr.Attributes? then XT_HAS_ATTR else 0
  }

  function LogicalByte(l: Logical): byte
  {
    match l case False => 0 case True => 1 case LogicalNA => 2
  }

  /** The byte a reader takes for a logical value. */
  predicate MeansLogical(b: byte, l: Logical)
  {
    match l case False => b == 0 case True => b == 1 case LogicalNA => b != 0 && b != 1
  }

  predicate DoubleAt(d: Double, m: seq<byte>, o: nat)
    requires o + 8 <= |m|
  {
    WordAt(m, o) == d.lo && WordAt(m, o + 4) == d.hi
  }

  /** The payload of a body without parts at offset a. Bytes added only for alignment are
      unconstrained, except behind strings, where a NUL would count as an element. */
  ghost predicate AtomAt(b: Body, m: seq<byte>, a: nat)
    requires a + AtomSize(b) <= |m|
  {
    match b
    case Ints(s) => forall i :: 0 <= i < |s| ==> WordAt(m, a + 4 * i) == s[i]
    case Reals(s) => forall i :: 0 <= i < |s| ==> DoubleAt(s[i], m, a + 8 * i)
    case Complexes(s) => forall i :: 0 <= i < |s| ==>
      DoubleAt(s[i].re, m, a + 16 * i) && DoubleAt(s[i].im, m, a + 16 * i + 8)
    case Raw(s) => WordAt(m, a) == |s| && m[a + 4..a + 4 + |s|] == s
    case Logicals(s) => WordAt(m, a) == |s| && forall i :: 0 <= i < |s| ==> MeansLogical(m[a + 4 + i], s[i])
    case Strings(s) =>
      var n := |EscapedAll(s, |s|)|;
      m[a..a + n] == EscapedAll(s, |s|) && forall i :: a + n <= i < a + AtomSize(b) ==> m[i] != 0
    case Symbol(s) => m[a..a + |s|] == s && m[a + |s|] == 0
    case CharString(s) => m[a..a + |s|] == s && m[a + |s|] == 0
    case Other(t) => WordAt(m, a) == t
    case _ => true
  }

  /** What the C serialiser adds: logical bytes are exactly 0, 1 and 2 and padded by 0xff,
      strings by 0x01, names by NUL. It leaves the padding of raw vectors as it was. */
  ghost predicate PaddedAt(b: Body, m: seq<byte>, a: nat)
    requires a + AtomSize(b) <= |m|
  {
    match b
    case Logicals(s) =>
      && (forall i :: 0 <= i < |s| ==> m[a + 4 + i] == LogicalByte(s[i]))
      && (forall i :: a + 4 + |s| <= i < a + AtomSize(b) ==> m[i] == 0xff)
    case Strings(s) => forall i :: a + |EscapedAll(s, |s|)| <= i < a + AtomSize(b) ==> m[i] == 1
    case Symbol(s) => forall i :: a + |s| <= i < a + AtomSize(b) ==> m[i] == 0
    case CharString(s) => forall i :: a + |s| <= i < a + AtomSize(b) ==> m[i] == 0
    case _ => true
  }

  // ---- what the serialiser leaves in memory ----

  /** The header the serialiser writes: a length that does not fit its field is cut off. */
  predicate HeaderStored(x: Sexp, ss: nat, m: seq<byte>, o: nat)
    requires o + SizeAs(x, ss) <= |m|
  {
    if HeadSize(x, ss) == 4 then
      WordAt(m, o) == SET_PAR(TypeByte(x), Payload(x))
    else
      && WordAt(m, o) == SET_PAR(TypeByte(x) + XT_LARGE, Payload(x))
      && WordAt(m, o + 4) == Payload(x) / LEN24 % 0x1_0000_0000
  }

  /** The bytes of x that belong to no nested value. */
  ghost predicate OwnBytesStored(x: Sexp, ss: nat, m: seq<byte>, o: nat)
  {
    && o + SizeAs(x, ss) <= |m|
    && HeaderStored(x, ss, m, o)
    && var a := o + HeadSize(x, ss) + KidOffset(x, KidCount(x));
       AtomAt(x.body, m, a) && PaddedAt(x.body, m, a)
  }

  /** The bytes storeSEXP(buf, x, ss) leaves at offset o. */
  ghost predicate Stored(x: Sexp, ss: nat, m: seq<byte>, o: nat)
    decreases x
  {
    && OwnBytesStored(x, ss, m, o)
    && forall k :: 0 <= k < KidCount(x) ==>
         Stored(Kid(x, k), Storage(Kid(x, k)), m, o + HeadSize(x, ss) + KidOffset(x, k))
  }

  /** Stored only speaks of the value's own bytes. */
  lemma {:induction false} StoredFrame(x: Sexp, ss: nat, m: seq<byte>, m': seq<byte>, o: nat)
    requires Stored(x, ss, m, o)
    requires SameOn(m, m', o, o + SizeAs(x, ss))
    ensures Stored(x, ss, m', o)
    decreases x
  {
    hide OwnBytesStored, Storage, KidOffset, AtomSize, Slot, SlotCount, HeadSize;
    OwnBytesFrame(x, ss, m, m', o);
    forall k | 0 <= k < KidCount(x)
      ensures Stored(Kid(x, k), Storage(Kid(x, k)), m', o + HeadSize(x, ss) + KidOffset(x, k))
    {
      KidOffsetStep(x, k);
      StoredFrame(Kid(x, k), Storage(Kid(x, k)), m, m', o + HeadSize(x, ss) + KidOffset(x, k));
    }
  }

  lemma OwnBytesFrame(x: Sexp, ss: nat, m: seq<byte>, m': seq<byte>, o: nat)
    requires OwnBytesStored(x, ss, m, o)
    requires SameOn(m, m', o, o + SizeAs(x, ss))
    ensures OwnBytesStored(x, ss, m', o)
  {
    hide AtomAt, PaddedAt, Storage, KidOffset, AtomSize, TypeCode;
    AtomFrame(x.body, m, m', o + HeadSize(x, ss) + KidOffset(x, KidCount(x)));
  }

  lemma AtomFrame(b: Body, m: seq<byte>, m': seq<byte>, a: nat)
    requires a + AtomSize(b) <= |m| && SameOn(m, m', a, a + AtomSize(b))
    requires AtomAt(b, m, a)
    ensures AtomAt(b, m', a)
    ensures PaddedAt(b, m, a) ==> PaddedAt(b, m', a)
  {
    hide AtomAt, PaddedAt, AtomSize;
    if b.Ints? || b.Reals? || b.Complexes? || b.Other? {
      NumbersFrame(b, m, m', a);
    } else {
      BytesFrame(b, m, m', a);
    }
  }

  lemma NumbersFrame(b: Body, m: seq<byte>, m': seq<byte>, a: nat)
    requires b.Ints? || b.Reals? || b.Complexes? || b.Other?
    requires a + AtomSize(b) <= |m| && SameOn(m, m', a, a + AtomSize(b))
    requires AtomAt(b, m, a)
    ensures AtomAt(b, m', a)
    ensures PaddedAt(b, m, a) ==> PaddedAt(b, m', a)
  {
    hide WordAt;
    match b
    case Ints(s) => WordsFrame(m, m', a, |s|);
    case Reals(s) => WordsFrame(m, m', a, 2 * |s|);
    case Complexes(s) => WordsFrame(m, m', a, 4 * |s|);
    case Other(_) => WordsFrame(m, m', a, 1);
  }

  lemma BytesFrame(b: Body, m: seq<byte>, m': seq<byte>, a: nat)
    requires !b.Ints? && !b.Reals? && !b.Complexes? && !b.Other?
    requires a + AtomSize(b) <= |m| && SameOn(m, m', a, a + AtomSize(b))
    requires AtomAt(b, m, a)
    ensures AtomAt(b, m', a)
    ensures PaddedAt(b, m, a) ==> PaddedAt(b, m', a)
  {
    hide Escaped, EscapedAll, LogicalByte, MeansLogical, WordAt;
    match b
    case Raw(s) =>
      WordsFrame(m, m', a, 1);
      SliceFrame(m, m', a + 4, |s|);
    case Logicals(s) => WordsFrame(m, m', a, 1);
    case Strings(s) => SliceFrame(m, m', a, |EscapedAll(s, |s|)|);
    case Symbol(s) => SliceFrame(m, m', a, |s|);
    case CharString(s) => SliceFrame(m, m', a, |s|);
    case _ =>
  }

  lemma WordsFrame(m: seq<byte>, m': seq<byte>, a: nat, n: nat)
    requires a + 4 * n <= |m| && SameOn(m, m', a, a + 4 * n)
    ensures forall p :: a <= p <= a + 4 * n - 4 ==> WordAt(m', p) == WordAt(m, p)
  {
  }

  lemma SliceFrame(m: seq<byte>, m': seq<byte>, a: nat, n: nat)
    requires a + n <= |m| && SameOn(m, m', a, a + n)
    ensures m[a..a + n] == m'[a..a + n]
  {
  }
}
