/** How many bytes the Java client reserves for a value (REXPFactory.getBinaryLength). */
module JavaLength {
  import opened Bytes
  import opened Rsrv
  import opened Sexps
  import opened Sums
  import opened QapLayout
  import QapSizes

  /** The number of Java chars of a UTF-8 string: continuation bytes add none, and a character
      of four bytes is a surrogate pair. */
  function Chars(s: seq<byte>): nat
  {
    if s == [] then 0
    else Chars(s[1..]) + if s[0] < 0x80 then 1 else if s[0] < 0xc0 then 0 else if s[0] < 0xf0 then 1 else 2
  }

  lemma {:induction false} AsciiChars(s: seq<byte>)
    requires forall i :: 0 <= i < |s| ==> s[i] < 0x80
    ensures Chars(s) == |s|
  {
    if s != [] {
      AsciiChars(s[1..]);
    }
  }

  /** The UTF-8 encoding of a character (RFC 3629, section 3). */
  function Utf8(c: nat): seq<byte>
    requires c < 0x11_0000
  {
    if c < 0x80 then [c]
    else if c < 0x800 then [0xc0 + c / 0x40, 0x80 + c % 0x40]
    else if c < 0x1_0000 then [0xe0 + c / 0x1000, 0x80 + c / 0x40 % 0x40, 0x80 + c % 0x40]
    else [0xf0 + c / 0x4_0000, 0x80 + c / 0x1000 % 0x40, 0x80 + c / 0x40 % 0x40, 0x80 + c % 0x40]
  }

  predicate IsText(t: seq<nat>) { forall i :: 0 <= i < |t| ==> t[i] < 0x11_0000 }

  function Utf8Text(t: seq<nat>): seq<byte>
    requires IsText(t)
  {
    if t == [] then [] else Utf8(t[0]) + Utf8Text(t[1..])
  }

  /** The length of a Java string: characters above 0xffff take two chars. */
  function Utf16Length(t: seq<nat>): nat
  {
    if t == [] then 0 else (if t[0] < 0x1_0000 then 1 else 2) + Utf16Length(t[1..])
  }

  lemma {:induction false} CharsJoined(a: seq<byte>, b: seq<byte>)
    ensures Chars(a + b) == Chars(a) + Chars(b)
  {
    if a == [] {
      assert a + b == b;
    } else {
      assert (a + b)[1..] == a[1..] + b;
      CharsJoined(a[1..], b);
    }
  }

  lemma CharsOfOne(c: nat)
    requires c < 0x11_0000
    ensures Chars(Utf8(c)) == if c < 0x1_0000 then 1 else 2
  {
    Continued(Utf8(c)[1..]);
  }

  lemma {:induction false} Continued(s: seq<byte>)
    requires forall i :: 0 <= i < |s| ==> 0x80 <= s[i] < 0xc0
    ensures Chars(s) == 0
  {
    if s != [] {
      Continued(s[1..]);
    }
  }

  /** Chars is the length of the Java string that a text in UTF-8 becomes. */
  lemma {:induction false} CharsOfText(t: seq<nat>)
    requires IsText(t)
    ensures Chars(Utf8Text(t)) == Utf16Length(t)
  {
    hide Utf8, Chars;
    if t == [] {
      NoChars();
    } else {
      assert IsText(t[1..]);
      CharsOfOne(t[0]);
      CharsJoined(Utf8(t[0]), Utf8Text(t[1..]));
      CharsOfText(t[1..]);
    }
  }

  lemma NoChars()
    ensures Chars([]) == 0
  {
  }

  // ---- the bytes the format needs, with headers chosen by the real payload ----

  function JHead(payload: nat): nat { if payload > LARGE_LIMIT then 8 else 4 }

  function JSize(x: Sexp): (n: nat)
    ensures n >= 4
    decreases x, 1
  {
    JHead(JPayload(x)) + JPayload(x)
  }

  function JKidSizes(x: Sexp): (s: seq<nat>)
    ensures |s| == KidCount(x)
    decreases x, 0, 0
  {
    seq(KidCount(x), k requires 0 <= k < KidCount(x) => JSize(Kid(x, k)))
  }

  function JKidOffset(x: Sexp, k: nat): nat
    requires k <= KidCount(x)
    decreases x, 0, 1
  {
    Sum(JKidSizes(x), k)
  }

  function JPayload(x: Sexp): nat
    decreases x, 0, 2
  {
    JKidOffset(x, KidCount(x)) + AtomSize(x.body)
  }

  lemma JKidOffsetStep(x: Sexp, k: nat)
    requires k < KidCount(x)
    ensures JKidOffset(x, k + 1) == JKidOffset(x, k) + JSize(Kid(x, k))
    ensures JKidOffset(x, k + 1) <= JKidOffset(x, KidCount(x)) <= JPayload(x)
  {
    hide AtomSize, Slot, SlotCount;
    SumMonotone(JKidSizes(x), k, KidCount(x));
    SumMonotone(JKidSizes(x), k + 1, KidCount(x));
  }

  lemma {:induction false} JSizeAligned(x: Sexp)
    ensures JSize(x) % 4 == 0 && JPayload(x) % 4 == 0
    decreases x, 1
  {
    hide SlotCount, Slot, AtomSize, JKidSizes;
    JKidsAligned(x, KidCount(x));
    QapSizes.AtomSizeAligned(x.body);
    QapSizes.AlignedSum(JKidOffset(x, KidCount(x)), AtomSize(x.body));
    QapSizes.AlignedSum(JHead(JPayload(x)), JPayload(x));
  }

  lemma {:induction false} JKidsAligned(x: Sexp, n: nat)
    requires n <= KidCount(x)
    ensures JKidOffset(x, n) % 4 == 0
    decreases x, 0
  {
    hide SlotCount, Slot, AtomSize, JSize;
    forall k | 0 <= k < KidCount(x)
      ensures JKidSizes(x)[k] % 4 == 0
    {
      JSizeAligned(Kid(x, k));
    }
    SumAligned(JKidSizes(x), n);
  }

  // ---- what the client can hold ----

  /** The name is measured in chars and stored in bytes. */
  predicate NameFits(s: seq<byte>)
  {
    Align(Chars(s) + 1) == Align(|s| + 1) < LARGE_LIMIT
  }

  /** The names of a list are symbols (a missing key is written as an empty one) and are measured
      as they are stored, and symbols have no attributes. */
  predicate Shaped(x: Sexp)
  {
    match x.body
    case Symbol(s) => x.attr.NoAttributes? && NameFits(s)
    case Pairs(_, cells) => IsTagged(cells) ==> forall i :: 0 <= i < |cells| ==> cells[i].tag.body.Symbol?
    case Complexes(_) => false
    case CharString(_) => false
    case Closure(_, _) => false
    case Other(_) => false
    case _ => true
  }

  predicate AllShaped(x: Sexp)
    decreases x
  {
    Shaped(x) && forall k :: 0 <= k < KidCount(x) ==> AllShaped(Kid(x, k))
  }

  lemma KidShaped(x: Sexp, k: nat)
    requires AllShaped(x) && k < KidCount(x)
    ensures Shaped(x) && AllShaped(Kid(x, k)) && Shaped(Kid(x, k))
  {
    hide Slot, SlotCount, Shaped;
  }

  // ---- what is counted ----

  predicate TaggedCall(b: Body) { b.Pairs? && b.isCall && IsTagged(b.cells) }

  /** The k-th nested value is the name of an argument of a call. */
  predicate IsCallName(x: Sexp, k: nat)
  {
    TaggedCall(x.body) && k >= AttrCount(x) && (k - AttrCount(x)) % 2 == 1
  }

  /** The length announced for x: that of the format, if the names of calls are left out. */
  function Announced(x: Sexp): (n: nat)
    ensures n >= 4
    decreases x, 1
  {
    JHead(Counted(x)) + Counted(x)
  }

  function CountedSizes(x: Sexp): (s: seq<nat>)
    ensures |s| == KidCount(x)
    decreases x, 0, 0
  {
    seq(KidCount(x), k requires 0 <= k < KidCount(x) => if IsCallName(x, k) then 0 else Announced(Kid(x, k)))
  }

  function CountedOffset(x: Sexp, k: nat): nat
    requires k <= KidCount(x)
    decreases x, 0, 1
  {
    Sum(CountedSizes(x), k)
  }

  function Counted(x: Sexp): nat
    decreases x, 0, 2
  {
    CountedOffset(x, KidCount(x)) + AtomSize(x.body)
  }

  lemma CountedIs(x: Sexp)
    ensures CountedOffset(x, 0) == 0 && AttrCount(x) <= KidCount(x)
    ensures Counted(x) == CountedOffset(x, KidCount(x)) + AtomSize(x.body)
  {
  }

  lemma CountedStep(x: Sexp, k: nat)
    requires k < KidCount(x)
    ensures CountedOffset(x, k + 1)
         == CountedOffset(x, k) + if IsCallName(x, k) then 0 else Announced(Kid(x, k))
  {
    hide AtomSize, Slot, SlotCount, IsCallName, Announced;
  }

  lemma {:induction false} AnnouncedAligned(x: Sexp)
    ensures Announced(x) % 4 == 0 && Counted(x) % 4 == 0
    decreases x, 1
  {
    hide SlotCount, Slot, AtomSize, CountedSizes;
    CountedAligned(x, KidCount(x));
    QapSizes.AtomSizeAligned(x.body);
    QapSizes.AlignedSum(CountedOffset(x, KidCount(x)), AtomSize(x.body));
    QapSizes.AlignedSum(JHead(Counted(x)), Counted(x));
  }

  lemma {:induction false} CountedAligned(x: Sexp, n: nat)
    requires n <= KidCount(x)
    ensures CountedOffset(x, n) % 4 == 0
    decreases x, 0
  {
    hide SlotCount, Slot, AtomSize, Announced, IsCallName;
    forall k | 0 <= k < KidCount(x)
      ensures CountedSizes(x)[k] % 4 == 0
    {
      AnnouncedAligned(Kid(x, k));
    }
    SumAligned(CountedSizes(x), n);
  }

  // ---- how much is missing ----

  /** How many names of arguments there are, at all levels. */
  function CallNames(x: Sexp): nat
    decreases x, 1
  {
    Sum(NameCounts(x), KidCount(x))
  }

  function NameCounts(x: Sexp): (s: seq<nat>)
    ensures |s| == KidCount(x)
    decreases x, 0
  {
    seq(KidCount(x), k requires 0 <= k < KidCount(x) => if IsCallName(x, k) then 1 else CallNames(Kid(x, k)))
  }

  /** What is announced falls short of the format by eight bytes at least for each such name. */
  lemma {:induction false} AnnouncedShort(x: Sexp)
    requires AllShaped(x)
    ensures Announced(x) + 8 * CallNames(x) <= JSize(x) && Counted(x) + 8 * CallNames(x) <= JPayload(x)
    decreases x
  {
    hide SlotCount, Slot, AtomSize, IsCallName, Announced, JSize, CallNames, AllShaped, CountedSizes, JKidSizes,
      NameCounts;
    forall k | 0 <= k < KidCount(x)
      ensures CountedSizes(x)[k] + 8 * NameCounts(x)[k] <= JKidSizes(x)[k]
    {
      KidShaped(x, k);
      if IsCallName(x, k) {
        CallNameIsSymbol(x, k);
        SymbolSize(Kid(x, k));
      } else {
        AnnouncedShort(Kid(x, k));
      }
      SizesAt(x, k);
    }
    SumsShort(CountedSizes(x), NameCounts(x), JKidSizes(x), KidCount(x));
    CallNamesIs(x);
    CountedIs(x);
    SizeIs(x);
    HeadsShort(x);
  }

  lemma SizesAt(x: Sexp, k: nat)
    requires k < KidCount(x)
    ensures CountedSizes(x)[k] == if IsCallName(x, k) then 0 else Announced(Kid(x, k))
    ensures NameCounts(x)[k] == if IsCallName(x, k) then 1 else CallNames(Kid(x, k))
    ensures JKidSizes(x)[k] == JSize(Kid(x, k))
  {
    hide SlotCount, Slot, IsCallName, Announced, JSize, CallNames;
  }

  lemma CallNamesIs(x: Sexp)
    ensures CallNames(x) == Sum(NameCounts(x), KidCount(x))
    ensures CountedOffset(x, KidCount(x)) == Sum(CountedSizes(x), KidCount(x))
    ensures JKidOffset(x, KidCount(x)) == Sum(JKidSizes(x), KidCount(x))
  {
    hide NameCounts, CountedSizes, JKidSizes;
  }

  lemma HeadsShort(x: Sexp)
    ensures Announced(x) == JHead(Counted(x)) + Counted(x)
  {
  }

  lemma {:induction false} SumsShort(s: seq<nat>, c: seq<nat>, t: seq<nat>, k: nat)
    requires k <= |s| == |c| == |t| && forall i :: 0 <= i < |s| ==> s[i] + 8 * c[i] <= t[i]
    ensures Sum(s, k) + 8 * Sum(c, k) <= Sum(t, k)
  {
    if k > 0 {
      SumsShort(s, c, t, k - 1);
    }
  }

  lemma CallNameIsSymbol(x: Sexp, k: nat)
    requires Shaped(x) && IsCallName(x, k) && k < KidCount(x)
    ensures Kid(x, k).body.Symbol?
  {
    hide NameFits, IsTagged;
  }

  lemma SymbolSize(t: Sexp)
    requires Shaped(t) && t.body.Symbol?
    ensures JSize(t) == Announced(t) == 4 + Align(Chars(t.body.name) + 1) >= 8
    ensures JPayload(t) < LARGE_LIMIT && KidCount(t) == 0
  {
    hide JSize, JPayload, JKidOffset, Announced, Counted, CountedOffset, Chars;
    SizeIs(t);
    NoKids(t);
    CountedIs(t);
    HeadsShort(t);
    assert KidCount(t) == 0;
  }

  /** Without such names nothing is missing. */
  lemma {:induction false} NothingMissing(x: Sexp)
    requires CallNames(x) == 0
    ensures Announced(x) == JSize(x) && Counted(x) == JPayload(x) && CountedSizes(x) == JKidSizes(x)
    decreases x
  {
    hide SlotCount, Slot, AtomSize, IsCallName, Announced, JSize, CallNames, CountedSizes, JKidSizes, NameCounts;
    CallNamesIs(x);
    forall k | 0 <= k < KidCount(x)
      ensures CountedSizes(x)[k] == JKidSizes(x)[k]
    {
      SumMonotone(NameCounts(x), k, KidCount(x));
      SizesAt(x, k);
      NothingMissing(Kid(x, k));
    }
    assert CountedSizes(x) == JKidSizes(x);
    CountedIs(x);
    SizeIs(x);
    HeadsShort(x);
  }

  /** The announced length is right if and only if there is no such name at any level. */
  lemma AnnouncedIsSize(x: Sexp)
    requires AllShaped(x)
    ensures Announced(x) <= JSize(x) - 8 * CallNames(x)
    ensures Announced(x) == JSize(x) <==> CallNames(x) == 0
  {
    hide Announced, JSize, CallNames, AllShaped, Counted, JPayload;
    AnnouncedShort(x);
    if CallNames(x) == 0 {
      NothingMissing(x);
    }
  }

  lemma KidNames(x: Sexp, k: nat)
    requires CallNames(x) == 0 && k < KidCount(x)
    ensures CallNames(Kid(x, k)) == 0 && !IsCallName(x, k)
  {
    hide SlotCount, Slot, IsCallName, CallNames, NameCounts;
    CallNamesIs(x);
    SumMonotone(NameCounts(x), k, KidCount(x));
    SizesAt(x, k);
  }

  // ---- getBinaryLength ----

  /** Rounds up as `if ((l&3)>0) l=l-(l&3)+4`. */
  method RoundUp(l: nat) returns (r: nat)
    ensures r == Align(l)
  {
    r := l;
    Rounded(l);
    if l % 4 > 0 {
      r := l - l % 4 + 4;
    }
  }

  lemma Rounded(l: nat)
    ensures Align(l) == if l % 4 > 0 then l - l % 4 + 4 else l
  {
    var q, r := l / 4, l % 4;
    assert l == 4 * q + r && l + 3 == 4 * q + (r + 3);
    assert (l + 3) / 4 == if r == 0 then q else q + 1;
  }

  /** getBinaryLength is the announced length. */
  method GetBinaryLength(x: Sexp) returns (l: nat)
    requires IsR(x)
    ensures AllShaped(x) ==> l == Announced(x)
    decreases x, 2
  {
    hide Announced, Counted, CountedOffset, Slot, SlotCount, AtomSize, IsR, AllShaped, NodeIsR, IsCallName;
    l := 0;
    NoKids(x);
    CountedIs(x);
    KidsAreR(x);
    if x.attr.Attributes? {
      l := GetBinaryLength(x.attr.list);
      CountedStep(x, 0);
      AttributesCount(x);
      if AllShaped(x) {
        KidShaped(x, 0);
      }
    }
    assert AllShaped(x) ==> l == CountedOffset(x, AttrCount(x));
    l := AddBody(x.body, l, x);
    HeadsShort(x);
    if l > LARGE_LIMIT {
      l := l + 4;
    }
    l := l + 4;
  }

  lemma AttributesCount(x: Sexp)
    requires x.attr.Attributes?
    ensures !IsCallName(x, 0)
  {
  }

  lemma NoKids(x: Sexp)
    ensures JKidOffset(x, 0) == 0 && AttrCount(x) <= KidCount(x)
    ensures x.attr.Attributes? ==> Kid(x, 0) == x.attr.list && KidCount(x) >= 1
  {
  }

  lemma KidsAreR(x: Sexp)
    requires IsR(x)
    ensures NodeIsR(x)
    ensures forall k :: 0 <= k < KidCount(x) ==> IsR(Kid(x, k))
  {
    hide NodeIsR, Slot, SlotCount;
  }

  lemma SizeIs(x: Sexp)
    ensures JSize(x) == JHead(JPayload(x)) + JPayload(x)
    ensures JPayload(x) == JKidOffset(x, KidCount(x)) + AtomSize(x.body)
  {
  }

  /** The values of an RList. */
  function Elements(b: Body): (s: seq<Sexp>)
    ensures forall i :: 0 <= i < |s| ==> (b decreases to s[i])
  {
    match b
    case Vector(_, elems) => elems
    case Pairs(_, cells) => seq(|cells|, i requires 0 <= i < |cells| => cells[i].car)
    case _ => []
  }

  /** How many nested values make up one element of a list. */
  function Per(b: Body): nat { if b.Pairs? && IsTagged(b.cells) then 2 else 1 }

  /** The switch over the type, with from bytes counted for the attributes. */
  method AddBody(b: Body, from: nat, ghost x: Sexp) returns (l: nat)
    requires IsR(x) && b == x.body
    requires AllShaped(x) ==> from == CountedOffset(x, AttrCount(x))
    ensures AllShaped(x) ==> l == Counted(x)
    decreases b, 1
  {
    hide Announced, Counted, CountedOffset, Slot, SlotCount, IsR, AllShaped, NodeIsR, Align, EscapedAll, AtomSize,
      AtomMeasured;
    CountedIs(x);
    if b.Vector? || b.Pairs? {
      l := AddElements(b, from, x);
      NoData(b);
      AnnouncedAligned(x);
      l := RoundUp(l);
      AlignedAlready(Counted(x));
    } else {
      l := AddAtom(b, from);
      if AllShaped(x) {
        CountedAligned(x, AttrCount(x));
        OnlyAtom(x);
      }
    }
  }

  lemma NoData(b: Body)
    requires b.Vector? || b.Pairs?
    ensures AtomSize(b) == 0
  {
  }

  lemma AlignedAlready(n: nat)
    ensures n % 4 == 0 ==> Align(n) == n
  {
  }

  predicate AtomMeasured(b: Body)
  {
    !b.Complexes? && !b.CharString? && !b.Closure? && !b.Other? && (b.Symbol? ==> NameFits(b.name))
  }

  lemma OnlyAtom(x: Sexp)
    requires AllShaped(x) && !x.body.Vector? && !x.body.Pairs?
    ensures KidCount(x) == AttrCount(x) && AtomMeasured(x.body)
  {
    hide Slot, NameFits;
  }

  /** The values of a list or vector and the names of a named list. */
  method AddElements(b: Body, from: nat, ghost x: Sexp) returns (l: nat)
    requires IsR(x) && b == x.body && (b.Vector? || b.Pairs?)
    requires AllShaped(x) ==> from == CountedOffset(x, AttrCount(x))
    ensures AllShaped(x) ==> l == CountedOffset(x, KidCount(x))
    decreases b, 0
  {
    hide Announced, Counted, CountedOffset, Slot, SlotCount, KidCount, IsR, AllShaped, NodeIsR, Align, EscapedAll,
      AtomSize, IsTagged, Chars, Elements;
    KidsAreR(x);
    SlotsAre(x);
    ghost var a, per := AttrCount(x), Per(b);
    var lst, tagged := Elements(b), b.Pairs? && !b.isCall && IsTagged(b.cells);
    l := from;
    var i := 0;
    while i < |lst|
      invariant i <= |lst|
      invariant AllShaped(x) ==> l == CountedOffset(x, a + per * i)
    {
      ElementIs(x, i);
      if AllShaped(x) {
        ElementCounted(x, i);
      }
      var e := GetBinaryLength(lst[i]);
      l := l + e;
      if tagged {
        if b.cells[i].tag.body.Symbol? {
          l := l + 4 + Chars(b.cells[i].tag.body.name) + 1;
        } else {
          l := l + 4 + 1;
        }
        l := RoundUp(l);
      }
      i := i + 1;
    }
  }

  lemma SlotsAre(x: Sexp)
    requires x.body.Vector? || x.body.Pairs?
    ensures KidCount(x) == AttrCount(x) + |Elements(x.body)| * Per(x.body)
    ensures x.body.Pairs? ==> |Elements(x.body)| == |x.body.cells|
  {
  }

  /** Where the i-th value and its name are among the nested values. */
  lemma EntryIs(x: Sexp, i: nat)
    requires (x.body.Vector? || x.body.Pairs?) && i < |Elements(x.body)|
    ensures var k := AttrCount(x) + Per(x.body) * i;
      && k < KidCount(x) && Kid(x, k) == Elements(x.body)[i] && !IsCallName(x, k)
      && (x.body.Pairs? && IsTagged(x.body.cells) ==>
            && i < |x.body.cells| && k + 1 < KidCount(x) && Kid(x, k + 1) == x.body.cells[i].tag
            && (IsCallName(x, k + 1) <==> x.body.isCall))
  {
    hide IsTagged;
    SlotsAre(x);
  }

  lemma ElementIs(x: Sexp, i: nat)
    requires IsR(x) && (x.body.Vector? || x.body.Pairs?) && i < |Elements(x.body)|
    ensures IsR(Elements(x.body)[i])
  {
    hide IsR, NodeIsR, IsTagged, KidCount, Kid, Elements;
    KidsAreR(x);
    EntryIs(x, i);
  }

  lemma AlignShift(a: nat, n: nat)
    requires a % 4 == 0
    ensures Align(a + n) == a + Align(n)
  {
  }

  /** One turn of the loop: the i-th value, and its name unless x is a call. */
  lemma ElementCounted(x: Sexp, i: nat)
    requires AllShaped(x) && (x.body.Vector? || x.body.Pairs?) && i < |Elements(x.body)|
    ensures AllShaped(Elements(x.body)[i])
    ensures var b, k := x.body, AttrCount(x) + Per(x.body) * i;
      && k + Per(b) <= KidCount(x)
      && var counted := CountedOffset(x, k) + Announced(Elements(b)[i]);
      if b.Pairs? && !b.isCall && IsTagged(b.cells) then
        && i < |b.cells| && b.cells[i].tag.body.Symbol?
        && CountedOffset(x, k + 2) == Align(counted + 4 + Chars(b.cells[i].tag.body.name) + 1)
      else CountedOffset(x, k + Per(b)) == counted
  {
    hide Announced, Counted, CountedOffset, AllShaped, Align, AtomSize, IsTagged, Chars, KidCount, Kid, Elements,
      IsCallName, Shaped;
    EntryIs(x, i);
    var k := AttrCount(x) + Per(x.body) * i;
    KidShaped(x, k);
    CountedStep(x, k);
    if x.body.Pairs? && IsTagged(x.body.cells) {
      CountedStep(x, k + 1);
      if !x.body.isCall {
        KidShaped(x, k + 1);
        NameIsSymbol(x, i);
        ShapedSelf(Kid(x, k + 1));
        SymbolSize(Kid(x, k + 1));
        CountedAligned(x, k + 1);
        AlignShift(CountedOffset(x, k + 1) + 4, Chars(x.body.cells[i].tag.body.name) + 1);
      }
    }
  }

  lemma ShapedSelf(x: Sexp)
    requires AllShaped(x)
    ensures Shaped(x)
  {
    hide Shaped, Slot, SlotCount;
  }

  lemma NameIsSymbol(x: Sexp, i: nat)
    requires Shaped(x) && x.body.Pairs? && IsTagged(x.body.cells) && i < |x.body.cells|
    ensures x.body.cells[i].tag.body.Symbol?
  {
    hide IsTagged;
  }

  /** The switch cases that count no nested values; they round up the running total. */
  method AddAtom(b: Body, from: nat) returns (l: nat)
    ensures from % 4 == 0 && AtomMeasured(b) && !b.Vector? && !b.Pairs? ==> l == from + AtomSize(b)
  {
    hide Chars, Align, EscapedAll, AtomSize, AtomMeasured;
    if from % 4 == 0 && AtomMeasured(b) {
      AtomAdds(b, from);
    }
    l := from;
    match b {
      case Ints(s) => l := l + 4 * |s|;
      case Reals(s) => l := l + 8 * |s|;
      case Raw(s) => l := RoundUp(l + 4 + |s|);
      case Logicals(s) => l := RoundUp(l + |s| + 4);
      case Symbol(s) => l := RoundUp(l + Chars(s) + 1);
      case Strings(s) =>
        l := AddStrings(s, l);
        l := RoundUp(l);
      case _ =>
    }
  }

  /** Rounding up the running total rounds up the size of the data. */
  lemma AtomAdds(b: Body, from: nat)
    requires from % 4 == 0 && AtomMeasured(b)
    ensures from + AtomSize(b) ==
      match b
      case Ints(s) => from + 4 * |s|
      case Reals(s) => from + 8 * |s|
      case Raw(s) => Align(from + 4 + |s|)
      case Logicals(s) => Align(from + |s| + 4)
      case Symbol(s) => Align(from + Chars(s) + 1)
      case Strings(s) => Align(from + |EscapedAll(s, |s|)|)
      case _ => from
  {
    hide Chars, Align, EscapedAll;
    match b
    case Raw(s) => AlignShift(from + 4, |s|);
    case Logicals(s) => AlignShift(from + 4, |s|);
    case Symbol(s) => AlignShift(from, Chars(s) + 1);
    case Strings(s) => AlignShift(from, |EscapedAll(s, |s|)|);
    case _ =>
  }

  /** The bytes of the elements, one more for a leading 0xff and each terminator. */
  method AddStrings(s: seq<RString>, from: nat) returns (l: nat)
    ensures l == from + |EscapedAll(s, |s|)|
  {
    hide Escaped;
    l := from;
    for i := 0 to |s|
      invariant l == from + |EscapedAll(s, i)|
    {
      EscapedLength(s[i]);
      if s[i].Text? {
        if |s[i].chars| > 0 {
          if s[i].chars[0] == 0xff {
            l := l + 1;
          }
          l := l + |s[i].chars|;
        }
      } else {
        l := l + 1;
      }
      l := l + 1;
    }
  }

  lemma EscapedLength(s: RString)
    ensures s.StringNA? ==> |Escaped(s)| == 2
    ensures s.Text? ==>
      |Escaped(s)| == |s.chars| + 1 + if |s.chars| > 0 && s.chars[0] == 0xff then 1 else 0
  {
  }
}
