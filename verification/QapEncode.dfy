/** The C serialiser: the size estimate and the in-place writer with its back-patched headers. */
module QapEncode {
  import opened Bytes
  import opened Rsrv
  import opened Sexps
  import opened Sums
  import opened QapLayout

  /** getStorageSize as the loops compute it. */
  method GetStorageSize(x: Sexp) returns (len: nat)
    ensures len == Storage(x)
    decreases x, 1
  {
    len := 4;
    if x.attr.Attributes? {
      var alen := GetStorageSize(x.attr.list);
      len := len + alen;
    }
    var body := GetBodySize(x.body);
    len := len + body;
    if len > LARGE_LIMIT {
      len := len + 4;
    }
  }

  /** The switch over the type. */
  method GetBodySize(b: Body) returns (len: nat)
    ensures len == PartsStorage(b) + AtomStorage(b)
    decreases b, 0
  {
    hide Storage, CharStorage;
    len := 0;
    match b {
      case Vector(_, elems) =>
        var i := 0;
        while i < |elems|
          invariant i <= |elems|
          invariant len == Sum(seq(|elems|, j requires 0 <= j < |elems| => Storage(elems[j])), i)
        {
          var l := GetStorageSize(elems[i]);
          len, i := len + l, i + 1;
        }
      case Pairs(_, cells) =>
        var n, tags := 0, 0;
        while n < |cells|
          invariant n <= |cells|
          invariant len == Sum(seq(|cells|, j requires 0 <= j < |cells| => Storage(cells[j].car)), n)
          invariant tags == Sum(seq(|cells|, j requires 0 <= j < |cells| => Storage(cells[j].tag)), n)
        {
          var c := GetStorageSize(cells[n].car);
          var t := GetStorageSize(cells[n].tag);
          len, tags, n := len + c, tags + t, n + 1;
        }
        if tags > 4 * n {
          len := len + tags;
        }
      case Closure(formals, code) =>
        var f := GetStorageSize(formals);
        var c := GetStorageSize(code);
        len := f + c;
      case Strings(s) =>
        var i := 0;
        while i < |s|
          invariant i <= |s|
          invariant len == Sum(seq(|s|, j requires 0 <= j < |s| => CharStorage(ElementLength(s[j]))), i)
        {
          len := len + CharStorage(ElementLength(s[i]));
          i := i + 1;
        }
      case _ =>
        len := AtomStorage(b);
    }
  }

  // ---- writers for the bodies without parts ----

  /** Nothing outside [o, e) changed. */
  ghost predicate OnlyChanged(m: seq<byte>, m': seq<byte>, o: nat, e: nat)
  {
    |m'| == |m| && forall i {:trigger m[i]} {:trigger m'[i]} :: 0 <= i < |m| && !(o <= i < e) ==> m'[i] == m[i]
  }

  method StoreInts(mem: array<byte>, buf: nat, s: seq<word>) returns (end: nat)
    requires buf + 4 * |s| <= mem.Length
    modifies mem
    ensures end == buf + 4 * |s| && AtomAt(Ints(s), mem[..], buf)
    ensures OnlyChanged(old(mem[..]), mem[..], buf, end)
  {
    end := buf;
    for i := 0 to |s|
      invariant end == buf + 4 * i
      invariant forall j :: 0 <= j < i ==> WordAt(mem[..], buf + 4 * j) == s[j]
      invariant OnlyChanged(old(mem[..]), mem[..], buf, end)
    {
      PutWord(mem, end, s[i]);
      end := end + 4;
    }
  }

  method StoreDouble(mem: array<byte>, buf: nat, d: Double) returns (end: nat)
    requires buf + 8 <= mem.Length
    modifies mem
    ensures end == buf + 8 && DoubleAt(d, mem[..], buf)
    ensures OnlyChanged(old(mem[..]), mem[..], buf, end)
  {
    PutWord(mem, buf, d.lo);
    PutWord(mem, buf + 4, d.hi);
    end := buf + 8;
  }

  method StoreReals(mem: array<byte>, buf: nat, s: seq<Double>) returns (end: nat)
    requires buf + 8 * |s| <= mem.Length
    modifies mem
    ensures end == buf + 8 * |s| && AtomAt(Reals(s), mem[..], buf)
    ensures OnlyChanged(old(mem[..]), mem[..], buf, end)
  {
    end := buf;
    for i := 0 to |s|
      invariant end == buf + 8 * i
      invariant forall j :: 0 <= j < i ==> DoubleAt(s[j], mem[..], buf + 8 * j)
      invariant OnlyChanged(old(mem[..]), mem[..], buf, end)
    {
      end := StoreDouble(mem, end, s[i]);
    }
  }

  method StoreComplexes(mem: array<byte>, buf: nat, s: seq<Complex>) returns (end: nat)
    requires buf + 16 * |s| <= mem.Length
    modifies mem
    ensures end == buf + 16 * |s| && AtomAt(Complexes(s), mem[..], buf)
    ensures OnlyChanged(old(mem[..]), mem[..], buf, end)
  {
    end := buf;
    for i := 0 to |s|
      invariant end == buf + 16 * i
      invariant forall j :: 0 <= j < i ==>
        DoubleAt(s[j].re, mem[..], buf + 16 * j) && DoubleAt(s[j].im, mem[..], buf + 16 * j + 8)
      invariant OnlyChanged(old(mem[..]), mem[..], buf, end)
    {
      end := StoreDouble(mem, end, s[i].re);
      end := StoreDouble(mem, end, s[i].im);
    }
  }

  /** Copies bytes, as memcpy. */
  method CopyBytes(mem: array<byte>, buf: nat, s: seq<byte>)
    requires buf + |s| <= mem.Length
    modifies mem
    ensures mem[buf..buf + |s|] == s
    ensures OnlyChanged(old(mem[..]), mem[..], buf, buf + |s|)
  {
    for i := 0 to |s|
      invariant forall j :: 0 <= j < i ==> mem[buf + j] == s[j]
      invariant OnlyChanged(old(mem[..]), mem[..], buf, buf + i)
    {
      mem[buf + i] := s[i];
    }
  }

  /** Fills [from, to) with one byte. */
  method Fill(mem: array<byte>, from: nat, to: nat, b: byte)
    requires from <= to <= mem.Length
    modifies mem
    ensures forall j :: from <= j < to ==> mem[j] == b
    ensures OnlyChanged(old(mem[..]), mem[..], from, to)
  {
    for i := from to to
      invariant forall j :: from <= j < i ==> mem[j] == b
      invariant OnlyChanged(old(mem[..]), mem[..], from, i)
    {
      mem[i] := b;
    }
  }

  method StoreRaw(mem: array<byte>, buf: nat, s: seq<byte>) returns (end: nat)
    requires |s| <= MAX_INT32 && buf + AtomSize(Raw(s)) <= mem.Length
    modifies mem
    ensures end == buf + AtomSize(Raw(s)) && AtomAt(Raw(s), mem[..], buf)
    ensures OnlyChanged(old(mem[..]), mem[..], buf, end)
  {
    PutWord(mem, buf, |s|);
    CopyBytes(mem, buf + 4, s);
    end := buf + 4 + (|s| + 3) / 4 * 4;
    assert mem[..][buf + 4..buf + 4 + |s|] == mem[buf + 4..buf + 4 + |s|];
  }

  method StoreLogicals(mem: array<byte>, buf: nat, s: seq<Logical>) returns (end: nat)
    requires |s| <= MAX_INT32 && buf + AtomSize(Logicals(s)) <= mem.Length
    modifies mem
    ensures end == buf + AtomSize(Logicals(s))
    ensures AtomAt(Logicals(s), mem[..], buf) && PaddedAt(Logicals(s), mem[..], buf)
    ensures OnlyChanged(old(mem[..]), mem[..], buf, end)
  {
    PutWord(mem, buf, |s|);
    for i := 0 to |s|
      invariant WordAt(mem[..], buf) == |s|
      invariant forall j :: 0 <= j < i ==> mem[buf + 4 + j] == LogicalByte(s[j])
      invariant OnlyChanged(old(mem[..]), mem[..], buf, buf + 4 + i)
    {
      mem[buf + 4 + i] := LogicalByte(s[i]);
    }
    // pad by 0xff to a multiple of 4
    end := buf + 4 + Align(|s|);
    Fill(mem, buf + 4 + |s|, end, 0xff);
  }

  lemma {:induction false} EscapedAllGrows(s: seq<RString>, i: nat, j: nat)
    requires i <= j <= |s|
    ensures |EscapedAll(s, i)| <= |EscapedAll(s, j)|
    decreases j
  {
    hide Escaped;
    if i < j {
      EscapedAllGrows(s, i, j - 1);
    }
  }

  /** Stores one element: 0xff NUL for NA, and a leading 0xff doubled. */
  method StoreElement(mem: array<byte>, from: nat, s: RString) returns (st: nat)
    requires from + |Escaped(s)| <= mem.Length
    modifies mem
    ensures st == from + |Escaped(s)| && mem[from..st] == Escaped(s)
    ensures OnlyChanged(old(mem[..]), mem[..], from, st)
  {
    st := from;
    var cv: seq<byte> := [0xff];
    ghost var lead: seq<byte> := [];
    if s.Text? {
      cv := s.chars;
      if cv != [] && cv[0] == 0xff {
        mem[st] := 0xff;
        st := st + 1;
        lead := [0xff];
      }
    }
    assert mem[from..st] == lead && Escaped(s) == lead + cv + [0];
    StoreText(mem, from, st, cv);
    st := st + |cv| + 1;
  }

  /** Copies a C string behind what is there from offset from on. */
  method StoreText(mem: array<byte>, ghost from: nat, st: nat, cv: seq<byte>)
    requires from <= st && st + |cv| + 1 <= mem.Length
    modifies mem
    ensures mem[from..st + |cv| + 1] == old(mem[from..st]) + cv + [0]
    ensures OnlyChanged(old(mem[..]), mem[..], st, st + |cv| + 1)
  {
    CopyBytes(mem, st, cv);
    mem[st + |cv|] := 0;
    assert mem[st..st + |cv|] == cv;
    assert mem[from..st + |cv| + 1] == mem[from..st] + mem[st..st + |cv|] + [mem[st + |cv|]];
  }

  /** The elements one behind the other. */
  method StoreElements(mem: array<byte>, buf: nat, s: seq<RString>) returns (st: nat)
    requires buf + |EscapedAll(s, |s|)| <= mem.Length
    modifies mem
    ensures st == buf + |EscapedAll(s, |s|)|
    ensures mem[buf..st] == EscapedAll(s, |s|)
    ensures OnlyChanged(old(mem[..]), mem[..], buf, st)
  {
    hide Escaped;
    st := buf;
    for i := 0 to |s|
      invariant st == buf + |EscapedAll(s, i)| <= mem.Length
      invariant mem[buf..st] == EscapedAll(s, i)
      invariant OnlyChanged(old(mem[..]), mem[..], buf, st)
    {
      EscapedAllGrows(s, i + 1, |s|);
      ghost var done, from := mem[buf..st], st;
      st := StoreElement(mem, st, s[i]);
      assert mem[buf..st] == mem[buf..from] + mem[from..st] && mem[buf..from] == done;
    }
  }

  method StoreStrings(mem: array<byte>, buf: nat, s: seq<RString>) returns (end: nat)
    requires buf + AtomSize(Strings(s)) <= mem.Length
    modifies mem
    ensures end == buf + AtomSize(Strings(s))
    ensures AtomAt(Strings(s), mem[..], buf) && PaddedAt(Strings(s), mem[..], buf)
    ensures OnlyChanged(old(mem[..]), mem[..], buf, end)
  {
    hide EscapedAll;
    var st := StoreElements(mem, buf, s);
    // pad with 1 so that the number of elements can be told
    end := st + (4 - (st - buf) % 4) % 4;
    Fill(mem, st, end, 1);
    assert mem[..][buf..st] == EscapedAll(s, |s|);
  }

  method StoreName(mem: array<byte>, buf: nat, s: seq<byte>) returns (end: nat)
    requires buf + Align(|s| + 1) <= mem.Length
    modifies mem
    ensures end == buf + Align(|s| + 1)
    ensures mem[buf..buf + |s|] == s
    ensures forall i :: buf + |s| <= i < end ==> mem[i] == 0
    ensures OnlyChanged(old(mem[..]), mem[..], buf, end)
  {
    CopyBytes(mem, buf, s);
    end := buf + Align(|s| + 1);
    Fill(mem, buf + |s|, end, 0);
  }

  /** Stores the data of a body without parts. */
  method StoreAtom(mem: array<byte>, buf: nat, b: Body) returns (end: nat)
    requires buf + AtomSize(b) <= mem.Length
    requires NodeIsR(Sexp(NoAttributes, b)) && SlotCount(b) == 0
    modifies mem
    ensures end == buf + AtomSize(b) && AtomAt(b, mem[..], buf) && PaddedAt(b, mem[..], buf)
    ensures OnlyChanged(old(mem[..]), mem[..], buf, end)
  {
    match b
    case Ints(s) => end := StoreInts(mem, buf, s);
    case Reals(s) => end := StoreReals(mem, buf, s);
    case Complexes(s) => end := StoreComplexes(mem, buf, s);
    case Raw(s) => end := StoreRaw(mem, buf, s);
    case Logicals(s) => end := StoreLogicals(mem, buf, s);
    case Strings(s) => end := StoreStrings(mem, buf, s);
    case Symbol(s) => end := StoreName(mem, buf, s);
      assert mem[..][buf..buf + |s|] == s;
    case CharString(s) => end := StoreName(mem, buf, s);
      assert mem[..][buf..buf + |s|] == s;
    case Other(t) => PutWord(mem, buf, t);
      end := buf + 4;
    case _ => end := buf;
  }

  // ---- nested values ----

  /** The first n nested values of x are in place behind the header that ends at base. */
  ghost predicate KidsStored(x: Sexp, m: seq<byte>, base: nat, n: nat)
    requires n <= KidCount(x)
  {
    forall j :: 0 <= j < n ==> Stored(Kid(x, j), Storage(Kid(x, j)), m, base + KidOffset(x, j))
  }

  lemma KidsFrame(x: Sexp, m: seq<byte>, m': seq<byte>, base: nat, n: nat)
    requires n <= KidCount(x) && KidsStored(x, m, base, n)
    requires SameOn(m, m', base, base + KidOffset(x, n))
    ensures KidsStored(x, m', base, n)
  {
    hide Storage, Stored, KidOffset, Slot, SlotCount, AtomSize;
    forall j | 0 <= j < n
      ensures Stored(Kid(x, j), Storage(Kid(x, j)), m', base + KidOffset(x, j))
    {
      KidWithin(x, j, n);
      KidFrame(Kid(x, j), m, m', base + KidOffset(x, j), base, base + KidOffset(x, n));
    }
  }

  lemma KidWithin(x: Sexp, j: nat, n: nat)
    requires j < n <= KidCount(x)
    ensures KidOffset(x, j) + SizeAs(Kid(x, j), Storage(Kid(x, j))) <= KidOffset(x, n)
  {
    hide Storage, KidOffset, Slot, SlotCount, AtomSize, Payload;
    KidOffsetStep(x, j);
    KidOffsetOrder(x, j + 1, n);
  }

  lemma KidFrame(y: Sexp, m: seq<byte>, m': seq<byte>, o: nat, from: nat, to: nat)
    requires Stored(y, Storage(y), m, o) && from <= o && o + SizeAs(y, Storage(y)) <= to && SameOn(m, m', from, to)
    ensures Stored(y, Storage(y), m', o)
  {
    hide Storage, Stored, SizeAs;
    StoredFrame(y, Storage(y), m, m', o);
  }

  lemma KidOffsetOrder(x: Sexp, i: nat, j: nat)
    requires i <= j <= KidCount(x)
    ensures KidOffset(x, i) <= KidOffset(x, j)
  {
    SumMonotone(KidSizes(x), i, j);
  }

  /** Stores the k-th nested value of x behind the ones before it. */
  method StoreKid(mem: array<byte>, ghost base: nat, b: nat, kid: Sexp, ghost x: Sexp, ghost k: nat) returns (end: nat)
    requires IsR(x) && k < KidCount(x) && kid == Kid(x, k)
    requires base + KidOffset(x, KidCount(x)) <= mem.Length
    requires b == base + KidOffset(x, k) && KidsStored(x, mem[..], base, k)
    modifies mem
    ensures b <= end == base + KidOffset(x, k + 1) && KidsStored(x, mem[..], base, k + 1)
    ensures OnlyChanged(old(mem[..]), mem[..], b, end)
    decreases kid, 5
  {
    hide Storage, Stored, KidOffset, Slot, SlotCount, AtomSize, Payload;
    KidOffsetStep(x, k);
    end := StoreSexp(mem, b, kid, 0);
    KidsFrame(x, old(mem[..]), mem[..], base, k);
  }

  /** Stores the cells of a pairlist: each car, followed by its tag in a tagged list. */
  method StoreCells(mem: array<byte>, ghost base: nat, from: nat, cells: seq<Cell>, tagged: bool, ghost x: Sexp)
    returns (end: nat)
    requires IsR(x) && x.body.Pairs? && cells == x.body.cells && tagged == IsTagged(cells)
    requires base + KidOffset(x, KidCount(x)) <= mem.Length
    requires from == base + KidOffset(x, AttrCount(x)) && KidsStored(x, mem[..], base, AttrCount(x))
    modifies mem
    ensures end == base + KidOffset(x, KidCount(x)) && KidsStored(x, mem[..], base, KidCount(x))
    ensures from <= end && OnlyChanged(old(mem[..]), mem[..], from, end)
    decreases cells, 2
  {
    hide Storage, Stored, KidOffset, AtomSize, Payload, KidsStored, IsTagged;
    ghost var a, per := AttrCount(x), if tagged then 2 else 1;
    end := from;
    var l := 0;
    while l < |cells|
      invariant l <= |cells| && from <= end == base + KidOffset(x, a + per * l)
      invariant KidsStored(x, mem[..], base, a + per * l)
      invariant OnlyChanged(old(mem[..]), mem[..], from, end)
    {
      end := StoreKid(mem, base, end, cells[l].car, x, a + per * l);
      if tagged {
        end := StoreKid(mem, base, end, cells[l].tag, x, a + per * l + 1);
      }
      l := l + 1;
    }
  }

  /** Stores the parts of a body: vector elements, or cars each followed by its tag when
      some tag is set, or the formals and code of a closure. */
  method StoreParts(mem: array<byte>, ghost base: nat, from: nat, b: Body, ghost x: Sexp) returns (end: nat)
    requires IsR(x) && b == x.body && SlotCount(b) > 0
    requires base + KidOffset(x, KidCount(x)) <= mem.Length
    requires from == base + KidOffset(x, AttrCount(x)) && KidsStored(x, mem[..], base, AttrCount(x))
    modifies mem
    ensures end == base + KidOffset(x, KidCount(x)) && KidsStored(x, mem[..], base, KidCount(x))
    ensures from <= end && OnlyChanged(old(mem[..]), mem[..], from, end)
    decreases b, 3
  {
    hide Storage, Stored, KidOffset, AtomSize, Payload, KidsStored;
    ghost var a := AttrCount(x);
    end := from;
    match b {
      case Vector(_, elems) =>
        var i := 0;
        while i < |elems|
          invariant i <= |elems| && from <= end == base + KidOffset(x, a + i)
          invariant KidsStored(x, mem[..], base, a + i)
          invariant OnlyChanged(old(mem[..]), mem[..], from, end)
        {
          end := StoreKid(mem, base, end, elems[i], x, a + i);
          i := i + 1;
        }
      case Pairs(_, cells) =>
        var l, tags := 0, 0;
        while l < |cells|
          invariant l <= |cells| && (tags > 0 <==> exists i :: 0 <= i < l && cells[i].tag != NIL)
        {
          if cells[l].tag != NIL {
            tags := tags + 1;
          }
          l := l + 1;
        }
        end := StoreCells(mem, base, end, cells, tags > 0, x);
      case Closure(formals, code) =>
        end := StoreKid(mem, base, end, formals, x, a);
        end := StoreKid(mem, base, end, code, x, a + 1);
    }
  }

  /** The size storeSEXP goes by: zero asks for the estimate. */
  function Expected(x: Sexp, storageSize: nat): nat
  {
    if storageSize == 0 then Storage(x) else storageSize
  }

  /** storeSEXP: writes the type word, the attributes and the data at buf, then patches the
      length into the header, whose size was chosen from the expected size beforehand. */
  method StoreSexp(mem: array<byte>, buf: nat, x: Sexp, storageSize: nat) returns (end: nat)
    requires IsR(x)
    requires buf + SizeAs(x, Expected(x, storageSize)) <= mem.Length
    modifies mem
    ensures end == buf + SizeAs(x, Expected(x, storageSize))
    ensures Stored(x, Expected(x, storageSize), mem[..], buf)
    ensures OnlyChanged(old(mem[..]), mem[..], buf, end)
    decreases x, 4
  {
    hide *;
    var ss := storageSize;
    if ss == 0 {
      ss := GetStorageSize(x);
    }
    assert ss == Expected(x, storageSize) by { IsExpected(x, storageSize); }
    end := StoreAs(mem, buf, x, ss);
  }

  lemma IsExpected(x: Sexp, storageSize: nat)
    ensures Expected(x, storageSize) == if storageSize == 0 then Storage(x) else storageSize
  {
  }

  method StoreAs(mem: array<byte>, buf: nat, x: Sexp, ss: nat) returns (end: nat)
    requires IsR(x) && buf + SizeAs(x, ss) <= mem.Length
    modifies mem
    ensures end == buf + SizeAs(x, ss) && Stored(x, ss, mem[..], buf)
    ensures OnlyChanged(old(mem[..]), mem[..], buf, end)
    decreases x, 3
  {
    hide Storage, KidOffset, TypeCode, AtomSize, KidsStored, Slot, AtomAt, PaddedAt, SlotCount, Stored, IsTagged,
      Payload;
    var b := buf + HeadSize(x, ss) - 4;
    PutWord(mem, b, TypeByte(x));
    b := StorePayload(mem, b + 4, x);
    ghost var m2 := mem[..];
    PatchHeader(mem, buf, b, HeadSize(x, ss) == 8, TypeByte(x));
    end := b;
    Assemble(x, ss, m2, mem[..], buf);
  }

  /** What follows the type word. */
  method StorePayload(mem: array<byte>, base: nat, x: Sexp) returns (end: nat)
    requires IsR(x) && base + Payload(x) <= mem.Length
    modifies mem
    ensures end == base + Payload(x) && KidsStored(x, mem[..], base, KidCount(x))
    ensures var a := base + KidOffset(x, KidCount(x));
      AtomAt(x.body, mem[..], a) && PaddedAt(x.body, mem[..], a)
    ensures OnlyChanged(old(mem[..]), mem[..], base, end)
    decreases x, 2
  {
    hide Storage, KidOffset, AtomSize, KidsStored, Slot, AtomAt, PaddedAt, SlotCount, Stored, Payload;
    end := base;
    NoneStored(x, mem[..], base);
    PayloadCovers(x);
    if x.attr.Attributes? {
      end := StoreKid(mem, base, end, x.attr.list, x, 0);
    }
    end := StoreBody(mem, base, end, x.body, x);
  }

  lemma PayloadCovers(x: Sexp)
    ensures KidOffset(x, KidCount(x)) + AtomSize(x.body) == Payload(x)
  {
  }

  /** Puts the length of what was stored between preBuf and buf into the header, which so
      far holds only the type. */
  method PatchHeader(mem: array<byte>, preBuf: nat, buf: nat, isLarge: bool, ghost ty: byte)
    requires preBuf + (if isLarge then 8 else 4) <= buf <= mem.Length
    requires ty + XT_LARGE < 0x100
    requires WordAt(mem[..], if isLarge then preBuf + 4 else preBuf) == ty
    modifies mem
    ensures OnlyChanged(old(mem[..]), mem[..], preBuf, preBuf + if isLarge then 8 else 4)
    ensures !isLarge ==> WordAt(mem[..], preBuf) == SET_PAR(ty, buf - preBuf - 4)
    ensures isLarge ==> WordAt(mem[..], preBuf) == SET_PAR(ty + XT_LARGE, buf - preBuf - 8)
    ensures isLarge ==> WordAt(mem[..], preBuf + 4) == (buf - preBuf - 8) / LEN24 % 0x1_0000_0000
  {
    if isLarge {
      var txlen := buf - preBuf - 8;
      LowByte(mem[..], preBuf + 4, ty);
      PutWord(mem, preBuf, SET_PAR(mem[preBuf + 4] + XT_LARGE, txlen));
      PutWord(mem, preBuf + 4, txlen / LEN24 % 0x1_0000_0000);
    } else {
      LowByte(mem[..], preBuf, ty);
      PutWord(mem, preBuf, SET_PAR(mem[preBuf], buf - preBuf - 4));
    }
  }

  lemma LowByte(m: seq<byte>, o: nat, b: byte)
    requires o + 4 <= |m| && WordAt(m, o) == b
    ensures m[o] == b
  {
  }

  lemma NoneStored(x: Sexp, m: seq<byte>, base: nat)
    ensures KidsStored(x, m, base, 0) && KidOffset(x, 0) == 0
  {
  }

  /** The stored value is complete once its header is, since patching touches nothing else. */
  lemma Assemble(x: Sexp, ss: nat, m: seq<byte>, m': seq<byte>, o: nat)
    requires o + SizeAs(x, ss) <= |m| && SameOn(m, m', o + HeadSize(x, ss), o + SizeAs(x, ss))
    requires KidsStored(x, m, o + HeadSize(x, ss), KidCount(x))
    requires var a := o + HeadSize(x, ss) + KidOffset(x, KidCount(x));
      AtomAt(x.body, m, a) && PaddedAt(x.body, m, a)
    requires HeaderStored(x, ss, m', o)
    ensures Stored(x, ss, m', o)
  {
    hide AtomAt, PaddedAt, HeaderStored, KidOffset, Storage, Slot, SlotCount, AtomSize, OwnBytesStored, HeadSize, Size;
    PayloadCovers(x);
    KidsFrame(x, m, m', o + HeadSize(x, ss), KidCount(x));
    OwnBytesMoved(x, ss, m, m', o);
  }

  lemma OwnBytesMoved(x: Sexp, ss: nat, m: seq<byte>, m': seq<byte>, o: nat)
    requires o + SizeAs(x, ss) <= |m| && SameOn(m, m', o + HeadSize(x, ss), o + SizeAs(x, ss))
    requires var a := o + HeadSize(x, ss) + KidOffset(x, KidCount(x));
      a + AtomSize(x.body) == o + SizeAs(x, ss) && AtomAt(x.body, m, a) && PaddedAt(x.body, m, a)
    requires HeaderStored(x, ss, m', o)
    ensures OwnBytesStored(x, ss, m', o)
  {
    hide AtomAt, PaddedAt, HeaderStored, KidOffset, Storage, Slot, SlotCount, AtomSize, HeadSize, Size, KidCount;
    AtomFrame(x.body, m, m', o + HeadSize(x, ss) + KidOffset(x, KidCount(x)));
  }

  /** Stores what follows the attributes. */
  method StoreBody(mem: array<byte>, ghost base: nat, from: nat, b: Body, ghost x: Sexp) returns (end: nat)
    requires IsR(x) && b == x.body && base + Payload(x) <= mem.Length
    requires from == base + KidOffset(x, AttrCount(x)) && KidsStored(x, mem[..], base, AttrCount(x))
    modifies mem
    ensures end == base + Payload(x) && KidsStored(x, mem[..], base, KidCount(x))
    ensures var a := base + KidOffset(x, KidCount(x));
      AtomAt(b, mem[..], a) && PaddedAt(b, mem[..], a)
    ensures from <= end && OnlyChanged(old(mem[..]), mem[..], from, end)
    decreases b, 4
  {
    hide Storage, KidOffset, KidsStored, Stored, Escaped, EscapedAll;
    if SlotCount(b) > 0 {
      end := StoreParts(mem, base, from, b, x);
    } else {
      end := StoreAtom(mem, from, b);
      KidsFrame(x, old(mem[..]), mem[..], base, AttrCount(x));
    }
  }
}
