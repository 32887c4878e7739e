/** The Java client's parser (REXPFactory.parseREXP). */
module JavaParse {
  import opened Bytes
  import opened Rsrv
  import opened Sexps
  import opened QapDecode
  import opened RTalk

  /** What one call does. Parsed: it leaves a value and returns an offset. Threw: an exception
      ends it. NoContent: for a type that has no representation in Java, in the value or in one
      nested in it, it leaves the content null; what it makes of the rest is not followed.
      LeftOut: it meets what this model leaves out, the old recursive types and lengths that are
      negative or reach beyond the largest index. */
  datatype Parse = Parsed(value: Sexp, next: nat) | Threw | NoContent | LeftOut

  /** The values a loop collected, or why it did not end. */
  datatype Run<T> = Items(items: seq<T>) | Failed(why: Parse)

  function Rest(m: seq<byte>, o: nat): nat { if o <= |m| then |m| - o else 0 }

  // ---- RList ----

  /** A key of an RList: null or a string. */
  datatype Key = NoKey | Key(chars: seq<byte>)

  function TagOf(k: Key): Sexp
  {
    match k case NoKey => NIL case Key(c) => Sexp(NoAttributes, Symbol(c))
  }

  /** names.indexOf(name), or the number of cells if there is none. */
  function KeyIndex(cells: seq<Cell>, name: seq<byte>): (i: nat)
    ensures i <= |cells|
    ensures forall j :: 0 <= j < i ==> cells[j].tag != TagOf(Key(name))
    ensures i < |cells| ==> cells[i].tag == TagOf(Key(name))
  {
    if cells == [] || cells[0].tag == TagOf(Key(name)) then 0 else 1 + KeyIndex(cells[1..], name)
  }

  /** RList.add without a key, and RList.put, which overwrites the value that has the key. */
  function Put(cells: seq<Cell>, v: Sexp, k: Key): (r: seq<Cell>)
    ensures |r| == |cells| + if k.Key? && KeyIndex(cells, k.chars) < |cells| then 0 else 1
  {
    if k.Key? && KeyIndex(cells, k.chars) < |cells| then
      cells[KeyIndex(cells, k.chars) := Cell(v, TagOf(k))]
    else
      cells + [Cell(v, TagOf(k))]
  }

  /** Which cell is written: behind all others if there is no key or a new one, and otherwise in
      place of the first that has the key, all others staying what and where they are. */
  lemma PutPlaces(cells: seq<Cell>, v: Sexp, k: Key)
    ensures k.NoKey? || (forall j :: 0 <= j < |cells| ==> cells[j].tag != TagOf(k)) <==>
              Put(cells, v, k) == cells + [Cell(v, TagOf(k))]
    ensures forall p :: 0 <= p < |cells| && k.Key? && cells[p].tag == TagOf(k)
                        && (forall j :: 0 <= j < p ==> cells[j].tag != TagOf(k))
              ==> Put(cells, v, k) == cells[..p] + [Cell(v, TagOf(k))] + cells[p + 1..]
  {
    if k.Key? && KeyIndex(cells, k.chars) < |cells| {
      var q := KeyIndex(cells, k.chars);
      assert Put(cells, v, k) == cells[..q] + [Cell(v, TagOf(k))] + cells[q + 1..];
      forall p | 0 <= p < |cells| && cells[p].tag == TagOf(k) && (forall j :: 0 <= j < p ==> cells[j].tag != TagOf(k))
        ensures p == q
      {
      }
    }
  }

  /** The key a parsed tag stands for; asString of an empty string vector has no element. */
  function KeyIn(t: Sexp): Key
    requires t.body != Strings([])
  {
    match t.body
    case Symbol(s) => Key(s)
    case Strings(s) => if s[0].Text? then Key(s[0].chars) else NoKey
    case _ => NoKey
  }

  const NAMES: seq<byte> := [0x6e, 0x61, 0x6d, 0x65, 0x73]

  lemma NamesText()
    ensures |NAMES| == 5 && forall i :: 0 <= i < 5 ==> NAMES[i] as char == "names"[i]
  {
  }

  /** asString finds a string: the type has them, and there is at least one. */
  predicate HasString(b: Body)
  {
    match b
    case Symbol(_) => true
    case Strings(s) => s != []
    case Ints(s) => s != []
    case Reals(s) => s != []
    case Logicals(s) => s != []
    case _ => false
  }

  /** The "names" attribute of a vector raises no exception: strings are taken as they are, what
      is no vector is passed over, and other vectors must be lists, of values with a string. */
  predicate NamesUsable(attr: Attributes)
  {
    attr.NoAttributes? || !attr.list.body.Pairs? ||
    var cells := attr.list.body.cells;
    var i := KeyIndex(cells, NAMES);
    i == |cells| ||
    match cells[i].car.body
    case Vector(_, elems) => forall j :: 0 <= j < |elems| ==> HasString(elems[j].body)
    case Pairs(_, names) => forall j :: 0 <= j < |names| ==> HasString(names[j].car.body)
    case Ints(_) => false
    case Reals(_) => false
    case Logicals(_) => false
    case Raw(_) => false
    case _ => true
  }

  // ---- the parser as a function ----

  predicate IsScalar(xt: nat) { xt == XT_INT || xt == XT_DOUBLE || xt == XT_BOOL || xt == XT_ARRAY_BOOL_UA }

  /** Types that only old servers send: single values, and logicals without a count. */
  function ParseScalar(m: seq<byte>, xt: nat, b: nat, eox: nat): (r: Parse)
    requires IsScalar(xt)
    ensures r.Parsed? ==> r.next == eox && r.value.attr.NoAttributes?
  {
    if xt == XT_INT then
      if b + 4 > |m| then Threw else Parsed(Sexp(NoAttributes, Ints([WordAt(m, b)])), eox)
    else if xt == XT_DOUBLE then
      if b + 8 > |m| then Threw else Parsed(Sexp(NoAttributes, Reals([DoubleOf(m, b)])), eox)
    else if xt == XT_BOOL then
      if b >= |m| then Threw else Parsed(Sexp(NoAttributes, Logicals([LogicalOf(m[b])])), eox)
    else if eox < b || eox > |m| then Threw
    else Parsed(Sexp(NoAttributes, Logicals(seq(eox - b, i requires 0 <= i < eox - b => LogicalOf(m[b + i])))), eox)
  }

  /** A call on data at b that is to end at eox returns one of the two, and one beyond eox only
      where there is nothing to read. */
  predicate EndsAt(r: Parse, b: nat, eox: nat)
  {
    && r.Parsed? && r.value.attr.NoAttributes? && (r.next == eox || r.next == b)
    && (r.next > eox ==> r.value.body == Strings([]) || r.value.body.Null?)
  }

  /** Where the text at b ends: at the first NUL before eox. */
  function TextEnd(m: seq<byte>, b: nat, eox: nat): (i: nat)
    requires b < |m| && (NulAfter(m, b) < |m| || eox < |m|)
    ensures b <= i < |m|
  {
    if eox <= b then b else if NulAfter(m, b) < eox then NulAfter(m, b) else eox
  }

  /** Values without nested values, the data starting at b and ending at eox, which is before b if
      the attributes are longer than the value. */
  function ParseAtom(m: seq<byte>, xt: nat, b: nat, eox: nat): (r: Parse)
    ensures r.Parsed? ==> EndsAt(r, b, eox)
  {
    if xt == XT_NULL then Parsed(NIL, b)
    else if xt == XT_ARRAY_DOUBLE then
      if eox <= b < eox + 8 then Parsed(Sexp(NoAttributes, Reals([])), eox)
      else if eox < b || (eox - b) % 8 != 0 || eox > |m| then Threw
      else
        var n := (eox - b) / 8;
        Parsed(Sexp(NoAttributes, Reals(seq(n, i requires 0 <= i < n => DoubleOf(m, b + 8 * i)))), eox)
    else if xt == XT_ARRAY_BOOL then
      if b + 4 > |m| || WordAt(m, b) > MAX_INT32 || b + 4 + WordAt(m, b) > |m| then Threw
      else
        var n := WordAt(m, b);
        Parsed(Sexp(NoAttributes, Logicals(seq(n, i requires 0 <= i < n => LogicalOf(m[b + 4 + i])))), eox)
    else if xt == XT_ARRAY_INT then
      if eox <= b < eox + 4 then Parsed(Sexp(NoAttributes, Ints([])), eox)
      else if eox < b || (eox - b) % 4 != 0 || eox > |m| then Threw
      else
        var n := (eox - b) / 4;
        Parsed(Sexp(NoAttributes, Ints(seq(n, i requires 0 <= i < n => WordAt(m, b + 4 * i)))), eox)
    else if xt == XT_RAW then
      if b + 4 > |m| || WordAt(m, b) > MAX_INT32 || b + 4 + WordAt(m, b) > |m| then Threw
      else Parsed(Sexp(NoAttributes, Raw(m[b + 4..b + 4 + WordAt(m, b)])), eox)
    else if xt == XT_ARRAY_STR then
      if eox <= b then Parsed(Sexp(NoAttributes, Strings([])), b)
      else if eox > |m| then Threw
      else
        var s := StringsOf(m, b, b, eox);
        Parsed(Sexp(NoAttributes, Strings(s)), if s == [] then b else eox)
    else if xt == XT_STR || xt == XT_SYMNAME then
      if b >= |m| || (NulAfter(m, b) == |m| && eox >= |m|) then Threw
      else
        var i := TextEnd(m, b, eox);
        Parsed(Sexp(NoAttributes, if xt == XT_STR then Strings([Text(m[b..i])]) else Symbol(m[b..i])), eox)
    else if xt == XT_S4 then Parsed(Sexp(NoAttributes, S4), eox)
    else if xt == XT_UNKNOWN then
      if b + 4 > |m| then Threw else Parsed(Sexp(NoAttributes, Other(WordAt(m, b))), eox)
    else if IsScalar(xt) then ParseScalar(m, xt, b, eox)
    else if xt == XT_LIST || xt == XT_LANG || xt == XT_SYM || xt == XT_VECTOR_STR then LeftOut
    else NoContent
  }

  /** The value with the parsed attributes; a symbol drops them, and for all others they have
      to be a pairlist. */
  function WithAttr(r: Parse, a: Sexp): Parse
  {
    if !r.Parsed? || r.value.body.Symbol? then r
    else if !a.body.Pairs? then Threw
    else Parsed(Sexp(Attributes(a), r.value.body), r.next)
  }

  /** parseREXP at offset o. */
  function ParseAt(m: seq<byte>, o: nat): (r: Parse)
    ensures r.Parsed? ==> o < r.next && o + 4 <= |m|
    decreases Rest(m, o), 0
  {
    if o + 4 > |m| || (IS_LARGE(m[o]) && o + 5 > |m|) then Threw else
    var b := o + if IS_LARGE(m[o]) then 8 else 4;
    var eox := b + GetLen(m, o);
    if eox > MAX_INT32 then LeftOut
    else if HAS_ATTR(m[o]) then ParseAttributed(m, GET_XT(m[o]), b, eox)
    else ParseBody(m, GET_XT(m[o]), b, eox, NoAttributes)
  }

  /** A value with attributes, its header ending at b. */
  function ParseAttributed(m: seq<byte>, xt: nat, b: nat, eox: nat): (r: Parse)
    ensures r.Parsed? ==> r.next > b || r.next == eox
    decreases Rest(m, b), 3
  {
    var a := ParseAt(m, b);
    if !a.Parsed? then a
    else WithAttr(ParseBody(m, xt, a.next, eox, Attributes(a.value)), a.value)
  }

  /** The cases of parseREXP behind the attributes. */
  function ParseBody(m: seq<byte>, xt: nat, b: nat, eox: nat, attr: Attributes): (r: Parse)
    ensures r.Parsed? ==> EndsAt(r, b, eox)
    decreases Rest(m, b), 2
  {
    if IsPairType(xt) then
      var l := ParseCells(m, xt == XT_LIST_TAG || xt == XT_LANG_TAG, b, eox, []);
      if l.Failed? then l.why
      else Parsed(Sexp(NoAttributes, Pairs(xt == XT_LANG_NOTAG || xt == XT_LANG_TAG, l.items)), eox)
    else if xt == XT_VECTOR || xt == XT_VECTOR_EXP then
      var v := ParseElems(m, b, eox, []);
      if v.Failed? then v.why
      else if !NamesUsable(attr) then Threw
      else Parsed(Sexp(NoAttributes, Vector(xt == XT_VECTOR_EXP, v.items)), eox)
    else
      ParseAtom(m, xt, b, eox)
  }

  function ParseElems(m: seq<byte>, cur: nat, eox: nat, acc: seq<Sexp>): (v: Run<Sexp>)
    ensures v.Items? ==> acc <= v.items
    ensures v.Failed? ==> !v.why.Parsed?
    decreases Rest(m, cur), 1
  {
    if cur >= eox then Items(acc) else
    var xx := ParseAt(m, cur);
    if !xx.Parsed? then Failed(xx) else ParseElems(m, xx.next, eox, acc + [xx.value])
  }

  function ParseCells(m: seq<byte>, tagged: bool, cur: nat, eox: nat, acc: seq<Cell>): (l: Run<Cell>)
    ensures l.Failed? ==> !l.why.Parsed?
    decreases Rest(m, cur), 1
  {
    if cur >= eox then Items(acc) else
    var lc := ParseAt(m, cur);
    if !lc.Parsed? then Failed(lc)
    else if !tagged then ParseCells(m, tagged, lc.next, eox, Put(acc, lc.value, NoKey)) else
    var nf := ParseAt(m, lc.next);
    if !nf.Parsed? then Failed(nf)
    else if nf.value.body == Strings([]) then Failed(Threw)
    else ParseCells(m, tagged, nf.next, eox, Put(acc, lc.value, KeyIn(nf.value)))
  }

  // ---- the parser itself ----

  datatype Ending = Returned | Exception | Empty | Unmodelled

  /** The call left this value and offset, or ended, as the specification says. */
  ghost predicate Follows(r: Parse, st: Ending, cont: Sexp, next: nat)
  {
    match r
    case Parsed(v, n) => st.Returned? && cont == v && next == n
    case Threw => st.Exception?
    case NoContent => st.Empty?
    case LeftOut => st.Unmodelled?
  }

  /** The factory object: every call overwrites its fields. */
  class REXPFactory {
    var attr: Attributes
    var cont: Sexp

    constructor ()
    {
      attr, cont := NoAttributes, NIL;
    }

    method ParseREXP(buf: seq<byte>, from: nat) returns (st: Ending, o: nat)
      modifies this
      ensures Follows(ParseAt(buf, from), st, cont, o)
      decreases Rest(buf, from), 0
    {
      o := from;
      if o + 4 > |buf| || (IS_LARGE(buf[o]) && o + 5 > |buf|) {
        return Exception, o;
      }
      var xl, hasAtt, isLong, xt := GetLen(buf, o), HAS_ATTR(buf[o]), IS_LARGE(buf[o]), GET_XT(buf[o]);
      if isLong {
        o := o + 4;
      }
      o := o + 4;
      var eox := o + xl;
      hide ParseBody, ParseAttributed, GetLen;
      if eox > MAX_INT32 {
        return Unmodelled, o;
      }
      attr := NoAttributes;
      if hasAtt {
        st, o := ParseWithAttributes(buf, xt, o, eox);
      } else {
        st, o := ParseData(buf, xt, o, eox);
      }
    }

    /** The attributes, which another factory parses, and the data behind them. */
    method ParseWithAttributes(buf: seq<byte>, xt: nat, b: nat, eox: nat) returns (st: Ending, o: nat)
      modifies this
      ensures Follows(ParseAttributed(buf, xt, b, eox), st, cont, o)
      decreases Rest(buf, b), 3
    {
      hide ParseAt, ParseBody;
      var a := new REXPFactory();
      st, o := a.ParseREXP(buf, b);
      if !st.Returned? {
        return;
      }
      attr := Attributes(a.cont);
      st, o := ParseData(buf, xt, o, eox);
      if st.Returned? && !cont.body.Symbol? {
        if !attr.list.body.Pairs? {
          return Exception, o;
        }
        cont := Sexp(attr, cont.body);
      }
    }

    /** The cases by type. */
    method ParseData(buf: seq<byte>, xt: nat, b: nat, eox: nat) returns (st: Ending, o: nat)
      modifies this`cont
      ensures Follows(ParseBody(buf, xt, b, eox, attr), st, cont, o)
      decreases Rest(buf, b), 2
    {
      hide NamesUsable, ParseAtom, ParseAt, ParseElems, ParseCells;
      if IsPairType(xt) {
        var l;
        st, l := ParseList(buf, xt == XT_LIST_TAG || xt == XT_LANG_TAG, b, eox);
        cont := Sexp(NoAttributes, Pairs(xt == XT_LANG_NOTAG || xt == XT_LANG_TAG, l));
        o := eox;
      } else if xt == XT_VECTOR || xt == XT_VECTOR_EXP {
        var v;
        st, v := ParseVector(buf, b, eox);
        if st.Returned? && !NamesUsable(attr) {
          st := Exception;
        }
        cont := Sexp(NoAttributes, Vector(xt == XT_VECTOR_EXP, v));
        o := eox;
      } else {
        st, o := ParseArray(buf, xt, b, eox);
      }
    }

    method ParseArray(buf: seq<byte>, xt: nat, b: nat, eox: nat) returns (st: Ending, o: nat)
      modifies this`cont
      ensures Follows(ParseAtom(buf, xt, b, eox), st, cont, o)
    {
      st, o := Returned, eox;
      cont := NIL;
      if xt == XT_NULL {
        o := b;
      } else if xt == XT_ARRAY_DOUBLE {
        if eox + 8 <= b || (eox > b && ((eox - b) % 8 != 0 || eox > |buf|)) {
          return Exception, o;
        }
        var d := Reals([]);
        if eox > b {
          d := ReadReals(buf, b, (eox - b) / 8);
        }
        cont := Sexp(NoAttributes, d);
      } else if xt == XT_ARRAY_INT {
        if eox + 4 <= b || (eox > b && ((eox - b) % 4 != 0 || eox > |buf|)) {
          return Exception, o;
        }
        var d := Ints([]);
        if eox > b {
          d := ReadInts(buf, b, (eox - b) / 4);
        }
        cont := Sexp(NoAttributes, d);
      } else if xt == XT_ARRAY_BOOL || xt == XT_RAW {
        if b + 4 > |buf| || WordAt(buf, b) > MAX_INT32 || b + 4 + WordAt(buf, b) > |buf| {
          return Exception, o;
        }
        var n := WordAt(buf, b);
        var d := Raw(buf[b + 4..b + 4 + n]);
        if xt == XT_ARRAY_BOOL {
          d := ReadLogicals(buf, b + 4, n);
        }
        cont := Sexp(NoAttributes, d);
      } else if xt == XT_ARRAY_STR {
        if b < eox && eox > |buf| {
          return Exception, o;
        }
        var s := Strings([]);
        if b < eox {
          s := ReadStrings(buf, b, eox);
        }
        cont := Sexp(NoAttributes, s);
        if s == Strings([]) {
          o := b;
        }
      } else if xt == XT_STR || xt == XT_SYMNAME {
        var i;
        st, i := FindEnd(buf, b, eox);
        if st.Returned? {
          cont := Sexp(NoAttributes, if xt == XT_STR then Strings([Text(buf[b..i])]) else Symbol(buf[b..i]));
        }
      } else if xt == XT_S4 {
        cont := Sexp(NoAttributes, S4);
      } else if xt == XT_UNKNOWN {
        if b + 4 > |buf| {
          return Exception, o;
        }
        cont := Sexp(NoAttributes, Other(WordAt(buf, b)));
      } else if IsScalar(xt) {
        st := ParseOld(buf, xt, b, eox);
      } else if xt == XT_LIST || xt == XT_LANG || xt == XT_SYM || xt == XT_VECTOR_STR {
        st := Unmodelled;
      } else {
        st := Empty;
      }
    }

    method ParseOld(buf: seq<byte>, xt: nat, b: nat, eox: nat) returns (st: Ending)
      requires IsScalar(xt)
      modifies this`cont
      ensures Follows(ParseScalar(buf, xt, b, eox), st, cont, eox)
    {
      st := Returned;
      if (xt == XT_INT && b + 4 > |buf|) || (xt == XT_DOUBLE && b + 8 > |buf|) || (xt == XT_BOOL && b >= |buf|)
         || (xt == XT_ARRAY_BOOL_UA && (eox < b || eox > |buf|)) {
        return Exception;
      }
      var d := Ints([]);
      if xt == XT_INT {
        d := Ints([WordAt(buf, b)]);
      } else if xt == XT_DOUBLE {
        d := Reals([DoubleOf(buf, b)]);
      } else if xt == XT_BOOL {
        d := Logicals([LogicalOf(buf[b])]);
      } else {
        d := ReadLogicals(buf, b, eox - b);
      }
      cont := Sexp(NoAttributes, d);
    }

    /** The values of a vector. */
    method ParseVector(buf: seq<byte>, b: nat, eox: nat) returns (st: Ending, v: seq<Sexp>)
      ensures RunFollows(ParseElems(buf, b, eox, []), st, v)
      decreases Rest(buf, b), 1
    {
      hide ParseAt;
      v := [];
      var o := b;
      while o < eox
        invariant b <= o && ParseElems(buf, o, eox, v) == ParseElems(buf, b, eox, [])
        decreases Rest(buf, o)
      {
        var xx := new REXPFactory();
        var e, o' := xx.ParseREXP(buf, o);
        if !e.Returned? {
          return e, v;
        }
        v := v + [xx.cont];
        o := o';
      }
      st := Returned;
    }

    /** The values of a list, each followed by its key if the list has tags. */
    method ParseList(buf: seq<byte>, tagged: bool, b: nat, eox: nat) returns (st: Ending, l: seq<Cell>)
      ensures RunFollows(ParseCells(buf, tagged, b, eox, []), st, l)
      decreases Rest(buf, b), 1
    {
      hide ParseAt, Put, KeyIn;
      var lc := new REXPFactory();
      var nf := new REXPFactory();
      l := [];
      var o := b;
      while o < eox
        invariant b <= o && ParseCells(buf, tagged, o, eox, l) == ParseCells(buf, tagged, b, eox, [])
        decreases Rest(buf, o)
      {
        var name := NoKey;
        var e, o' := lc.ParseREXP(buf, o);
        if !e.Returned? {
          return e, l;
        }
        if tagged {
          e, o' := nf.ParseREXP(buf, o');
          if !e.Returned? {
            return e, l;
          }
          if nf.cont.body == Strings([]) {
            return Exception, l;
          }
          name := KeyIn(nf.cont);
        }
        l := Put(l, lc.cont, name);
        o := o';
      }
      st := Returned;
    }
  }

  ghost predicate RunFollows<T>(r: Run<T>, st: Ending, items: seq<T>)
  {
    match r
    case Items(v) => st.Returned? && items == v
    case Failed(why) => !why.Parsed? && Follows(why, st, NIL, 0)
  }

  /** The first NUL before eox, or eox; reading past the buffer is an exception. */
  method FindEnd(buf: seq<byte>, b: nat, eox: nat) returns (st: Ending, i: nat)
    ensures st.Exception? <==> b >= |buf| || (NulAfter(buf, b) == |buf| && eox >= |buf|)
    ensures st.Exception? || st.Returned?
    ensures st.Returned? ==> i == TextEnd(buf, b, eox)
  {
    hide NulAfter;
    i := b;
    while i < |buf| && buf[i] != 0 && i < eox
      invariant b <= i && (i <= eox || i == b) && forall j :: b <= j < i && j < |buf| ==> buf[j] != 0
      invariant b < |buf| ==> i <= NulAfter(buf, b)
      decreases eox - i
    {
      i := i + 1;
    }
    st := if i < |buf| then Returned else Exception;
  }
}
