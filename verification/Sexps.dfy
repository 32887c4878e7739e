/** The R values that travel in QAP1 messages. Strings are byte sequences in the current
    encoding; a double is its two 32-bit halves. */
module Sexps {
  import opened Bytes

  datatype Logical = False | True | LogicalNA

  datatype RString = StringNA | Text(chars: seq<byte>)

  datatype Double = Double(lo: word, hi: word)

  datatype Complex = Complex(re: Double, im: Double)

  /** A value and its attribute list. */
  datatype Sexp = Sexp(attr: Attributes, body: Body)

  /** R's ATTRIB: absent, or a pairlist. */
  datatype Attributes = NoAttributes | Attributes(list: Sexp)

  datatype Body =
    | Null
    | Ints(ints: seq<word>)
    | Reals(reals: seq<Double>)
    | Complexes(complexes: seq<Complex>)
    | Raw(bytes: seq<byte>)
    | Logicals(logicals: seq<Logical>)
    | Strings(strings: seq<RString>)
    | Symbol(name: seq<byte>)
    | CharString(text: seq<byte>)
    | Vector(isExpression: bool, elems: seq<Sexp>)
    | Pairs(isCall: bool, cells: seq<Cell>)
    | S4
    | Closure(formals: Sexp, code: Sexp)
    | Other(sexpType: word)

  datatype Cell = Cell(car: Sexp, tag: Sexp)

  const NIL := Sexp(NoAttributes, Null)

  predicate IsTagged(cells: seq<Cell>)
  {
    exists i :: 0 <= i < |cells| && cells[i].tag != NIL
  }

  /** How many values are stored inside a body: the elements of a vector, the cars of a
      pairlist (each followed by its tag when the list is tagged), a closure's two parts. */
  function SlotCount(b: Body): nat
  {
    match b
    case Vector(_, elems) => |elems|
    case Pairs(_, cells) => if IsTagged(cells) then 2 * |cells| else |cells|
    case Closure(_, _) => 2
    case _ => 0
  }

  function Slot(b: Body, k: nat): (y: Sexp)
    requires k < SlotCount(b)
    ensures b decreases to y
  {
    match b
    case Vector(_, elems) => elems[k]
    case Pairs(_, cells) =>
      if !IsTagged(cells) then cells[k].car
      else if k % 2 == 0 then cells[k / 2].car
      else cells[k / 2].tag
    case Closure(formals, code) => if k == 0 then formals else code
  }

  function AttrCount(x: Sexp): (n: nat)
    ensures n <= 1
  {
    if x.attr.Attributes? then 1 else 0
  }

  /** The values nested directly in x, in the order in which they are stored: first the
      attribute list, then the slots of the body. */
  function KidCount(x: Sexp): nat { AttrCount(x) + SlotCount(x.body) }

  function Kid(x: Sexp, k: nat): (y: Sexp)
    requires k < KidCount(x)
    ensures x decreases to y
  {
    if k < AttrCount(x) then x.attr.list else Slot(x.body, k - AttrCount(x))
  }

  predicate NoNul(s: seq<byte>) { 0 !in s }

  predicate IsTag(x: Sexp) { x == NIL || (x.attr.NoAttributes? && x.body.Symbol?) }

  /** What R guarantees of one node: attributes are a pairlist and NULL and CHARSXP have
      none, pairlists are non-empty with symbols as tags, C strings hold no NUL, and lengths
      are R_len_t. */
  predicate NodeIsR(x: Sexp)
  {
    && (x.attr.Attributes? ==> x.attr.list.body.Pairs? && !x.attr.list.body.isCall)
    && (x.body.Null? || x.body.CharString? ==> x.attr.NoAttributes?)
    && match x.body
       case Ints(s) => |s| <= MAX_INT32
       case Reals(s) => |s| <= MAX_INT32
       case Complexes(s) => |s| <= MAX_INT32
       case Raw(s) => |s| <= MAX_INT32
       case Logicals(s) => |s| <= MAX_INT32
       case Strings(s) => forall i :: 0 <= i < |s| && s[i].Text? ==> NoNul(s[i].chars)
       case Symbol(s) => NoNul(s)
       case CharString(s) => NoNul(s)
       case Pairs(_, cells) => |cells| > 0 && forall i :: 0 <= i < |cells| ==> IsTag(cells[i].tag)
       case _ => true
  }

  predicate IsR(x: Sexp)
    decreases x
  {
    NodeIsR(x) && forall k :: 0 <= k < KidCount(x) ==> IsR(Kid(x, k))
  }

  lemma KidIsR(x: Sexp, k: nat)
    requires IsR(x) && k < KidCount(x)
    ensures IsR(Kid(x, k))
  {
  }
}
