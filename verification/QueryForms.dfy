/** Query strings as browsers make them from the fields of a form, and what parse_query makes of
    them. */
module QueryForms {
  import opened Bytes
  import opened Query

  // ---- application/x-www-form-urlencoded (section 17.13.4.1 of HTML 4.01) ----

  datatype Field = Field(name: seq<byte>, value: seq<byte>)

  /** 0 to 9 and A to F or a to f. */
  function HexDigit(v: nat, upper: bool): byte
    requires v < 16
  {
    if v < 10 then 0x30 + v else (if upper then 0x41 else 0x61) + v - 10
  }

  /** Letters, digits and * - . _ stand for themselves. */
  predicate Plain(b: byte)
  {
    0x41 <= b <= 0x5a || 0x61 <= b <= 0x7a || 0x30 <= b <= 0x39 || b == 0x2a || b == 0x2d || b == 0x2e || b == 0x5f
  }

  /** A blank becomes a plus sign, and every other byte its two hexadecimal digits behind a percent
      sign, in the case that upper says. */
  function EncodeByte(b: byte, upper: bool): seq<byte>
  {
    if Plain(b) then [b] else if b == 0x20 then [0x2b] else [0x25, HexDigit(b / 16, upper), HexDigit(b % 16, upper)]
  }

  function EncodeText(s: seq<byte>, upper: bool): seq<byte>
  {
    if s == [] then [] else EncodeByte(s[0], upper) + EncodeText(s[1..], upper)
  }

  function EncodeField(f: Field, upper: bool): seq<byte>
  {
    EncodeText(f.name, upper) + [0x3d] + EncodeText(f.value, upper)
  }

  /** name=value pairs with ampersands between them. */
  function FormQuery(fs: seq<Field>, upper: bool): seq<byte>
    requires |fs| > 0
  {
    if |fs| == 1 then EncodeField(fs[0], upper)
    else EncodeField(fs[0], upper) + [0x26] + FormQuery(fs[1..], upper)
  }

  // ---- decoding inverts encoding ----

  lemma DigitRead(v: nat, upper: bool)
    requires v < 16
    ensures HexValue(HexDigit(v, upper)) == v && IsHex(HexDigit(v, upper))
  {
  }

  /** One encoded byte is one unit, and decodes to the byte. */
  lemma ByteDecoded(b: byte, upper: bool)
    ensures var e := EncodeByte(b, upper);
      Complete(e) && UriDecode(e) == [b] && |e| > 0 && 0x26 !in e && 0x3d !in e && 0 !in e && WellFormed(e)
  {
    hide HexDigit, HexValue, IsHex;
    var e := EncodeByte(b, upper);
    assert e[|e|..] == [] && UriDecode([]) == [] && Complete([]);
    DigitRead(b / 16, upper);
    DigitRead(b % 16, upper);
    DigitApart(b / 16, upper);
    DigitApart(b % 16, upper);
  }

  lemma DigitApart(v: nat, upper: bool)
    requires v < 16
    ensures HexDigit(v, upper) !in {0, 0x25, 0x26, 0x3d}
  {
  }

  /** Decoding inverts encoding for every text, and no encoded text contains a separator. */
  lemma {:induction false} TextDecoded(s: seq<byte>, upper: bool)
    ensures var e := EncodeText(s, upper);
      Complete(e) && UriDecode(e) == s && 0x26 !in e && 0x3d !in e && 0 !in e && WellFormed(e)
  {
    hide EncodeByte, UriDecode, Complete, WellFormed;
    if s == [] {
      NoText();
    } else {
      var a, b := EncodeByte(s[0], upper), EncodeText(s[1..], upper);
      ByteDecoded(s[0], upper);
      TextDecoded(s[1..], upper);
      DecodeJoined(a, b);
      FormedJoined(a, b);
      assert [s[0]] + s[1..] == s;
    }
  }

  lemma NoText()
    ensures Complete([]) && UriDecode([]) == [] && WellFormed([])
  {
  }

  lemma FormedJoined(a: seq<byte>, b: seq<byte>)
    requires WellFormed(a) && WellFormed(b)
    ensures WellFormed(a + b)
  {
    hide IsHex;
    forall i | 0 <= i < |a + b| && (a + b)[i] == PERCENT
      ensures i + 2 < |a + b| && IsHex((a + b)[i + 1]) && IsHex((a + b)[i + 2])
    {
      assert i >= |a| ==> b[i - |a|] == PERCENT;
    }
  }

  lemma FieldFormed(f: Field, upper: bool)
    ensures var p := EncodeField(f, upper);
      && WellFormed(p) && 0x26 !in p && 0 !in p
      && PieceOf(p) == Piece(true, EncodeText(f.name, upper), EncodeText(f.value, upper))
  {
    hide EncodeText, UriDecode, Complete, WellFormed;
    var n, v := EncodeText(f.name, upper), EncodeText(f.value, upper);
    var p := n + [0x3d] + v;
    TextDecoded(f.name, upper);
    TextDecoded(f.value, upper);
    SignFormed();
    FormedJoined(n, [0x3d]);
    FormedJoined(n + [0x3d], v);
    assert p[..|n|] == n && p[|n| + 1..] == v;
    IndexIs(p, 0x3d, |n|);
  }

  lemma SignFormed()
    ensures WellFormed([0x3d]) && WellFormed([0x26])
  {
  }

  /** The pieces of a form's query are its fields. */
  lemma {:induction false} FormMeans(fs: seq<Field>, upper: bool)
    requires |fs| > 0
    ensures var q := FormQuery(fs, upper);
      && WellFormed(q) && 0 !in q && |Meaning(q)| == |fs|
      && forall i :: 0 <= i < |fs| ==>
           Meaning(q)[i] == Piece(true, EncodeText(fs[i].name, upper), EncodeText(fs[i].value, upper))
  {
    hide EncodeField, EncodeText, WellFormed, Meaning, PieceOf;
    var p, q := EncodeField(fs[0], upper), FormQuery(fs, upper);
    FieldFormed(fs[0], upper);
    MeaningStep(q);
    if |fs| == 1 {
      assert q[..|q|] == q;
      IndexIs(q, 0x26, |q|);
    } else {
      var rest := FormQuery(fs[1..], upper);
      FormMeans(fs[1..], upper);
      SignFormed();
      FormedJoined(p, [0x26]);
      FormedJoined(p + [0x26], rest);
      assert q[..|p|] == p && q[|p| + 1..] == rest;
      IndexIs(q, 0x26, |p|);
    }
  }

  // ---- what parse_query returns ----

  predicate TextOnly(f: Field) { 0 !in f.name && 0 !in f.value }

  lemma FieldsReturned(fs: seq<Field>, upper: bool, names: seq<seq<byte>>, values: seq<seq<byte>>)
    requires |fs| > 0 && forall i :: 0 <= i < |fs| ==> TextOnly(fs[i])
    requires Filled(names, values, Meaning(FormQuery(fs, upper)))
    ensures |names| == |values| >= |fs|
    ensures forall i :: 0 <= i < |fs| ==> names[i] == fs[i].name && values[i] == fs[i].value
  {
    hide Meaning, EncodeText, FormQuery, CString, UriDecode, Complete, WellFormed;
    FormMeans(fs, upper);
    forall i | 0 <= i < |fs|
      ensures names[i] == fs[i].name && values[i] == fs[i].value
    {
      TextDecoded(fs[i].name, upper);
      TextDecoded(fs[i].value, upper);
      assert TextOnly(fs[i]);
      WholeString(fs[i].name);
      WholeString(fs[i].value);
    }
  }

  /** Whatever text a form's fields hold, in both cases of the digits: the names and values that
      parse_query returns for the form's query are those of the form. */
  method SubmitForm(fs: seq<Field>, upper: bool) returns (values: array<seq<byte>>, names: array<seq<byte>>)
    requires |fs| > 0 && forall i :: 0 <= i < |fs| ==> TextOnly(fs[i])
    ensures names.Length == values.Length == |fs|
    ensures forall i :: 0 <= i < |fs| ==> names[i] == fs[i].name && values[i] == fs[i].value
  {
    hide Meaning, FormQuery, WellFormed, Undisturbed, Filled, TextOnly, OnePass, EndsInText, NulFree;
    var q := FormQuery(fs, upper);
    FormMeans(fs, upper);
    WellFormedUndisturbed(q, false);
    MeaningCounted(q);
    var mem := new byte[|q| + 1](i requires 0 <= i <= |q| => if i < |q| then q[i] else 0);
    values, names := ParseQuery(mem, q);
    FieldsReturned(fs, upper, names[..], values[..]);
  }
}
