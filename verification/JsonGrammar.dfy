/**
  The canonical form of a JSON value, section by section of RFC 8259: no blanks, the shortest escapes,
  numbers without leading zeros, lists joined by commas. A value has exactly one.
 */
module JsonGrammar {
  import opened Wrappers
  import opened JsonValue
  import opened JsonText
  import opened Names
  import opened Paths

  const SHORT_ESCAPES: map<char, string> := map[
    '"' := "\\\"", '\\' := "\\\\", '\U{8}' := "\\b", '\t' := "\\t", '\n' := "\\n", '\U{c}' := "\\f", '\r' := "\\r"]

  /** How one character is written inside quotes: control characters without a short escape by their number. */
  ghost predicate Code(c: char, text: string) {
    if c in SHORT_ESCAPES then text == SHORT_ESCAPES[c]
    else if c < ' ' then
      text == "\\u00" + ["0123456789abcdef"[c as int / 16], "0123456789abcdef"[c as int % 16]]
    else text == [c]
  }

  function Concat(texts: seq<string>): string {
    if texts == [] then "" else texts[0] + Concat(texts[1..])
  }

  ghost predicate StringForm(s: string, text: string) {
    exists codes: seq<string> :: |codes| == |s| && (forall i | 0 <= i < |s| :: Code(s[i], codes[i]))
                              && text == "\"" + Concat(codes) + "\""
  }

  /** A minus sign before negative numbers, and digits that do not begin with an idle zero. */
  ghost predicate IntForm(i: int, text: string) {
    exists digits :: digits != "" && AllDigits(digits) && (digits[0] == '0' ==> digits == "0")
                  && (if i < 0 then text == "-" + digits && DecimalValue(digits) == -i
                      else text == digits && DecimalValue(digits) == i)
  }

  ghost predicate Form(v: Json, text: string)
    decreases v
  {
    match v
    case Null => text == "null"
    case Bool(b) => text == if b then "true" else "false"
    case Int(i) => IntForm(i, text)
    case Float(t) => text == t
    case String(s) => StringForm(s, text)
    case Array(items) =>
      exists parts: seq<string> :: |parts| == |items| && (forall i | 0 <= i < |items| :: Form(items[i], parts[i]))
                                && text == "[" + Join(parts, ',') + "]"
    case Object(fields) =>
      exists keys: seq<string>, values: seq<string> ::
        && |keys| == |fields| == |values|
        && (forall i | 0 <= i < |fields| :: StringForm(fields[i].key, keys[i]) && Form(fields[i].value, values[i]))
        && text == "{" + Join(Paired(keys, values), ',') + "}"
  }

  /** Each key, a colon, and its value. */
  function Paired(keys: seq<string>, values: seq<string>): seq<string>
    requires |keys| == |values|
  {
    seq(|keys|, i requires 0 <= i < |keys| => keys[i] + ":" + values[i])
  }

  // ---------- the printer writes this form

  lemma CodeIs(c: char, text: string)
    ensures Code(c, text) <==> text == EscapeChar(c)
  {
    if c < ' ' {
      HexIs(c as int / 16);
      HexIs(c as int % 16);
    }
  }

  lemma HexIs(d: nat)
    requires d < 16
    ensures HexDigit(d) == "0123456789abcdef"[d]
  {
  }

  lemma {:induction false} EscapeIs(s: string, codes: seq<string>)
    requires |codes| == |s| && forall i | 0 <= i < |s| :: Code(s[i], codes[i])
    ensures Escape(s) == Concat(codes)
  {
    hide EscapeChar, Code;
    if s != "" {
      CodeIs(s[0], codes[0]);
      EscapeIs(s[1..], codes[1..]);
    }
  }

  lemma StringIs(s: string, text: string)
    ensures StringForm(s, text) <==> text == PrintString(s)
  {
    hide EscapeChar, Code, Escape;
    var codes := seq(|s|, i requires 0 <= i < |s| => EscapeChar(s[i]));
    forall i | 0 <= i < |s| ensures Code(s[i], codes[i]) { CodeIs(s[i], codes[i]); }
    EscapeIs(s, codes);
    if StringForm(s, text) {
      var own: seq<string> :| |own| == |s| && (forall i | 0 <= i < |s| :: Code(s[i], own[i]))
        && text == "\"" + Concat(own) + "\"";
      EscapeIs(s, own);
    }
  }

  lemma IntIs(i: int, text: string)
    ensures IntForm(i, text) <==> text == PrintInt(i)
  {
    hide Decimal, DecimalValue;
    var n := if i < 0 then -i else i;
    DecimalRoundTrip(n);
    if n == 0 { ZeroText(); }
    if IntForm(i, text) {
      var digits :| digits != "" && AllDigits(digits) && (digits[0] == '0' ==> digits == "0")
        && (if i < 0 then text == "-" + digits && DecimalValue(digits) == -i
            else text == digits && DecimalValue(digits) == i);
      DecimalOnto(digits);
    }
  }

  lemma {:induction false} JoinFront(first: string, rest: seq<string>, sep: char)
    requires rest != []
    ensures Join([first] + rest, sep) == first + [sep] + Join(rest, sep)
  {
    var all := [first] + rest;
    var last := |rest| - 1;
    if |rest| == 1 {
      assert all[..1] == [first] && all[1] == rest[0];
    } else {
      assert all[..|all| - 1] == [first] + rest[..last];
      JoinFront(first, rest[..last], sep);
    }
  }

  lemma {:induction false} ItemsJoin(items: seq<Json>, parts: seq<string>)
    requires items != [] && |parts| == |items| && forall i | 0 <= i < |items| :: parts[i] == Print(items[i])
    ensures PrintItems(items) == Join(parts, ',')
  {
    hide Print;
    if |items| > 1 {
      ItemsJoin(items[1..], parts[1..]);
      JoinFront(parts[0], parts[1..], ',');
      assert parts == [parts[0]] + parts[1..];
    }
  }

  lemma {:induction false} FieldsJoin(fields: seq<Field>, parts: seq<string>)
    requires fields != [] && |parts| == |fields| && forall i | 0 <= i < |fields| :: parts[i] == PrintField(fields[i])
    ensures PrintFields(fields) == Join(parts, ',')
  {
    hide PrintField;
    if |fields| > 1 {
      FieldsJoin(fields[1..], parts[1..]);
      JoinFront(parts[0], parts[1..], ',');
      assert parts == [parts[0]] + parts[1..];
    }
  }

  /** A value has one canonical form, and the printer writes it. */
  lemma {:induction false} FormExactly(v: Json, text: string)
    ensures Form(v, text) <==> text == Print(v)
    decreases v, 1
  {
    hide Join, PrintItems, PrintFields, StringForm, PrintString, IntForm, PrintInt;
    match v
    case Int(i) => IntIs(i, text);
    case String(s) => StringIs(s, text);
    case Array(items) => ArrayFormExactly(items, text);
    case Object(fields) => ObjectFormExactly(fields, text);
    case _ =>
  }

  lemma {:induction false} ArrayFormExactly(items: seq<Json>, text: string)
    ensures Form(Array(items), text) <==> text == Print(Array(items))
    decreases items, 0
  {
    hide StringForm, PrintString, IntForm, PrintInt, PrintItems, Join;
    var parts := seq(|items|, i requires 0 <= i < |items| => Print(items[i]));
    forall i | 0 <= i < |items| ensures Form(items[i], parts[i]) { FormExactly(items[i], parts[i]); }
    BracketsIs(items, parts);
    if Form(Array(items), text) {
      var own: seq<string> :| |own| == |items| && (forall i | 0 <= i < |items| :: Form(items[i], own[i]))
        && text == "[" + Join(own, ',') + "]";
      forall i | 0 <= i < |items| ensures own[i] == Print(items[i]) { FormExactly(items[i], own[i]); }
      assert own == parts;
    }
  }

  lemma BracketsIs(items: seq<Json>, parts: seq<string>)
    requires |parts| == |items| && forall i | 0 <= i < |items| :: parts[i] == Print(items[i])
    ensures Print(Array(items)) == "[" + Join(parts, ',') + "]"
  {
    hide PrintItems, PrintFields;
    if items != [] { ItemsJoin(items, parts); }
  }

  lemma BracesIs(fields: seq<Field>, parts: seq<string>)
    requires |parts| == |fields| && forall i | 0 <= i < |fields| :: parts[i] == PrintField(fields[i])
    ensures Print(Object(fields)) == "{" + Join(parts, ',') + "}"
  {
    hide PrintItems, PrintFields, PrintField;
    if fields != [] { FieldsJoin(fields, parts); }
  }

  lemma PairedIs(fields: seq<Field>, keys: seq<string>, values: seq<string>)
    requires |keys| == |fields| == |values|
    requires forall i | 0 <= i < |fields| :: StringForm(fields[i].key, keys[i]) && values[i] == Print(fields[i].value)
    ensures Print(Object(fields)) == "{" + Join(Paired(keys, values), ',') + "}"
  {
    hide StringForm, PrintString, Print, Join;
    var parts := Paired(keys, values);
    forall i | 0 <= i < |fields| ensures parts[i] == PrintField(fields[i]) { StringIs(fields[i].key, keys[i]); }
    BracesIs(fields, parts);
  }

  lemma {:induction false} ObjectFormExactly(fields: seq<Field>, text: string)
    ensures Form(Object(fields), text) <==> text == Print(Object(fields))
    decreases fields, 0
  {
    hide StringForm, PrintString, PrintField, PrintFields, Join, Print, Paired;
    var keys := seq(|fields|, i requires 0 <= i < |fields| => PrintString(fields[i].key));
    var values := seq(|fields|, i requires 0 <= i < |fields| => Print(fields[i].value));
    forall i | 0 <= i < |fields|
      ensures StringForm(fields[i].key, keys[i]) && Form(fields[i].value, values[i])
    {
      StringIs(fields[i].key, keys[i]);
      FormExactly(fields[i].value, values[i]);
    }
    PairedIs(fields, keys, values);
    if Form(Object(fields), text) {
      var ks: seq<string>, vs: seq<string> :|
        && |ks| == |fields| == |vs|
        && (forall i | 0 <= i < |fields| :: StringForm(fields[i].key, ks[i]) && Form(fields[i].value, vs[i]))
        && text == "{" + Join(Paired(ks, vs), ',') + "}";
      forall i | 0 <= i < |fields| ensures vs[i] == Print(fields[i].value) { FormExactly(fields[i].value, vs[i]); }
      PairedIs(fields, ks, vs);
    }
  }
}
