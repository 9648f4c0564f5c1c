/** The canonical JSON printer and the JSON reader of tools/formal_release_manifest_security.py:
    `json.dumps(sort_keys=True, separators=(",", ":"), ensure_ascii=False)` and `json.loads` with
    duplicate keys refused (RFC 8259). Numbers with a fraction or an exponent are refused by the reader. */
module JsonText {
  import opened Wrappers
  import opened JsonValue
  import opened Names

  // ---------- printing

  function HexDigit(d: nat): char
    requires d < 16
  {
    if d < 10 then '0' + d as char else 'a' + (d - 10) as char
  }

  /** The escapes the printer writes; everything else from the space on stands for itself. */
  function EscapeChar(c: char): string {
    if c == '"' then "\\\""
    else if c == '\\' then "\\\\"
    else if c == '\n' then "\\n"
    else if c == '\r' then "\\r"
    else if c == '\t' then "\\t"
    else if c == '\U{8}' then "\\b"
    else if c == '\U{c}' then "\\f"
    else if c < ' ' then ['\\', 'u', '0', '0', HexDigit(c as int / 16), HexDigit(c as int % 16)]
    else [c]
  }

  function Escape(s: string): string {
    if s == "" then "" else EscapeChar(s[0]) + Escape(s[1..])
  }

  function PrintString(s: string): string {
    "\"" + Escape(s) + "\""
  }

  function PrintInt(i: int): string {
    if i < 0 then "-" + Decimal(-i) else Decimal(i)
  }

  function Print(v: Json): string
    decreases v
  {
    match v
    case Null => "null"
    case Bool(b) => if b then "true" else "false"
    case Int(i) => PrintInt(i)
    case Float(text) => text
    case String(s) => PrintString(s)
    case Array(items) => if items == [] then "[]" else "[" + PrintItems(items) + "]"
    case Object(fields) => if fields == [] then "{}" else "{" + PrintFields(fields) + "}"
  }

  function PrintItems(items: seq<Json>): string
    requires items != []
    decreases items
  {
    if |items| == 1 then Print(items[0]) else Print(items[0]) + "," + PrintItems(items[1..])
  }

  function PrintField(f: Field): string
    decreases f
  {
    PrintString(f.key) + ":" + Print(f.value)
  }

  function PrintFields(fields: seq<Field>): string
    requires fields != []
    decreases fields
  {
    if |fields| == 1 then PrintField(fields[0]) else PrintField(fields[0]) + "," + PrintFields(fields[1..])
  }

  // ---------- reading

  datatype Parsed<+T> = Fail | Got(value: T, rest: string)

  predicate IsBlank(c: char) {
    c == ' ' || c == '\t' || c == '\n' || c == '\r'
  }

  function SkipBlanks(s: string): (rest: string)
    ensures |rest| <= |s|
  {
    if s != "" && IsBlank(s[0]) then SkipBlanks(s[1..]) else s
  }

  predicate IsHex(c: char) {
    '0' <= c <= '9' || 'a' <= c <= 'f' || 'A' <= c <= 'F'
  }

  function HexValue(c: char): (v: nat)
    requires IsHex(c)
    ensures v < 16
  {
    if '0' <= c <= '9' then (c - '0') as int
    else if 'a' <= c <= 'f' then (c - 'a') as int + 10
    else (c - 'A') as int + 10
  }

  /** Four hexadecimal digits. */
  function ParseHex4(s: string): (r: Parsed<nat>)
    ensures r.Got? ==> r.value < 0x10000 && |r.rest| == |s| - 4
  {
    if |s| < 4 || !IsHex(s[0]) || !IsHex(s[1]) || !IsHex(s[2]) || !IsHex(s[3]) then Fail
    else Got(HexValue(s[0]) * 4096 + HexValue(s[1]) * 256 + HexValue(s[2]) * 16 + HexValue(s[3]), s[4..])
  }

  /** What follows a backslash. A lone surrogate is no character. */
  function ParseEscape(s: string): (r: Parsed<char>)
    ensures r.Got? ==> |r.rest| < |s|
  {
    if s == "" then Fail
    else match s[0]
      case '"' => Got('"', s[1..])
      case '\\' => Got('\\', s[1..])
      case '/' => Got('/', s[1..])
      case 'b' => Got('\U{8}', s[1..])
      case 'f' => Got('\U{c}', s[1..])
      case 'n' => Got('\n', s[1..])
      case 'r' => Got('\r', s[1..])
      case 't' => Got('\t', s[1..])
      case 'u' =>
        (match ParseHex4(s[1..])
         case Fail => Fail
         case Got(code, rest) =>
           if code < 0xD800 || code >= 0xE000 then Got(code as char, rest)
           else if code < 0xDC00 && |rest| >= 2 && rest[0] == '\\' && rest[1] == 'u' then
             (match ParseHex4(rest[2..])
              case Fail => Fail
              case Got(low, end) =>
                if 0xDC00 <= low < 0xE000
                  then Got((0x10000 + (code - 0xD800) * 0x400 + (low - 0xDC00)) as char, end) else Fail)
           else Fail)
      case _ => Fail
  }

  /** The characters of a string up to its closing quote; control characters must be escaped. */
  function ParseChars(s: string): (r: Parsed<string>)
    ensures r.Got? ==> |r.rest| < |s|
    decreases |s|
  {
    if s == "" || s[0] < ' ' then Fail
    else if s[0] == '"' then Got("", s[1..])
    else
      var first := if s[0] == '\\' then ParseEscape(s[1..]) else Got(s[0], s[1..]);
      match first
      case Fail => Fail
      case Got(c, rest) =>
        match ParseChars(rest)
        case Fail => Fail
        case Got(tail, end) => Got([c] + tail, end)
  }

  /** The length of the longest run of digits. */
  function DigitRun(s: string): (n: nat)
    ensures n <= |s| && AllDigits(s[..n])
    ensures n < |s| ==> !IsDigit(s[n])
  {
    if s == "" || !IsDigit(s[0]) then 0
    else
      var n := DigitRun(s[1..]) + 1;
      assert forall i | 0 < i < n :: s[..n][i] == s[1..][..n - 1][i - 1];
      n
  }

  /** An integer: no leading zeros, an optional minus sign. */
  function ParseInt(s: string): (r: Parsed<Json>)
    ensures r.Got? ==> |r.rest| < |s|
  {
    var negative := s != "" && s[0] == '-';
    var digits := if negative then s[1..] else s;
    var run := if digits != "" && digits[0] == '0' then 1 else DigitRun(digits);
    if run == 0 then Fail
    else
      assert AllDigits(digits[..run]);
      var n: int := DecimalValue(digits[..run]);
      Got(Int(if negative then -n else n), digits[run..])
  }

  function ParseWord(s: string, word: string, v: Json): (r: Parsed<Json>)
    requires word != ""
    ensures r.Got? ==> |r.rest| < |s|
  {
    if word <= s then Got(v, s[|word|..]) else Fail
  }

  /** Where a new key goes, `None` for a key already there. */
  function InsertField(fields: seq<Field>, f: Field): Option<seq<Field>> {
    if fields == [] then Some([f])
    else
      var last := fields[|fields| - 1];
      if last.key == f.key then None
      else if Before(last.key, f.key) then Some(fields + [f])
      else match InsertField(fields[..|fields| - 1], f)
        case None => None
        case Some(rest) => Some(rest + [last])
  }

  function ParseValue(s: string): (r: Parsed<Json>)
    ensures r.Got? ==> |r.rest| < |s|
    decreases |s|, 0
  {
    if s == "" then Fail
    else if s[0] == '"' then
      match ParseChars(s[1..])
      case Fail => Fail
      case Got(text, rest) => Got(String(text), rest)
    else if s[0] == '{' then
      var inner := SkipBlanks(s[1..]);
      if inner != "" && inner[0] == '}' then Got(Object([]), inner[1..]) else ParseFields(inner, [])
    else if s[0] == '[' then
      var inner := SkipBlanks(s[1..]);
      if inner != "" && inner[0] == ']' then Got(Array([]), inner[1..]) else ParseItems(inner, [])
    else if s[0] == 'n' then ParseWord(s, "null", Null)
    else if s[0] == 't' then ParseWord(s, "true", Bool(true))
    else if s[0] == 'f' then ParseWord(s, "false", Bool(false))
    else ParseInt(s)
  }

  /** The rest of an array after its opening bracket and the items before. */
  function ParseItems(s: string, before: seq<Json>): (r: Parsed<Json>)
    ensures r.Got? ==> |r.rest| < |s|
    decreases |s|, 1
  {
    match ParseValue(s)
    case Fail => Fail
    case Got(v, rest) =>
      var next := SkipBlanks(rest);
      if next == "" then Fail
      else if next[0] == ']' then Got(Array(before + [v]), next[1..])
      else if next[0] == ',' then ParseItems(SkipBlanks(next[1..]), before + [v])
      else Fail
  }

  /** The rest of an object after its opening brace and the fields before. */
  function ParseFields(s: string, before: seq<Field>): (r: Parsed<Json>)
    ensures r.Got? ==> |r.rest| < |s|
    decreases |s|, 1
  {
    if s == "" || s[0] != '"' then Fail
    else
      match ParseChars(s[1..])
      case Fail => Fail
      case Got(key, rest) =>
        var colon := SkipBlanks(rest);
        if colon == "" || colon[0] != ':' then Fail
        else
          match ParseValue(SkipBlanks(colon[1..]))
          case Fail => Fail
          case Got(v, end) =>
            match InsertField(before, Field(key, v))
            case None => Fail
            case Some(fields) =>
              var next := SkipBlanks(end);
              if next == "" then Fail
              else if next[0] == '}' then Got(Object(fields), next[1..])
              else if next[0] == ',' then ParseFields(SkipBlanks(next[1..]), fields)
              else Fail
  }

  /** `json.loads`: one value, with nothing but blanks around it. */
  function Parse(text: string): Option<Json> {
    match ParseValue(SkipBlanks(text))
    case Fail => None
    case Got(v, rest) => if SkipBlanks(rest) == "" then Some(v) else None
  }

  // ---------- reading undoes printing

  /** The values the printer is for: objects are dictionaries, and no float occurs. */
  ghost predicate Plain(v: Json)
    decreases v
  {
    match v
    case Float(_) => false
    case Array(items) => forall i :: 0 <= i < |items| ==> Plain(items[i])
    case Object(fields) => Sorted(fields) && forall i :: 0 <= i < |fields| ==> Plain(fields[i].value)
    case _ => true
  }

  lemma HexRoundTrip(d: nat)
    requires d < 16
    ensures IsHex(HexDigit(d)) && HexValue(HexDigit(d)) == d
  {
  }

  lemma {:induction false} CharsRoundTrip(s: string, rest: string)
    ensures ParseChars(Escape(s) + "\"" + rest) == Got(s, rest)
  {
    hide Escape, EscapeChar, ParseEscape, ParseChars;
    if s == "" {
      EmptyReads(rest);
    } else {
      var tail := Escape(s[1..]) + "\"" + rest;
      CharsRoundTrip(s[1..], rest);
      EscapeReads(s[0], tail);
      EscapeStep(s, rest);
      CharReads(EscapeChar(s[0]) + tail, s[0], tail, s[1..], rest);
      assert s == [s[0]] + s[1..];
    }
  }

  lemma EmptyReads(rest: string)
    ensures ParseChars(Escape("") + "\"" + rest) == Got("", rest)
  {
    hide ParseEscape;
    assert Escape("") + "\"" + rest == "\"" + rest;
    assert ("\"" + rest)[1..] == rest;
  }

  lemma EscapeStep(s: string, rest: string)
    requires s != ""
    ensures Escape(s) + "\"" + rest == EscapeChar(s[0]) + (Escape(s[1..]) + "\"" + rest)
  {
    hide EscapeChar;
  }

  /** Reading one character and what follows it. */
  lemma CharReads(text: string, c: char, tail: string, more: string, rest: string)
    requires text != "" && text[0] >= ' ' && text[0] != '"'
    requires (if text[0] == '\\' then ParseEscape(text[1..]) else Got(text[0], text[1..])) == Got(c, tail)
    requires ParseChars(tail) == Got(more, rest)
    ensures ParseChars(text) == Got([c] + more, rest)
  {
    hide ParseEscape;
  }

  /** One character, escaped or not, is read back. */
  lemma EscapeReads(c: char, tail: string)
    ensures var text := EscapeChar(c) + tail;
      && text != "" && text[0] >= ' ' && text[0] != '"'
      && (if text[0] == '\\' then ParseEscape(text[1..]) else Got(text[0], text[1..])) == Got(c, tail)
  {
    var text := EscapeChar(c) + tail;
    if c < ' ' && |EscapeChar(c)| == 6 {
      var n := c as int;
      HexRoundTrip(n / 16);
      HexRoundTrip(n % 16);
      assert text[1..][1..] == ['0', '0', HexDigit(n / 16), HexDigit(n % 16)] + tail;
      assert text[1..][1..][4..] == tail;
      assert HexValue('0') == 0;
      assert ParseHex4(text[1..][1..]) == Got(n, tail);
    } else if |EscapeChar(c)| == 2 {
      assert text[1..][1..] == tail;
    } else {
      assert text[1..] == tail;
    }
  }

  /** What may follow a value inside printed text. */
  predicate Ends(rest: string) {
    rest == "" || rest[0] == ',' || rest[0] == ']' || rest[0] == '}'
  }

  lemma {:induction false} DigitRunOf(digits: string, rest: string)
    requires AllDigits(digits) && Ends(rest)
    ensures DigitRun(digits + rest) == |digits|
  {
    if digits == "" {
      assert digits + rest == rest;
    } else {
      DigitRunOf(digits[1..], rest);
      assert (digits + rest)[1..] == digits[1..] + rest;
    }
  }

  lemma NumberRoundTrip(n: nat, negative: bool, rest: string)
    requires Ends(rest) && (negative ==> n > 0)
    ensures ParseInt((if negative then "-" else "") + Decimal(n) + rest)
      == Got(Int(if negative then -(n as int) else n), rest)
  {
    hide Decimal, DecimalValue;
    DecimalRoundTrip(n);
    DigitRunOf(Decimal(n), rest);
    var text := (if negative then "-" else "") + Decimal(n) + rest;
    var digits := if text[0] == '-' then text[1..] else text;
    assert digits == Decimal(n) + rest;
    if n == 0 {
      ZeroText();
      assert digits[..1] == Decimal(0) && digits[1..] == rest;
    } else {
      assert digits[..|Decimal(n)|] == Decimal(n) && digits[|Decimal(n)|..] == rest;
    }
  }

  lemma ZeroText()
    ensures Decimal(0) == "0"
  {
  }

  /** Printed values start with a character that is neither blank nor closing. */
  lemma PrintStarts(v: Json)
    requires Plain(v)
    ensures Print(v) != "" && !IsBlank(Print(v)[0]) && Print(v)[0] != ']' && Print(v)[0] != '}'
    ensures v.Int? ==> Print(v)[0] == '-' || IsDigit(Print(v)[0])
  {
    hide Decimal, PrintItems, PrintFields, Escape;
    if v.Int? { DecimalRoundTrip(if v.i < 0 then -v.i else v.i); }
  }

  lemma ItemsStart(items: seq<Json>)
    requires items != [] && Plain(items[0])
    ensures PrintItems(items) != "" && !IsBlank(PrintItems(items)[0]) && PrintItems(items)[0] != ']'
  {
    hide Print;
    PrintStarts(items[0]);
  }

  lemma {:induction false} ValueRoundTrip(v: Json, rest: string)
    requires Plain(v) && Ends(rest)
    ensures ParseValue(Print(v) + rest) == Got(v, rest)
    decreases v, 2
  {
    hide PrintItems, PrintFields, ParseItems, ParseFields, ParseChars, Escape, ParseInt, Decimal;
    PrintStarts(v);
    var text := Print(v) + rest;
    assert text[0] == Print(v)[0];
    match v
    case Null => WordReads("null", rest);
    case Bool(b) => WordReads(if b then "true" else "false", rest);
    case Int(i) =>
      NumberRoundTrip(if i < 0 then -i else i, i < 0, rest);
      assert text == (if i < 0 then "-" else "") + Decimal(if i < 0 then -i else i) + rest;
    case Float(_) =>
    case String(s) =>
      CharsRoundTrip(s, rest);
      assert text[1..] == Escape(s) + "\"" + rest;
    case Array(items) =>
      if items == [] {
        assert text[1..] == "]" + rest && ("]" + rest)[1..] == rest;
      } else {
        ArrayRoundTrip(items, rest);
      }
    case Object(fields) =>
      if fields == [] {
        assert text[1..] == "}" + rest && ("}" + rest)[1..] == rest;
      } else {
        ObjectRoundTrip(fields, rest);
      }
  }

  lemma {:induction false} ArrayRoundTrip(items: seq<Json>, rest: string)
    requires items != [] && forall i :: 0 <= i < |items| ==> Plain(items[i])
    ensures ParseValue("[" + PrintItems(items) + "]" + rest) == Got(Array(items), rest)
    decreases items, 1
  {
    hide PrintItems, ParseItems, ParseValue, Plain;
    var inner := PrintItems(items) + "]" + rest;
    ItemsRoundTrip(items, [], rest);
    ItemsStart(items);
    ArrayReads(inner);
    assert "[" + PrintItems(items) + "]" + rest == "[" + inner && [] + items == items;
  }

  lemma {:induction false} ObjectRoundTrip(fields: seq<Field>, rest: string)
    requires fields != [] && Sorted(fields) && forall i :: 0 <= i < |fields| ==> Plain(fields[i].value)
    ensures ParseValue("{" + PrintFields(fields) + "}" + rest) == Got(Object(fields), rest)
    decreases fields, 1
  {
    hide PrintFields, ParseFields, ParseValue, Plain, Sorted;
    var inner := PrintFields(fields) + "}" + rest;
    assert [] + fields == fields;
    FieldsRoundTrip(fields, [], rest);
    FieldsStart(fields);
    ObjectReads(inner);
    assert "{" + PrintFields(fields) + "}" + rest == "{" + inner;
  }

  lemma ArrayReads(inner: string)
    requires inner != "" && !IsBlank(inner[0]) && inner[0] != ']'
    ensures ParseValue("[" + inner) == ParseItems(inner, [])
  {
    hide ParseItems;
    assert ("[" + inner)[1..] == inner;
  }

  lemma ObjectReads(inner: string)
    requires inner != "" && inner[0] == '"'
    ensures ParseValue("{" + inner) == ParseFields(inner, [])
  {
    hide ParseFields;
    assert ("{" + inner)[1..] == inner;
  }

  lemma WordReads(word: string, rest: string)
    ensures word <= word + rest && (word + rest)[|word|..] == rest
  {
  }

  lemma {:induction false} ItemsRoundTrip(items: seq<Json>, before: seq<Json>, rest: string)
    requires items != [] && forall i :: 0 <= i < |items| ==> Plain(items[i])
    ensures ParseItems(PrintItems(items) + "]" + rest, before) == Got(Array(before + items), rest)
    decreases items, 0
  {
    hide Print, ParseValue;
    var text := PrintItems(items) + "]" + rest;
    if |items| == 1 {
      var tail := "]" + rest;
      ValueRoundTrip(items[0], tail);
      assert text == Print(items[0]) + tail;
      assert tail[1..] == rest && items == [items[0]];
    } else {
      var inner := PrintItems(items[1..]) + "]" + rest;
      var tail := "," + inner;
      ValueRoundTrip(items[0], tail);
      assert text == Print(items[0]) + tail;
      assert tail[1..] == inner;
      ItemsStart(items[1..]);
      ItemsRoundTrip(items[1..], before + [items[0]], rest);
      assert before + [items[0]] + items[1..] == before + items;
    }
  }

  lemma FieldsStart(fields: seq<Field>)
    requires fields != []
    ensures PrintFields(fields) != "" && PrintFields(fields)[0] == '"'
  {
    hide Escape, Print;
  }

  lemma InsertLast(before: seq<Field>, f: Field)
    requires Sorted(before + [f])
    ensures InsertField(before, f) == Some(before + [f])
  {
    if before != [] {
      var all := before + [f];
      assert Before(all[|before| - 1].key, all[|before|].key);
      BeforeTrichotomy(before[|before| - 1].key, f.key);
    } else {
      assert before + [f] == [f];
    }
  }

  lemma {:induction false} FieldsRoundTrip(fields: seq<Field>, before: seq<Field>, rest: string)
    requires fields != [] && Sorted(before + fields) && forall i :: 0 <= i < |fields| ==> Plain(fields[i].value)
    ensures ParseFields(PrintFields(fields) + "}" + rest, before) == Got(Object(before + fields), rest)
    decreases fields, 0
  {
    hide Print, PrintFields, ParseValue, ParseFields, Escape, ParseChars, InsertField, Sorted, Plain;
    var f, text := fields[0], PrintFields(fields) + "}" + rest;
    var tail := (if |fields| == 1 then "" else "," + PrintFields(fields[1..])) + "}" + rest;
    var value := Print(f.value) + tail;
    FieldText(fields, rest, tail);
    CharsRoundTrip(f.key, ":" + value);
    PrintStarts(f.value);
    ValueRoundTrip(f.value, tail);
    FirstFieldFits(before, fields);
    InsertLast(before, f);
    FieldReads(text, before, f, value, tail);
    if |fields| == 1 {
      assert tail == "}" + rest && tail[1..] == rest;
      assert before + [f] == before + fields;
    } else {
      var inner := PrintFields(fields[1..]) + "}" + rest;
      assert tail == "," + inner && tail[1..] == inner;
      FieldsStart(fields[1..]);
      assert before + [f] + fields[1..] == before + fields;
      FieldsRoundTrip(fields[1..], before + [f], rest);
    }
  }

  /** Reading one field: it is the last before a closing brace, and the rest is read behind a comma. */
  lemma FieldReads(text: string, before: seq<Field>, f: Field, value: string, tail: string)
    requires text != "" && text[0] == '"' && ParseChars(text[1..]) == Got(f.key, ":" + value)
    requires value != "" && !IsBlank(value[0]) && ParseValue(value) == Got(f.value, tail)
    requires InsertField(before, f) == Some(before + [f]) && tail != ""
    ensures tail[0] == '}' ==> ParseFields(text, before) == Got(Object(before + [f]), tail[1..])
    ensures tail[0] == ',' ==> ParseFields(text, before) == ParseFields(SkipBlanks(tail[1..]), before + [f])
  {
    hide ParseValue, ParseChars, InsertField;
    assert (":" + value)[1..] == value && (":" + value)[0] == ':';
    assert SkipBlanks(":" + value) == ":" + value && SkipBlanks(value) == value;
    assert f == Field(f.key, f.value);
  }

  /** Printed fields, cut behind the first key and its colon. */
  lemma FieldText(fields: seq<Field>, rest: string, tail: string)
    requires fields != [] && tail == (if |fields| == 1 then "" else "," + PrintFields(fields[1..])) + "}" + rest
    ensures var text := PrintFields(fields) + "}" + rest;
      && text != "" && text[0] == '"'
      && text[1..] == Escape(fields[0].key) + "\"" + (":" + (Print(fields[0].value) + tail))
  {
    hide Print, Escape, PrintField, PrintFields;
    FieldsText(fields, rest, tail);
    FieldIs(fields[0]);
    Regroup(Escape(fields[0].key), Print(fields[0].value), tail);
  }

  lemma FieldsText(fields: seq<Field>, rest: string, tail: string)
    requires fields != [] && tail == (if |fields| == 1 then "" else "," + PrintFields(fields[1..])) + "}" + rest
    ensures PrintFields(fields) + "}" + rest == PrintField(fields[0]) + tail
  {
    hide PrintField;
    if |fields| == 1 {
      Move(PrintField(fields[0]), "", "", "}", rest);
      assert PrintField(fields[0]) + "" + "" == PrintField(fields[0]) && "" + "" + "}" + rest == tail;
    } else {
      Move(PrintField(fields[0]), ",", PrintFields(fields[1..]), "}", rest);
    }
  }

  lemma Move(a: string, b: string, c: string, d: string, e: string)
    ensures a + b + c + d + e == a + (b + c + d + e)
  {
  }

  lemma FieldIs(f: Field)
    ensures PrintField(f) == "\"" + Escape(f.key) + "\"" + ":" + Print(f.value)
  {
  }

  lemma Regroup(key: string, value: string, tail: string)
    ensures var text := "\"" + key + "\"" + ":" + value + tail;
      text[1..] == key + "\"" + (":" + (value + tail))
  {
  }

  lemma FirstFieldFits(before: seq<Field>, fields: seq<Field>)
    requires fields != [] && Sorted(before + fields)
    ensures Sorted(before + [fields[0]])
  {
    forall i, j | 0 <= i < j < |before + [fields[0]]|
      ensures Before((before + [fields[0]])[i].key, (before + [fields[0]])[j].key)
    {
      assert (before + [fields[0]])[i] == (before + fields)[i] && (before + [fields[0]])[j] == (before + fields)[j];
    }
  }

  /** Reading the printed form of any dictionary, list, string, integer or constant gives it back. */
  lemma ParsePrint(v: Json)
    requires Plain(v)
    ensures Parse(Print(v)) == Some(v)
  {
    hide Print, ParseValue;
    PrintStarts(v);
    ValueRoundTrip(v, "");
    assert Print(v) + "" == Print(v);
  }

  // ---------- the reader yields dictionaries

  lemma {:induction false} InsertKeepsSorted(fields: seq<Field>, f: Field)
    requires Sorted(fields) && InsertField(fields, f).Some?
    ensures Sorted(InsertField(fields, f).value)
    ensures forall g :: g in InsertField(fields, f).value <==> g in fields || g == f
  {
    if fields != [] {
      var init, last := fields[..|fields| - 1], fields[|fields| - 1];
      BeforeTrichotomy(last.key, f.key);
      assert fields == init + [last];
      if Before(last.key, f.key) {
        forall i | 0 <= i < |fields| ensures Before(fields[i].key, f.key) {
          if i < |fields| - 1 { BeforeTransitive(fields[i].key, last.key, f.key); }
        }
      } else {
        InsertKeepsSorted(init, f);
        var rest := InsertField(init, f).value;
        forall i | 0 <= i < |rest| ensures Before(rest[i].key, last.key) {
          assert rest[i] in rest;
          if rest[i] != f {
            var j :| 0 <= j < |init| && init[j] == rest[i];
            assert fields[j] == rest[i];
          }
        }
      }
    }
  }

  lemma {:induction false} ParsedPlain(s: string)
    ensures ParseValue(s).Got? ==> Plain(ParseValue(s).value)
    decreases |s|, 0
  {
    hide ParseChars, ParseItems, ParseFields;
    if s != "" {
      var inner := SkipBlanks(s[1..]);
      if s[0] == '{' {
        ParsedFieldsPlain(inner, []);
      } else if s[0] == '[' {
        ParsedItemsPlain(inner, []);
      }
    }
  }

  lemma {:induction false} ParsedItemsPlain(s: string, before: seq<Json>)
    requires forall i :: 0 <= i < |before| ==> Plain(before[i])
    ensures ParseItems(s, before).Got? ==> Plain(ParseItems(s, before).value)
    decreases |s|, 1
  {
    hide ParseValue;
    ParsedPlain(s);
    match ParseValue(s)
    case Fail =>
    case Got(v, rest) =>
      var next := SkipBlanks(rest);
      if next != "" && next[0] == ',' { ParsedItemsPlain(SkipBlanks(next[1..]), before + [v]); }
  }

  lemma {:induction false} ParsedFieldsPlain(s: string, before: seq<Field>)
    requires Sorted(before) && forall i :: 0 <= i < |before| ==> Plain(before[i].value)
    ensures ParseFields(s, before).Got? ==> Plain(ParseFields(s, before).value)
    decreases |s|, 1
  {
    hide ParseValue, ParseChars, InsertField, Sorted;
    if s != "" && s[0] == '"' && ParseChars(s[1..]).Got? {
      var Got(key, rest) := ParseChars(s[1..]);
      var colon := SkipBlanks(rest);
      if colon != "" && colon[0] == ':' {
        ParsedPlain(SkipBlanks(colon[1..]));
        match ParseValue(SkipBlanks(colon[1..]))
        case Fail =>
        case Got(v, end) =>
          match InsertField(before, Field(key, v))
          case None =>
          case Some(fields) =>
            InsertKeepsSorted(before, Field(key, v));
            forall i | 0 <= i < |fields| ensures Plain(fields[i].value) { assert fields[i] in fields; }
            var next := SkipBlanks(end);
            if next != "" && next[0] == ',' { ParsedFieldsPlain(SkipBlanks(next[1..]), fields); }
      }
    }
  }

  /** Whatever text is read, the value is one the printer is for. */
  lemma ParsePlain(text: string)
    ensures Parse(text).Some? ==> Plain(Parse(text).value)
  {
    ParsedPlain(SkipBlanks(text));
  }
}
