/** Base64 with the standard alphabet, sections 3.5 and 4 of RFC 4648, and the strict readers built on it:
    tools/formal_release_manifest_security.py and tools/prepare_dual_machine_release_materials.py. */
module Base64 {
  import opened Wrappers
  import Characters

  type Byte = x: int | 0 <= x < 256

  // ---------- the alphabet

  function Symbol(v: nat): char
    requires v < 64
  {
    if v < 26 then 'A' + v as char
    else if v < 52 then 'a' + (v - 26) as char
    else if v < 62 then '0' + (v - 52) as char
    else if v == 62 then '+'
    else '/'
  }

  predicate IsSymbol(c: char) {
    'A' <= c <= 'Z' || 'a' <= c <= 'z' || '0' <= c <= '9' || c == '+' || c == '/'
  }

  function SymbolValue(c: char): (v: nat)
    requires IsSymbol(c)
    ensures v < 64
  {
    if 'A' <= c <= 'Z' then (c - 'A') as int
    else if 'a' <= c <= 'z' then (c - 'a') as int + 26
    else if '0' <= c <= '9' then (c - '0') as int + 52
    else if c == '+' then 62
    else 63
  }

  lemma SymbolRoundTrip(v: nat)
    requires v < 64
    ensures IsSymbol(Symbol(v)) && SymbolValue(Symbol(v)) == v && Symbol(v) != '='
  {
  }

  // ---------- the code

  /** `base64.b64encode`. */
  function Encode(bytes: seq<Byte>): string {
    if bytes == [] then ""
    else if |bytes| == 1 then
      [Symbol(bytes[0] / 4), Symbol(bytes[0] % 4 * 16), '=', '=']
    else if |bytes| == 2 then
      [Symbol(bytes[0] / 4), Symbol(bytes[0] % 4 * 16 + bytes[1] / 16), Symbol(bytes[1] % 16 * 4), '=']
    else Group(bytes[0], bytes[1], bytes[2]) + Encode(bytes[3..])
  }

  /** Three bytes as four symbols. */
  function Group(x: Byte, y: Byte, z: Byte): string {
    [Symbol(x / 4), Symbol(x % 4 * 16 + y / 16), Symbol(y % 16 * 4 + z / 64), Symbol(z % 64)]
  }

  /** `base64.b64decode(validate=True)`: four symbols at a time, padding only at the very end. Bits that
      do not fill a byte are dropped unread, so several texts may decode to the same bytes. */
  function Decode(text: string): Option<seq<Byte>>
    decreases |text|
  {
    if text == "" then Some([])
    else if |text| < 4 || !IsSymbol(text[0]) || !IsSymbol(text[1]) then None
    else
      var a, b := SymbolValue(text[0]), SymbolValue(text[1]);
      if text[2..] == "==" then Some([a * 4 + b / 16])
      else if !IsSymbol(text[2]) then None
      else
        var c := SymbolValue(text[2]);
        if text[3..] == "=" then Some([a * 4 + b / 16, b % 16 * 16 + c / 4])
        else if !IsSymbol(text[3]) then None
        else
          var d := SymbolValue(text[3]);
          match Decode(text[4..])
          case None => None
          case Some(rest) => Some(Ungroup(a, b, c, d) + rest)
  }

  /** Four symbol values as three bytes. */
  function Ungroup(a: nat, b: nat, c: nat, d: nat): seq<Byte>
    requires a < 64 && b < 64 && c < 64 && d < 64
  {
    [a * 4 + b / 16, b % 16 * 16 + c / 4, c % 4 * 64 + d]
  }

  lemma {:induction false} DecodeEncode(bytes: seq<Byte>)
    ensures Decode(Encode(bytes)) == Some(bytes)
  {
    hide Encode, Decode;
    if |bytes| >= 3 {
      DecodeEncode(bytes[3..]);
      GroupRoundTrip(bytes);
    } else if |bytes| == 2 {
      TwoBytes(bytes);
    } else if |bytes| == 1 {
      OneByte(bytes);
    } else {
      NoBytes();
    }
  }

  lemma NoBytes()
    ensures Decode(Encode([])) == Some([])
  {
  }

  lemma OneByte(bytes: seq<Byte>)
    requires |bytes| == 1
    ensures Decode(Encode(bytes)) == Some(bytes)
  {
    hide Symbol, Decode;
    var x := bytes[0];
    var a, b := x / 4, x % 4 * 16;
    DecodePadded(a, b);
    assert a * 4 + b / 16 == x && bytes == [x];
  }

  lemma DecodePadded(a: nat, b: nat)
    requires a < 64 && b < 64
    ensures Decode([Symbol(a), Symbol(b), '=', '=']) == Some([a * 4 + b / 16])
  {
    hide Symbol, SymbolValue, IsSymbol;
    SymbolRoundTrip(a);
    SymbolRoundTrip(b);
    assert [Symbol(a), Symbol(b), '=', '='][2..] == "==";
  }

  lemma TwoBytes(bytes: seq<Byte>)
    requires |bytes| == 2
    ensures Decode(Encode(bytes)) == Some(bytes)
  {
    hide Symbol, Decode;
    var x, y := bytes[0], bytes[1];
    var a, b, c := x / 4, x % 4 * 16 + y / 16, y % 16 * 4;
    DecodePaddedOnce(a, b, c);
    Bits(x, y, 0);
    assert Ungroup(a, b, c, 0) == [x, y, 0];
    assert bytes == [x, y];
  }

  lemma DecodePaddedOnce(a: nat, b: nat, c: nat)
    requires a < 64 && b < 64 && c < 64
    ensures Decode([Symbol(a), Symbol(b), Symbol(c), '=']) == Some([a * 4 + b / 16, b % 16 * 16 + c / 4])
  {
    hide Symbol, SymbolValue, IsSymbol;
    SymbolRoundTrip(a);
    SymbolRoundTrip(b);
    SymbolRoundTrip(c);
    var text := [Symbol(a), Symbol(b), Symbol(c), '='];
    assert text[3..] == "=" && text[2..][0] == Symbol(c);
  }

  ghost predicate FourSymbols(text: string) {
    |text| >= 4 && IsSymbol(text[0]) && IsSymbol(text[1]) && IsSymbol(text[2]) && IsSymbol(text[3])
  }

  lemma GroupSymbols(x: Byte, y: Byte, z: Byte)
    ensures FourSymbols(Group(x, y, z))
    ensures var text := Group(x, y, z);
      Ungroup(SymbolValue(text[0]), SymbolValue(text[1]), SymbolValue(text[2]), SymbolValue(text[3])) == [x, y, z]
  {
    hide Symbol, SymbolValue, IsSymbol, Ungroup;
    var a, b, c, d := x / 4, x % 4 * 16 + y / 16, y % 16 * 4 + z / 64, z % 64;
    Bits(x, y, z);
    SymbolRoundTrip(a);
    SymbolRoundTrip(b);
    SymbolRoundTrip(c);
    SymbolRoundTrip(d);
  }

  lemma Bits(x: Byte, y: Byte, z: Byte)
    ensures Ungroup(x / 4, x % 4 * 16 + y / 16, y % 16 * 4 + z / 64, z % 64) == [x, y, z]
  {
    Sixteens(x % 4, y / 16);
    Fours(y % 16, z / 64);
    assert x / 4 * 4 + x % 4 == x;
    assert y / 16 * 16 + y % 16 == y && z / 64 * 64 + z % 64 == z;
  }

  lemma Sixteens(high: nat, low: nat)
    requires low < 16
    ensures (high * 16 + low) / 16 == high && (high * 16 + low) % 16 == low
  {
  }

  lemma Fours(high: nat, low: nat)
    requires low < 4
    ensures (high * 4 + low) / 4 == high && (high * 4 + low) % 4 == low
  {
  }

  lemma DecodeFour(text: string)
    requires FourSymbols(text)
    ensures Decode(text) == match Decode(text[4..])
      case None => None
      case Some(rest) =>
        Some(Ungroup(SymbolValue(text[0]), SymbolValue(text[1]), SymbolValue(text[2]), SymbolValue(text[3])) + rest)
  {
    hide SymbolValue, Ungroup;
    assert text[2..][0] != '=' && text[3..][0] != '=';
  }

  lemma GroupRoundTrip(bytes: seq<Byte>)
    requires |bytes| >= 3 && Decode(Encode(bytes[3..])) == Some(bytes[3..])
    ensures Decode(Encode(bytes)) == Some(bytes)
  {
    hide SymbolValue, IsSymbol, Ungroup, Group, Decode, Encode;
    var group, text := Group(bytes[0], bytes[1], bytes[2]), Encode(bytes);
    GroupSymbols(bytes[0], bytes[1], bytes[2]);
    GroupHasFour(bytes[0], bytes[1], bytes[2]);
    EncodeGroup(bytes);
    assert text[4..] == Encode(bytes[3..]);
    assert text[0] == group[0] && text[1] == group[1] && text[2] == group[2] && text[3] == group[3];
    DecodeFour(text);
    assert bytes == [bytes[0], bytes[1], bytes[2]] + bytes[3..];
  }

  lemma EncodeGroup(bytes: seq<Byte>)
    requires |bytes| >= 3
    ensures Encode(bytes) == Group(bytes[0], bytes[1], bytes[2]) + Encode(bytes[3..])
  {
    hide Group, Symbol;
  }

  lemma GroupHasFour(x: Byte, y: Byte, z: Byte)
    ensures |Group(x, y, z)| == 4
  {
  }

  lemma EncodeInjective(a: seq<Byte>, b: seq<Byte>)
    requires Encode(a) == Encode(b)
    ensures a == b
  {
    DecodeEncode(a);
    DecodeEncode(b);
  }

  // ---------- strict reading

  /** `_strict_b64decode`. */
  function StrictDecode(value: string, maximum: nat): Result<seq<Byte>, string> {
    if value == "" then Err("missing")
    else
      match Decode(value)
      case None => Err("not canonical base64")
      case Some(decoded) =>
        if |decoded| > maximum then Err("exceeds the size limit")
        else if Encode(decoded) != value then Err("not canonical base64")
        else Ok(decoded)
  }

  /** Exactly the encoder's outputs for 1 to `maximum` bytes are read, each as the bytes it encodes. */
  lemma StrictDecodeExactly(value: string, maximum: nat, bytes: seq<Byte>)
    ensures StrictDecode(value, maximum) == Ok(bytes) <==> value == Encode(bytes) && 0 < |bytes| <= maximum
  {
    DecodeEncode(bytes);
    DecodeEncode([]);
  }

  // ---------- TLS pins

  const PIN_PREFIX := "sha256/"

  /** `tls_spki_pin_from_der_spki` on the SHA-256 digest of the key. */
  function PinOf(digest: seq<Byte>): string {
    PIN_PREFIX + Encode(digest)
  }

  /** Python's `str.strip`. */
  function Strip(s: string): string
    decreases |s|
  {
    if s == "" then ""
    else if Characters.Space(s[0]) then Strip(s[1..])
    else if Characters.Space(s[|s| - 1]) then Strip(s[..|s| - 1])
    else s
  }

  /** The pattern of a pin: the prefix, 43 symbols and one padding character. */
  predicate PinShape(pin: string) {
    && |pin| == |PIN_PREFIX| + 44 && PIN_PREFIX <= pin
    && pin[|pin| - 1] == '='
    && forall i :: |PIN_PREFIX| <= i < |pin| - 1 ==> IsSymbol(pin[i])
  }

  /** `validate_tls_pin`. */
  function ValidateTlsPin(value: string): Result<string, string> {
    var pin := Strip(value);
    if !PinShape(pin) then Err("not canonical")
    else
      var encoded := pin[|PIN_PREFIX|..];
      match Decode(encoded)
      case None => Err("not canonical")
      case Some(decoded) => if |decoded| != 32 || Encode(decoded) != encoded then Err("not canonical") else Ok(pin)
  }

  ghost predicate SymbolsUpTo(text: string, n: int) {
    n <= |text| && forall i :: 0 <= i < n ==> IsSymbol(text[i])
  }

  lemma SymbolsAppend(group: string, rest: string, n: int)
    requires |group| == 4 && FourSymbols(group) && SymbolsUpTo(rest, n)
    ensures SymbolsUpTo(group + rest, n + 4)
  {
    hide IsSymbol;
  }

  /** Four characters for every three bytes begun, and how many of them are padding. */
  function TextLength(n: nat): nat {
    if n == 0 then 0 else if n < 3 then 4 else 4 + TextLength(n - 3)
  }

  function Padding(n: nat): nat {
    if n == 0 then 0 else if n == 1 then 2 else if n == 2 then 1 else Padding(n - 3)
  }

  /** The encoded text is symbols, then the padding. */
  lemma {:induction false} EncodeShape(bytes: seq<Byte>)
    ensures |Encode(bytes)| == TextLength(|bytes|)
    ensures SymbolsUpTo(Encode(bytes), |Encode(bytes)| - Padding(|bytes|))
    ensures Padding(|bytes|) > 0 ==> |Encode(bytes)| > 0 && Encode(bytes)[|Encode(bytes)| - 1] == '='
  {
    hide Symbol, IsSymbol, Group, SymbolsUpTo;
    if |bytes| >= 3 {
      EncodeShape(bytes[3..]);
      GroupSymbols(bytes[0], bytes[1], bytes[2]);
      GroupHasFour(bytes[0], bytes[1], bytes[2]);
      var rest := Encode(bytes[3..]);
      SymbolsAppend(Group(bytes[0], bytes[1], bytes[2]), rest, |rest| - Padding(|bytes[3..]|));
    } else {
      LastShape(bytes);
    }
  }

  lemma LastShape(bytes: seq<Byte>)
    requires |bytes| < 3
    ensures |Encode(bytes)| == TextLength(|bytes|)
    ensures SymbolsUpTo(Encode(bytes), |Encode(bytes)| - Padding(|bytes|))
    ensures Padding(|bytes|) > 0 ==> |Encode(bytes)| > 0 && Encode(bytes)[|Encode(bytes)| - 1] == '='
  {
    hide Symbol, IsSymbol, Group;
    if |bytes| == 2 {
      SymbolRoundTrip(bytes[0] / 4);
      SymbolRoundTrip(bytes[0] % 4 * 16 + bytes[1] / 16);
      SymbolRoundTrip(bytes[1] % 16 * 4);
    } else if |bytes| == 1 {
      SymbolRoundTrip(bytes[0] / 4);
      SymbolRoundTrip(bytes[0] % 4 * 16);
    }
  }

  lemma PinOfShape(digest: seq<Byte>)
    requires |digest| == 32
    ensures PinShape(PinOf(digest)) && PinOf(digest)[|PIN_PREFIX|..] == Encode(digest)
      && Strip(PinOf(digest)) == PinOf(digest)
  {
    hide Encode;
    EncodeShape(digest);
    assert TextLength(32) == 44 && Padding(32) == 1;
    var pin := PinOf(digest);
    assert pin[|PIN_PREFIX|..] == Encode(digest);
    assert pin[0] == 's' && pin[|pin| - 1] == '=';
  }

  /** Up to surrounding white space, exactly the pins of 32-byte digests are valid, each of one digest only. */
  lemma TlsPinsExactly(value: string, pin: string)
    ensures ValidateTlsPin(value) == Ok(pin) <==>
      pin == Strip(value) && exists digest: seq<Byte> :: |digest| == 32 && pin == "sha256/" + Encode(digest)
  {
    if exists digest: seq<Byte> :: |digest| == 32 && pin == PinOf(digest) {
      var digest: seq<Byte> :| |digest| == 32 && pin == PinOf(digest);
      PinOfShape(digest);
      DecodeEncode(digest);
    }
    if ValidateTlsPin(value) == Ok(pin) {
      var encoded := pin[|PIN_PREFIX|..];
      var digest := Decode(encoded).value;
      assert pin == PIN_PREFIX + encoded;
      assert |digest| == 32 && pin == PinOf(digest);
    }
  }

  /** Every generated pin is valid, and two digests never share one. */
  lemma GeneratedPins(a: seq<Byte>, b: seq<Byte>)
    requires |a| == 32
    ensures ValidateTlsPin(PinOf(a)) == Ok(PinOf(a))
    ensures PinOf(a) == PinOf(b) ==> a == b
  {
    PinOfShape(a);
    TlsPinsExactly(PinOf(a), PinOf(a));
    if PinOf(a) == PinOf(b) {
      assert PinOf(b)[|PIN_PREFIX|..] == Encode(b);
      EncodeInjective(a, b);
    }
  }
}
