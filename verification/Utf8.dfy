/** UTF-8 as `str.encode` writes it and `bytes.decode` reads it in strict mode, section 4 of RFC 3629. */
module Utf8 {
  import opened Wrappers
  import opened Base64

  /** The bytes of one character. */
  function CharBytes(c: char): (bytes: seq<Byte>)
    ensures bytes != []
  {
    var n := c as int;
    if n < 0x80 then [n]
    else if n < 0x800 then [0xC0 + n / 64, 0x80 + n % 64]
    else if n < 0x10000 then [0xE0 + n / 4096, 0x80 + n / 64 % 64, 0x80 + n % 64]
    else [0xF0 + n / 262144, 0x80 + n / 4096 % 64, 0x80 + n / 64 % 64, 0x80 + n % 64]
  }

  function ToBytes(text: string): seq<Byte> {
    if text == "" then [] else ToBytes(text[..|text| - 1]) + CharBytes(text[|text| - 1])
  }

  predicate Continues(b: Byte) { 0x80 <= b < 0xC0 }

  /** How many bytes the first character takes: 0 when it is not well formed. Overlong forms,
      surrogates and numbers beyond 0x10FFFF are not. */
  function FirstLength(bytes: seq<Byte>): (n: nat)
    ensures n <= |bytes| && n <= 4
  {
    if bytes == [] then 0
    else
      var a := bytes[0];
      if a < 0x80 then 1
      else if 0xC2 <= a < 0xE0 then (if |bytes| >= 2 && Continues(bytes[1]) then 2 else 0)
      else if 0xE0 <= a < 0xF0 then
        if |bytes| >= 3 && Continues(bytes[1]) && Continues(bytes[2])
           && (a == 0xE0 ==> bytes[1] >= 0xA0) && (a == 0xED ==> bytes[1] < 0xA0)
        then 3 else 0
      else if 0xF0 <= a < 0xF5 then
        if |bytes| >= 4 && Continues(bytes[1]) && Continues(bytes[2]) && Continues(bytes[3])
           && (a == 0xF0 ==> bytes[1] >= 0x90) && (a == 0xF4 ==> bytes[1] < 0x90)
        then 4 else 0
      else 0
  }

  /** The six bits a continuation byte carries. */
  function Six(b: Byte): int { b as int - 0x80 }

  function FirstCode(bytes: seq<Byte>): (n: int)
    requires FirstLength(bytes) > 0
    ensures 0 <= n < 0xD800 || 0xE000 <= n < 0x110000
  {
    var a := bytes[0] as int;
    match FirstLength(bytes)
    case 1 => a
    case 2 => (a - 0xC0) * 64 + Six(bytes[1])
    case 3 => (a - 0xE0) * 4096 + Six(bytes[1]) * 64 + Six(bytes[2])
    case _ => (a - 0xF0) * 262144 + Six(bytes[1]) * 4096 + Six(bytes[2]) * 64 + Six(bytes[3])
  }

  function FromBytes(bytes: seq<Byte>): Option<string>
    decreases |bytes|
  {
    if bytes == [] then Some("")
    else if FirstLength(bytes) == 0 then None
    else
      match FromBytes(bytes[FirstLength(bytes)..])
      case None => None
      case Some(rest) => Some([FirstCode(bytes) as char] + rest)
  }

  /** The digits of a character number to the base 64. */
  lemma Digits(n: nat)
    ensures n == n / 64 * 64 + n % 64 && n / 64 == n / 4096 * 64 + n / 64 % 64
    ensures n / 4096 == n / 262144 * 64 + n / 4096 % 64
  {
    assert n / 4096 == n / 64 / 64 && n / 262144 == n / 4096 / 64;
  }

  lemma Two(p: nat, q: nat, rest: seq<Byte>)
    requires 2 <= p < 32 && q < 64
    ensures var bytes := [0xC0 + p, 0x80 + q] + rest;
      FirstLength(bytes) == 2 && FirstCode(bytes) == p * 64 + q
  {
  }

  lemma Three(p: nat, q: nat, r: nat, rest: seq<Byte>)
    requires p < 16 && q < 64 && r < 64 && (p == 0 ==> q >= 32) && (p == 13 ==> q < 32)
    ensures var bytes := [0xE0 + p, 0x80 + q, 0x80 + r] + rest;
      FirstLength(bytes) == 3 && FirstCode(bytes) == p * 4096 + q * 64 + r
  {
  }

  lemma Four(p: nat, q: nat, r: nat, t: nat, rest: seq<Byte>)
    requires p < 5 && q < 64 && r < 64 && t < 64 && (p == 0 ==> q >= 16) && (p == 4 ==> q < 16)
    ensures var bytes := [0xF0 + p, 0x80 + q, 0x80 + r, 0x80 + t] + rest;
      FirstLength(bytes) == 4 && FirstCode(bytes) == p * 262144 + q * 4096 + r * 64 + t
  {
  }

  /** The first character of an encoded text is read back. */
  lemma FirstChar(c: char, rest: seq<Byte>)
    ensures FirstLength(CharBytes(c) + rest) == |CharBytes(c)|
    ensures FirstCode(CharBytes(c) + rest) == c as int
  {
    hide FirstLength, FirstCode;
    var n := c as int;
    Digits(n);
    if n < 0x80 {
      One(n, rest);
    } else if n < 0x800 {
      Two(n / 64, n % 64, rest);
    } else if n < 0x10000 {
      Three(n / 4096, n / 64 % 64, n % 64, rest);
    } else {
      Four(n / 262144, n / 4096 % 64, n / 64 % 64, n % 64, rest);
    }
  }

  lemma One(n: nat, rest: seq<Byte>)
    requires n < 128
    ensures var bytes := [n] + rest; FirstLength(bytes) == 1 && FirstCode(bytes) == n
  {
  }

  lemma {:induction false} BytesCons(c: char, text: string)
    ensures ToBytes([c] + text) == CharBytes(c) + ToBytes(text)
  {
    hide CharBytes;
    if text == "" {
      assert [c] + text == [c] && [c][..0] == "";
    } else {
      assert ([c] + text)[..|text|] == [c] + text[..|text| - 1];
      BytesCons(c, text[..|text| - 1]);
    }
  }

  /** Decoding undoes encoding. */
  lemma {:induction false} DecodeEncodeText(text: string)
    ensures FromBytes(ToBytes(text)) == Some(text)
  {
    hide CharBytes, FirstLength, FirstCode;
    if text != "" {
      var c, rest := text[0], text[1..];
      DecodeEncodeText(rest);
      BytesCons(c, rest);
      assert text == [c] + rest;
      FirstChar(c, ToBytes(rest));
      assert (CharBytes(c) + ToBytes(rest))[|CharBytes(c)|..] == ToBytes(rest);
    }
  }

  /** The bytes of one character by the table of RFC 3629: the bits behind the marks are its number, and
      the shortest form that holds it is taken. */
  predicate Writes(bytes: seq<Byte>, n: int) {
    match |bytes|
    case 1 => n < 0x80 && n == bytes[0]
    case 2 =>
      && 0x80 <= n && 0xC0 <= bytes[0] < 0xE0 && Marked(bytes[1..])
      && n == (bytes[0] as int - 0xC0) * 64 + (bytes[1] as int - 0x80)
    case 3 =>
      && 0x800 <= n && 0xE0 <= bytes[0] < 0xF0 && Marked(bytes[1..])
      && n == (bytes[0] as int - 0xE0) * 4096 + (bytes[1] as int - 0x80) * 64 + (bytes[2] as int - 0x80)
    case 4 =>
      && 0x10000 <= n && 0xF0 <= bytes[0] < 0xF8 && Marked(bytes[1..])
      && n == (bytes[0] as int - 0xF0) * 262144 + (bytes[1] as int - 0x80) * 4096 + (bytes[2] as int - 0x80) * 64
              + (bytes[3] as int - 0x80)
    case _ => false
  }

  predicate Marked(bytes: seq<Byte>) {
    forall i | 0 <= i < |bytes| :: 0x80 <= bytes[i] < 0xC0
  }

  lemma CharWrites(c: char)
    ensures Writes(CharBytes(c), c as int)
  {
    Digits(c as int);
  }

  /** A well-formed beginning is the code of the character read from it. */
  lemma FirstIsCode(bytes: seq<Byte>)
    requires FirstLength(bytes) > 0
    ensures CharBytes(FirstCode(bytes) as char) == bytes[..FirstLength(bytes)]
  {
    var a := bytes[0] as int;
    match FirstLength(bytes)
    case 1 =>
    case 2 => LowDigits(a - 0xC0, Six(bytes[1]));
    case 3 => ThreeDigits(a - 0xE0, Six(bytes[1]), Six(bytes[2]));
    case _ => FourDigits(a - 0xF0, Six(bytes[1]), Six(bytes[2]), Six(bytes[3]));
  }

  lemma ThreeDigits(p: int, q: int, r: int)
    requires 0 <= p && 0 <= q < 64 && 0 <= r < 64
    ensures var n := p * 4096 + q * 64 + r; n / 4096 == p && n / 64 % 64 == q && n % 64 == r
  {
    LowDigits(p * 64 + q, r);
    LowDigits(p, q);
  }

  lemma FourDigits(p: int, q: int, r: int, t: int)
    requires 0 <= p && 0 <= q < 64 && 0 <= r < 64 && 0 <= t < 64
    ensures var n := p * 262144 + q * 4096 + r * 64 + t;
      n / 262144 == p && n / 4096 % 64 == q && n / 64 % 64 == r && n % 64 == t
  {
    ThreeDigits(p * 64 + q, r, t);
    LowDigits(p, q);
  }

  lemma LowDigits(high: int, low: int)
    requires 0 <= high && 0 <= low < 64
    ensures (high * 64 + low) / 64 == high && (high * 64 + low) % 64 == low
  {
  }

  /** Exactly the codes are read, each as its text. */
  lemma {:induction false} FromBytesExactly(bytes: seq<Byte>, text: string)
    ensures FromBytes(bytes) == Some(text) <==> bytes == ToBytes(text)
    decreases |bytes|
  {
    hide CharBytes, FirstLength, FirstCode, ToBytes;
    DecodeEncodeText(text);
    if FromBytes(bytes) == Some(text) {
      if bytes == [] {
        NoText();
      } else {
        var n := FirstLength(bytes);
        var rest := FromBytes(bytes[n..]).value;
        FromBytesExactly(bytes[n..], rest);
        FirstIsCode(bytes);
        BytesCons(FirstCode(bytes) as char, rest);
        assert bytes == bytes[..n] + bytes[n..];
      }
    }
  }

  lemma NoText()
    ensures ToBytes("") == []
  {
  }
}
