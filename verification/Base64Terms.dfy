/** Base64 as section 4 of RFC 4648 describes it: groups of 24 bits, read as four numbers of 6 bits each. */
module Base64Terms {
  import opened Wrappers
  import opened Base64
  import Characters

  /** Table 1 of RFC 4648. */
  const ALPHABET := UPPER + LOWER + "0123456789+/"

  const UPPER := "ABCDEFGHIJKLMNOPQRSTUVWXYZ"

  const LOWER := "abcdefghijklmnopqrstuvwxyz"

  function ByteAt(bytes: seq<Byte>, i: nat): int {
    if i < |bytes| then bytes[i] else 0
  }

  /** Group `g` of three bytes as one number; bytes beyond the end are zero. */
  function GroupNumber(bytes: seq<Byte>, g: nat): int {
    ByteAt(bytes, 3 * g) * 65536 + ByteAt(bytes, 3 * g + 1) * 256 + ByteAt(bytes, 3 * g + 2)
  }

  /** The four numbers of 6 bits in a group, the highest first. */
  function SixBits(n: int, k: int): int {
    (match k case 0 => n / 262144 case 1 => n / 4096 case 2 => n / 64 case _ => n) % 64
  }

  lemma LettersInOrder(k: nat)
    requires k < 26
    ensures |UPPER| == 26 && UPPER[k] as int == 'A' as int + k
    ensures |LOWER| == 26 && LOWER[k] as int == 'a' as int + k
  {
  }

  lemma SymbolExactly(v: nat)
    requires v < 64
    ensures |ALPHABET| == 64 && Symbol(v) == ALPHABET[v]
  {
    hide UPPER, LOWER;
    LettersInOrder(if v < 26 then v else if v < 52 then v - 26 else 0);
    assert ALPHABET[52..] == "0123456789+/";
    if v >= 52 { assert ALPHABET[v] == ALPHABET[52..][v - 52]; }
  }

  lemma GroupBits(x: Byte, y: Byte, z: Byte)
    ensures var n := x * 65536 + y * 256 + z;
      && SixBits(n, 0) == x / 4
      && SixBits(n, 1) == x % 4 * 16 + y / 16
      && SixBits(n, 2) == y % 16 * 4 + z / 64
      && SixBits(n, 3) == z % 64
  {
    var a, b, c, d := x / 4, x % 4 * 16 + y / 16, y % 16 * 4 + z / 64, z % 64;
    assert x == x / 4 * 4 + x % 4 && y == y / 16 * 16 + y % 16 && z == z / 64 * 64 + z % 64;
    assert x * 65536 + y * 256 + z == a * 262144 + b * 4096 + c * 64 + d;
    BaseSixtyFour(a, b, c, d);
  }

  lemma BaseSixtyFour(a: nat, b: nat, c: nat, d: nat)
    requires a < 64 && b < 64 && c < 64 && d < 64
    ensures var n := a * 262144 + b * 4096 + c * 64 + d;
      SixBits(n, 0) == a && SixBits(n, 1) == b && SixBits(n, 2) == c && SixBits(n, 3) == d
  {
    var n := a * 262144 + b * 4096 + c * 64 + d;
    assert n / 64 == a * 4096 + b * 64 + c;
    assert n / 4096 == a * 64 + b;
    assert n / 262144 == a;
  }

  /** Character `i` of the code: the symbol of its six bits, or padding when these begin behind the last byte. */
  function CodeAt(bytes: seq<Byte>, i: nat): char {
    if 6 * i >= 8 * |bytes| then '='
    else ALPHABET[SixBits(GroupNumber(bytes, i / 4), i % 4)]
  }

  /** The whole code: four characters for every three bytes begun, each the one its place asks for. */
  lemma {:induction false} EncodeExactly(bytes: seq<Byte>)
    ensures |Encode(bytes)| == 4 * ((|bytes| + 2) / 3)
    ensures forall i | 0 <= i < |Encode(bytes)| :: Encode(bytes)[i] == CodeAt(bytes, i)
  {
    hide Encode, CodeAt, Group;
    if |bytes| >= 3 {
      var rest := bytes[3..];
      EncodeExactly(rest);
      EncodeGroup(bytes);
      GroupHasFour(bytes[0], bytes[1], bytes[2]);
      var text, group := Encode(bytes), Group(bytes[0], bytes[1], bytes[2]);
      FirstGroup(bytes);
      forall i | 0 <= i < |text| ensures text[i] == CodeAt(bytes, i) {
        if i < 4 { assert text[i] == group[i]; } else { LaterGroup(bytes, i); }
      }
    } else {
      LastGroup(bytes);
    }
  }

  lemma FirstGroup(bytes: seq<Byte>)
    requires |bytes| >= 3
    ensures forall i | 0 <= i < 4 :: |Group(bytes[0], bytes[1], bytes[2])| == 4
                                  && Group(bytes[0], bytes[1], bytes[2])[i] == CodeAt(bytes, i)
  {
    hide Symbol, SixBits, ALPHABET;
    var x: int, y: int, z: int := bytes[0], bytes[1], bytes[2];
    GroupBits(x, y, z);
    assert GroupNumber(bytes, 0) == x * 65536 + y * 256 + z;
    SymbolExactly(x / 4);
    SymbolExactly(x % 4 * 16 + y / 16);
    SymbolExactly(y % 16 * 4 + z / 64);
    SymbolExactly(z % 64);
    var group := Group(x, y, z);
    assert group[0] == CodeAt(bytes, 0) && group[1] == CodeAt(bytes, 1);
    assert group[2] == CodeAt(bytes, 2) && group[3] == CodeAt(bytes, 3);
  }

  lemma LaterGroup(bytes: seq<Byte>, i: nat)
    requires |bytes| >= 3 && i >= 4
    ensures CodeAt(bytes, i) == CodeAt(bytes[3..], i - 4)
  {
    hide SixBits, ALPHABET;
    var g := i / 4;
    assert (i - 4) / 4 == g - 1 && (i - 4) % 4 == i % 4;
    assert ByteAt(bytes, 3 * g) == ByteAt(bytes[3..], 3 * (g - 1));
    assert ByteAt(bytes, 3 * g + 1) == ByteAt(bytes[3..], 3 * (g - 1) + 1);
    assert ByteAt(bytes, 3 * g + 2) == ByteAt(bytes[3..], 3 * (g - 1) + 2);
  }

  lemma LastGroup(bytes: seq<Byte>)
    requires |bytes| < 3
    ensures |Encode(bytes)| == 4 * ((|bytes| + 2) / 3)
    ensures forall i | 0 <= i < |Encode(bytes)| :: Encode(bytes)[i] == CodeAt(bytes, i)
  {
    hide Symbol, SixBits, ALPHABET;
    if |bytes| > 0 {
      var x: int, y: int := ByteAt(bytes, 0), ByteAt(bytes, 1);
      GroupBits(x, y, 0);
      assert GroupNumber(bytes, 0) == x * 65536 + y * 256;
      SymbolExactly(x / 4);
      SymbolExactly(x % 4 * 16 + y / 16);
      SymbolExactly(y % 16 * 4);
    }
  }

  // ---------- stripped text and pins

  /** What is left when the white space at both ends is cut off. */
  ghost predicate Stripped(text: string, core: string) {
    exists i, j :: CutOut(text, core, i, j)
  }

  ghost predicate CutOut(text: string, core: string, i: int, j: int) {
    && 0 <= i <= j <= |text| && text[i..j] == core
    && (forall k | 0 <= k < i || j <= k < |text| :: Characters.Space(text[k]))
    && (core != "" ==> !Characters.Space(core[0]) && !Characters.Space(core[|core| - 1]))
  }

  lemma {:induction false} StripCutsOut(text: string) returns (i: int, j: int)
    ensures CutOut(text, Strip(text), i, j)
    decreases |text|
  {
    hide Characters.Space;
    if text == "" {
      i, j := 0, 0;
    } else if Characters.Space(text[0]) {
      i, j := StripCutsOut(text[1..]);
      assert forall k | 1 <= k < |text| :: text[k] == text[1..][k - 1];
      i, j := i + 1, j + 1;
      assert text[i..j] == text[1..][i - 1..j - 1];
    } else if Characters.Space(text[|text| - 1]) {
      i, j := StripCutsOut(text[..|text| - 1]);
    } else {
      i, j := 0, |text|;
    }
  }

  lemma CutOutOnce(text: string, a: string, i: int, j: int, b: string, k: int, l: int)
    requires CutOut(text, a, i, j) && CutOut(text, b, k, l) && a != ""
    ensures a == b
  {
    hide Characters.Space;
    assert text[i] == a[0] && text[j - 1] == a[|a| - 1];
    if b != "" { assert text[k] == b[0] && text[l - 1] == b[|b| - 1]; }
    assert i == k && j == l;
  }

  lemma StripExactly(text: string, core: string)
    ensures Strip(text) == core <==> Stripped(text, core)
  {
    hide CutOut;
    var i, j := StripCutsOut(text);
    if Stripped(text, core) {
      var k, l :| CutOut(text, core, k, l);
      if Strip(text) != "" { CutOutOnce(text, Strip(text), i, j, core, k, l); }
      else if core != "" { CutOutOnce(text, core, k, l, Strip(text), i, j); }
    }
  }
}
