/** JSON values as Python's `json` module reads them. An object is the list of its fields in
    strictly rising key order, which makes equal dictionaries equal values. */
module JsonValue {
  import opened Wrappers
  import opened StableSorting
  import Characters

  datatype Json =
    | Null
    | Bool(b: bool)
    | Int(i: int)
    | Float(text: string)
    | String(s: string)
    | Array(items: seq<Json>)
    | Object(fields: seq<Field>)

  datatype Field = Field(key: string, value: Json)

  /** Code-point order, Python's order on strings. */
  predicate Before(a: string, b: string)
    decreases |a|
  {
    if a == "" || b == "" then a == "" && b != ""
    else a[0] < b[0] || (a[0] == b[0] && Before(a[1..], b[1..]))
  }

  predicate AtMost(a: string, b: string) {
    a == b || Before(a, b)
  }

  lemma {:induction false} BeforeTrichotomy(a: string, b: string)
    ensures a == b || Before(a, b) || Before(b, a)
    ensures !(Before(a, b) && Before(b, a)) && !(a == b && Before(a, b))
    decreases |a|
  {
    if a != "" && b != "" && a[0] == b[0] {
      BeforeTrichotomy(a[1..], b[1..]);
      assert a == [a[0]] + a[1..] && b == [b[0]] + b[1..];
    }
  }

  lemma {:induction false} BeforeTransitive(a: string, b: string, c: string)
    requires Before(a, b) && Before(b, c)
    ensures Before(a, c)
    decreases |a|
  {
    if a != "" && a[0] == b[0] && b[0] == c[0] { BeforeTransitive(a[1..], b[1..], c[1..]); }
  }

  lemma AtMostOrders()
    ensures TotalPreorder(AtMost)
  {
    forall a, b ensures AtMost(a, b) || AtMost(b, a) { BeforeTrichotomy(a, b); }
    forall a, b, c | AtMost(a, b) && AtMost(b, c) ensures AtMost(a, c) {
      if Before(a, b) && Before(b, c) { BeforeTransitive(a, b, c); }
    }
  }

  // ---------- objects as dictionaries

  ghost predicate Sorted(fields: seq<Field>) {
    forall i, j :: 0 <= i < j < |fields| ==> Before(fields[i].key, fields[j].key)
  }

  function Find(fields: seq<Field>, key: string): Option<Json> {
    if fields == [] then None
    else if fields[|fields| - 1].key == key then Some(fields[|fields| - 1].value)
    else Find(fields[..|fields| - 1], key)
  }

  function Keys(fields: seq<Field>): set<string> {
    set f | f in fields :: f.key
  }

  /** `value.get(key)` on an object, its missing members being `None`. */
  function Get(value: Json, key: string): Json
    requires value.Object?
  {
    match Find(value.fields, key) case Some(v) => v case None => Null
  }

  /** A text that is a SHA-256 digest. */
  predicate Digest(value: Json) {
    value.String? && Characters.LowerHex64(value.s)
  }

  // ---------- the members of an object

  /** The member of that name; of two fields of one name the later one counts. */
  ghost predicate Member(value: Json, key: string, x: Json) {
    value.Object? && exists i :: LastField(value.fields, key, i) && value.fields[i].value == x
  }

  predicate LastField(fields: seq<Field>, key: string, i: int) {
    && 0 <= i < |fields| && fields[i].key == key
    && forall j | i < j < |fields| :: fields[j].key != key
  }

  /** An object with members of these names and of no others. */
  ghost predicate HasExactly(value: Json, keys: set<string>) {
    && value.Object?
    && (forall i | 0 <= i < |value.fields| :: value.fields[i].key in keys)
    && (forall key | key in keys :: exists i :: 0 <= i < |value.fields| && value.fields[i].key == key)
  }

  lemma {:induction false} FindExactly(fields: seq<Field>, key: string, x: Json)
    ensures Find(fields, key) == Some(x) <==> exists i :: LastField(fields, key, i) && fields[i].value == x
  {
    if fields != [] {
      var last := |fields| - 1;
      var before := fields[..last];
      FindExactly(before, key, x);
      if fields[last].key == key {
        assert LastField(fields, key, last);
        assert forall i | LastField(fields, key, i) :: i == last;
      } else {
        assert forall i :: LastField(fields, key, i) <==> LastField(before, key, i);
      }
    }
  }

  lemma {:induction false} FoundExactly(fields: seq<Field>, key: string)
    ensures Find(fields, key).Some? <==> key in Keys(fields)
  {
    if fields != [] {
      var last := |fields| - 1;
      FoundExactly(fields[..last], key);
      assert fields == fields[..last] + [fields[last]];
      assert fields[last] in fields;
    }
  }

  /** `get` gives the member of that name, and the keys are the names. */
  lemma MemberIsGet(value: Json, key: string, x: Json)
    requires value.Object?
    ensures Member(value, key, x) <==> key in Keys(value.fields) && Get(value, key) == x
  {
    hide Find, Keys, LastField;
    FindExactly(value.fields, key, x);
    FoundExactly(value.fields, key);
  }

  /** A member that is not null is there exactly when `get` gives it. */
  lemma MemberGot(value: Json, key: string, x: Json)
    requires value.Object? && x != Null
    ensures Member(value, key, x) <==> Get(value, key) == x
  {
    hide Find, Keys, LastField;
    MemberIsGet(value, key, x);
    FoundExactly(value.fields, key);
  }

  lemma NoMember(value: Json)
    requires !value.Object?
    ensures forall key, x :: !Member(value, key, x)
  {
  }

  /** Its texts and its numbers. */
  lemma MembersGot(value: Json, key: string)
    requires value.Object?
    ensures forall text :: Member(value, key, String(text)) <==> Get(value, key) == String(text)
    ensures forall i :: Member(value, key, Int(i)) <==> Get(value, key) == Int(i)
  {
    hide Member, Get;
    forall text ensures Member(value, key, String(text)) <==> Get(value, key) == String(text) {
      MemberGot(value, key, String(text));
    }
    forall i ensures Member(value, key, Int(i)) <==> Get(value, key) == Int(i) {
      MemberGot(value, key, Int(i));
    }
  }

  lemma ExactIsObject(item: Json, names: set<string>)
    ensures HasExactly(item, names) ==> item.Object?
  {
  }

  lemma KeysExactly(value: Json, keys: set<string>)
    requires value.Object?
    ensures Keys(value.fields) == keys <==> HasExactly(value, keys)
  {
    forall i | 0 <= i < |value.fields| ensures value.fields[i].key in Keys(value.fields) {
      assert value.fields[i] in value.fields;
    }
    forall key | key in Keys(value.fields) ensures exists i :: 0 <= i < |value.fields| && value.fields[i].key == key {
      var f :| f in value.fields && f.key == key;
    }
  }

  /** Code-point order in plain words: a proper prefix, or smaller at the first difference. */
  lemma {:induction false} BeforeExactly(a: string, b: string)
    ensures Before(a, b) <==> (a < b || exists k :: SmallerAt(a, b, k))
    decreases |a|
  {
    if a != "" && b != "" {
      forall k | SmallerAt(a, b, k) ensures a[0] <= b[0] { SmallerHead(a, b, k); }
      var s, t := a[1..], b[1..];
      if a[0] == b[0] {
        BeforeExactly(s, t);
        assert a == [a[0]] + s && b == [b[0]] + t;
        assert a < b <==> s < t;
        forall k | SmallerAt(s, t, k) ensures SmallerAt(a, b, k + 1) {
          assert a[..k + 1] == [a[0]] + s[..k] && b[..k + 1] == [b[0]] + t[..k];
        }
        forall k | SmallerAt(a, b, k) ensures SmallerAt(s, t, k - 1) {
          assert s[..k - 1] == a[..k][1..] && t[..k - 1] == b[..k][1..];
        }
      } else if a[0] < b[0] {
        assert SmallerAt(a, b, 0);
      }
    }
  }

  lemma SmallerHead(a: string, b: string, k: int)
    requires SmallerAt(a, b, k)
    ensures a[0] <= b[0]
  {
    assert a[..k] == b[..k];
    if k > 0 { assert a[..k][0] == a[0] && b[..k][0] == b[0]; }
  }

  predicate SmallerAt(a: string, b: string, k: int) {
    0 <= k < |a| && k < |b| && a[..k] == b[..k] && a[k] < b[k]
  }

  /** A digest is a text of 64 characters out of sixteen. */
  lemma DigestExactly(value: Json)
    ensures Digest(value) <==> value.String? && |value.s| == 64 && Drawn(value.s, "0123456789abcdef")
  {
    if value.String? && |value.s| == 64 {
      forall i | 0 <= i < 64
        ensures value.s[i] in "0123456789abcdef" <==> '0' <= value.s[i] <= '9' || 'a' <= value.s[i] <= 'f'
      {
        HexDigits(value.s[i]);
      }
    }
  }

  lemma HexDigits(c: char)
    ensures c in "0123456789abcdef" <==> '0' <= c <= '9' || 'a' <= c <= 'f'
  {
    var digits := "0123456789abcdef";
    if '0' <= c <= '9' { assert digits[c as int - '0' as int] == c; }
    if 'a' <= c <= 'f' { assert digits[c as int - 'a' as int + 10] == c; }
  }

  /** A text of characters from an alphabet. */
  predicate Drawn(text: string, alphabet: string) {
    forall i | 0 <= i < |text| :: text[i] in alphabet
  }
}
