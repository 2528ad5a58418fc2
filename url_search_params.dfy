/**
 * `URLSearchParams` as a list of name-value pairs, with the operations the
 * catalog page uses (get, getAll, delete, set, append) and the
 * application/x-www-form-urlencoded serializer of the WHATWG URL Standard
 * (section 5.2, "application/x-www-form-urlencoded serializing"). A decoder
 * that undoes the serializer shows that serialization is injective, so two
 * parameter lists serialize alike exactly when they are equal.
 */
module UrlSearchParams {
  import opened Wrappers

  type Params = seq<(string, string)>

  // ================================================================ queries and edits

  /** `params.get(key)`: the value of the first pair named `key`. */
  function Get(ps: Params, key: string): (r: Option<string>)
    ensures r.None? <==> forall i :: 0 <= i < |ps| ==> ps[i].0 != key
    ensures r.Some? ==> exists i :: 0 <= i < |ps| && ps[i] == (key, r.value) && forall j :: 0 <= j < i ==> ps[j].0 != key
  {
    if ps == [] then None
    else if ps[0].0 == key then Some(ps[0].1)
    else
      var r := Get(ps[1..], key);
      assert forall i :: 0 < i < |ps| ==> ps[i] == ps[1..][i - 1];
      r
  }

  /** `params.getAll(key)`: the values of the pairs named `key`, in order. */
  function GetAll(ps: Params, key: string): (r: seq<string>)
    ensures |r| <= |ps|
    ensures r == [] <==> Get(ps, key).None?
    ensures forall v :: v in r <==> (key, v) in ps
  {
    if ps == [] then []
    else
      var rest := GetAll(ps[1..], key);
      assert forall p :: p in ps <==> p == ps[0] || p in ps[1..];
      if ps[0].0 == key then [ps[0].1] + rest else rest
  }

  lemma {:induction false} GetAllAppend(ps: Params, name: string, value: string, key: string)
    ensures GetAll(ps + [(name, value)], key) == GetAll(ps, key) + (if name == key then [value] else [])
  {
    if ps != [] {
      assert (ps + [(name, value)])[1..] == ps[1..] + [(name, value)];
      GetAllAppend(ps[1..], name, value, key);
    }
  }

  /** `params.delete(key)`: every pair named `key` removed, the others kept in order. */
  function Deleted(ps: Params, key: string): (r: Params)
    ensures forall p :: p in r <==> p in ps && p.0 != key
    ensures Get(r, key).None? && GetAll(r, key) == []
  {
    if ps == [] then []
    else
      var rest := Deleted(ps[1..], key);
      assert forall p :: p in ps <==> p == ps[0] || p in ps[1..];
      if ps[0].0 == key then rest else [ps[0]] + rest
  }

  /** Deleting one name leaves the values of every other name as they were. */
  lemma {:induction false} DeletedKeepsOthers(ps: Params, key: string, other: string)
    requires other != key
    ensures GetAll(Deleted(ps, key), other) == GetAll(ps, other)
    ensures Get(Deleted(ps, key), other) == Get(ps, other)
  {
    if ps != [] {
      DeletedKeepsOthers(ps[1..], key, other);
      if ps[0].0 != key {
        assert ([ps[0]] + Deleted(ps[1..], key))[1..] == Deleted(ps[1..], key);
      }
    }
  }

  /** A list without pairs named `key` is its own `Deleted`. */
  lemma {:induction false} DeletedAbsent(ps: Params, key: string)
    requires Get(ps, key).None?
    ensures Deleted(ps, key) == ps
  {
    if ps != [] {
      DeletedAbsent(ps[1..], key);
    }
  }

  /** The tail of `set` once the first pair named `key` has been found. */
  function ReplaceFirst(ps: Params, key: string, value: string): (r: Params)
    requires Get(ps, key).Some?
    ensures GetAll(r, key) == [value]
  {
    if ps[0].0 == key then
      var r := [(key, value)] + Deleted(ps[1..], key);
      assert r[1..] == Deleted(ps[1..], key);
      r
    else
      var r := [ps[0]] + ReplaceFirst(ps[1..], key, value);
      assert r[1..] == ReplaceFirst(ps[1..], key, value);
      r
  }

  /**
   * `params.set(key, value)`: the first pair named `key` gets `value` and the
   * later ones are removed; without such a pair, the pair is appended.
   */
  function WithValue(ps: Params, key: string, value: string): (r: Params)
    ensures GetAll(r, key) == [value]
    ensures Get(r, key) == Some(value)
  {
    if Get(ps, key).Some? then ReplaceFirst(ps, key, value)
    else
      GetAllAppend(ps, key, value, key);
      ps + [(key, value)]
  }

  lemma {:induction false} ReplaceFirstKeepsOthers(ps: Params, key: string, value: string, other: string)
    requires Get(ps, key).Some? && other != key
    ensures GetAll(ReplaceFirst(ps, key, value), other) == GetAll(ps, other)
  {
    if ps[0].0 == key {
      DeletedKeepsOthers(ps[1..], key, other);
      assert ([(key, value)] + Deleted(ps[1..], key))[1..] == Deleted(ps[1..], key);
    } else {
      ReplaceFirstKeepsOthers(ps[1..], key, value, other);
      assert ([ps[0]] + ReplaceFirst(ps[1..], key, value))[1..] == ReplaceFirst(ps[1..], key, value);
    }
  }

  /** Setting one name leaves the values of every other name as they were. */
  lemma WithValueKeepsOthers(ps: Params, key: string, value: string, other: string)
    requires other != key
    ensures GetAll(WithValue(ps, key, value), other) == GetAll(ps, other)
  {
    if Get(ps, key).Some? {
      ReplaceFirstKeepsOthers(ps, key, value, other);
    } else {
      GetAllAppend(ps, key, value, other);
    }
  }

  // ================================================================ serializing

  /** Code points left as they are by the form-urlencoded percent-encode set. */
  predicate IsUnescaped(c: char) {
    ('a' <= c <= 'z') || ('A' <= c <= 'Z') || ('0' <= c <= '9') || c == '*' || c == '-' || c == '.' || c == '_'
  }

  /** An upper-case hexadecimal digit. */
  function HexDigit(d: int): char
    requires 0 <= d < 16
  {
    "0123456789ABCDEF"[d]
  }

  type Byte = b: int | 0 <= b < 256

  /** The UTF-8 encoding of a Unicode scalar value. */
  function Utf8(c: char): (bytes: seq<Byte>)
    ensures 1 <= |bytes| <= 4
  {
    var cp := c as int;
    if cp < 0x80 then [cp]
    else if cp < 0x800 then [0xC0 + cp / 64, 0x80 + cp % 64]
    else if cp < 0x10000 then [0xE0 + cp / 4096, 0x80 + (cp / 64) % 64, 0x80 + cp % 64]
    else [0xF0 + cp / 262144, 0x80 + (cp / 4096) % 64, 0x80 + (cp / 64) % 64, 0x80 + cp % 64]
  }

  /** Each byte as `%` and two upper-case hexadecimal digits. */
  function PercentEncode(bytes: seq<Byte>): string {
    if bytes == [] then ""
    else ['%', HexDigit(bytes[0] / 16), HexDigit(bytes[0] % 16)] + PercentEncode(bytes[1..])
  }

  function EncodeChar(c: char): (e: string)
    ensures e != [] && e[0] != '&' && e[0] != '='
  {
    if IsUnescaped(c) then [c]
    else if c == ' ' then "+"
    else PercentEncode(Utf8(c))
  }

  /** The form-urlencoded byte serializer applied to one name or value. */
  function Encode(s: string): string {
    if s == [] then "" else EncodeChar(s[0]) + Encode(s[1..])
  }

  /** `params.toString()`: `name=value` for each pair, joined by `&`. */
  function Serialize(ps: Params): string {
    if ps == [] then ""
    else Encode(ps[0].0) + ("=" + (Encode(ps[0].1) + (if |ps| == 1 then "" else "&" + Serialize(ps[1..]))))
  }

  // ================================================================ decoding

  function HexValue(c: char): Option<int> {
    if '0' <= c <= '9' then Some(c as int - '0' as int)
    else if 'A' <= c <= 'F' then Some(c as int - 'A' as int + 10)
    else None
  }

  lemma HexDigitValue(d: int)
    requires 0 <= d < 16
    ensures HexValue(HexDigit(d)) == Some(d)
  {
  }

  /** Reads `n` percent-encoded bytes from the front of `t`. */
  function ReadBytes(t: string, n: nat): Option<(seq<int>, string)> {
    if n == 0 then Some(([], t))
    else if |t| < 3 || t[0] != '%' then None
    else
      match (HexValue(t[1]), HexValue(t[2]))
      case (Some(hi), Some(lo)) =>
        (match ReadBytes(t[3..], n - 1)
         case Some((bs, rest)) => Some(([hi * 16 + lo] + bs, rest))
         case None => None)
      case _ => None
  }

  lemma {:induction false} ReadPercentEncoded(bytes: seq<Byte>, rest: string)
    ensures ReadBytes(PercentEncode(bytes) + rest, |bytes|) == Some((bytes, rest))
  {
    if bytes != [] {
      var b := bytes[0];
      var t := PercentEncode(bytes) + rest;
      assert t[0] == '%' && HexValue(t[1]) == Some(b / 16) && HexValue(t[2]) == Some(b % 16)
        && t[3..] == PercentEncode(bytes[1..]) + rest by {
        HexDigitValue(b / 16);
        HexDigitValue(b % 16);
        assert t == ['%', HexDigit(b / 16), HexDigit(b % 16)] + (PercentEncode(bytes[1..]) + rest);
      }
      ReadPercentEncoded(bytes[1..], rest);
      ReadBytesStep(t, |bytes|, b / 16, b % 16, bytes[1..], rest);
      assert (b / 16) * 16 + b % 16 == b;
      assert [b] + bytes[1..] == bytes;
    } else {
      assert PercentEncode(bytes) + rest == rest;
    }
  }

  /** One step of `ReadBytes`: a `%`, two hexadecimal digits, then the remaining bytes. */
  lemma ReadBytesStep(t: string, n: nat, hi: int, lo: int, bs: seq<int>, rest: string)
    requires n > 0 && |t| >= 3 && t[0] == '%'
    requires HexValue(t[1]) == Some(hi) && HexValue(t[2]) == Some(lo)
    requires ReadBytes(t[3..], n - 1) == Some((bs, rest))
    ensures ReadBytes(t, n) == Some(([hi * 16 + lo] + bs, rest))
  {
  }

  /** The number of bytes of a UTF-8 sequence, read from its first byte. */
  function SequenceLength(lead: int): nat {
    if lead < 0x80 then 1 else if lead < 0xE0 then 2 else if lead < 0xF0 then 3 else 4
  }

  predicate IsScalarValue(cp: int) {
    (0 <= cp < 0xD800) || (0xE000 <= cp < 0x11_0000)
  }

  /** The code point of a UTF-8 sequence produced by `Utf8`. */
  function FromUtf8(bs: seq<int>): Option<char> {
    var cp :=
      if |bs| == 1 then bs[0]
      else if |bs| == 2 then (bs[0] - 0xC0) * 64 + (bs[1] - 0x80)
      else if |bs| == 3 then (bs[0] - 0xE0) * 4096 + (bs[1] - 0x80) * 64 + (bs[2] - 0x80)
      else if |bs| == 4 then (bs[0] - 0xF0) * 262144 + (bs[1] - 0x80) * 4096 + (bs[2] - 0x80) * 64 + (bs[3] - 0x80)
      else -1;
    if IsScalarValue(cp) then Some(cp as char) else None
  }

  lemma Utf8RoundTrip(c: char)
    ensures SequenceLength(Utf8(c)[0]) == |Utf8(c)|
    ensures FromUtf8(Utf8(c)) == Some(c)
  {
    var cp := c as int;
    if cp < 0x80 {
    } else if cp < 0x800 {
      Utf8TwoBytes(c);
    } else if cp < 0x10000 {
      Utf8ThreeBytes(c);
    } else {
      Utf8FourBytes(c);
    }
  }

  lemma Div64Twice(x: int)
    requires x >= 0
    ensures x / 4096 == (x / 64) / 64
  {
    var q := x / 64;
    assert x == q * 64 + x % 64;
    assert q == (q / 64) * 64 + q % 64;
  }

  lemma Div4096Then64(x: int)
    requires x >= 0
    ensures x / 262144 == (x / 4096) / 64
  {
    var q := x / 4096;
    assert x == q * 4096 + x % 4096;
    assert q == (q / 64) * 64 + q % 64;
  }

  lemma Utf8TwoBytes(c: char)
    requires 0x80 <= c as int < 0x800
    ensures SequenceLength(Utf8(c)[0]) == 2 == |Utf8(c)|
    ensures FromUtf8(Utf8(c)) == Some(c)
  {
    var cp := c as int;
    assert cp == (cp / 64) * 64 + cp % 64;
  }

  lemma Utf8ThreeBytes(c: char)
    requires 0x800 <= c as int < 0x10000
    ensures SequenceLength(Utf8(c)[0]) == 3 == |Utf8(c)|
    ensures FromUtf8(Utf8(c)) == Some(c)
  {
    var cp := c as int;
    var q1 := cp / 64;
    var q2 := q1 / 64;
    Div64Twice(cp);
    assert cp == q2 * 4096 + (q1 % 64) * 64 + cp % 64 by {
      assert cp == q1 * 64 + cp % 64;
      assert q1 == q2 * 64 + q1 % 64;
    }
  }

  lemma Utf8FourBytes(c: char)
    requires 0x10000 <= c as int
    ensures SequenceLength(Utf8(c)[0]) == 4 == |Utf8(c)|
    ensures FromUtf8(Utf8(c)) == Some(c)
  {
    var cp := c as int;
    var q1 := cp / 64;
    var q2 := q1 / 64;
    var q3 := q2 / 64;
    Div64Twice(cp);
    Div4096Then64(cp);
    assert cp == q3 * 262144 + (q2 % 64) * 4096 + (q1 % 64) * 64 + cp % 64 by {
      assert cp == q1 * 64 + cp % 64;
      assert q1 == q2 * 64 + q1 % 64;
      assert q2 == q3 * 64 + q2 % 64;
    }
  }

  /** Decodes one percent-encoded UTF-8 sequence from the front of `t`. */
  function DecodePercent(t: string): Option<(char, string)> {
    match ReadBytes(t, 1)
    case None => None
    case Some((lead, _)) =>
      (match ReadBytes(t, SequenceLength(lead[0]))
       case None => None
       case Some((bs, rest)) =>
         (match FromUtf8(bs)
          case None => None
          case Some(c) => Some((c, rest))))
  }

  lemma DecodePercentEncoded(c: char, rest: string)
    ensures DecodePercent(PercentEncode(Utf8(c)) + rest) == Some((c, rest))
  {
    var bs := Utf8(c);
    var after := PercentEncode(bs[1..]) + rest;
    var t := PercentEncode(bs) + rest;
    assert t == PercentEncode(bs[..1]) + after by {
      assert PercentEncode(bs[..1]) == PercentEncode([bs[0]]);
      assert PercentEncode([bs[0]])[3..] == PercentEncode([]);
    }
    ReadPercentEncoded(bs[..1], after);
    ReadPercentEncoded(bs, rest);
    Utf8RoundTrip(c);
    DecodePercentSteps(t, bs[..1], after, bs, rest, c);
  }

  /** `DecodePercent` reads the lead byte, then the whole sequence it announces, then decodes it. */
  lemma DecodePercentSteps(t: string, lead: seq<int>, r0: string, bs: seq<int>, rest: string, c: char)
    requires ReadBytes(t, 1) == Some((lead, r0)) && lead != []
    requires ReadBytes(t, SequenceLength(lead[0])) == Some((bs, rest))
    requires FromUtf8(bs) == Some(c)
    ensures DecodePercent(t) == Some((c, rest))
  {
  }

  /** Decodes one encoded code point from the front of `t`. */
  function DecodeChar(t: string): Option<(char, string)>
    requires t != []
  {
    if t[0] == '+' then Some((' ', t[1..]))
    else if t[0] != '%' then Some((t[0], t[1..]))
    else DecodePercent(t)
  }

  lemma DecodeEncodedChar(c: char, rest: string)
    ensures DecodeChar(EncodeChar(c) + rest) == Some((c, rest))
  {
    if IsUnescaped(c) || c == ' ' {
      assert (EncodeChar(c) + rest)[1..] == rest;
    } else {
      DecodePercentEncoded(c, rest);
      assert (EncodeChar(c) + rest)[0] == '%';
    }
  }

  /** Decodes a name or value: encoded code points up to the end or to the next `&` or `=`. */
  function DecodeComponent(t: string): (r: Option<(string, string)>)
    ensures r.Some? ==> |r.value.1| <= |t|
    decreases |t|
  {
    if t == [] || t[0] == '&' || t[0] == '=' then Some(([], t))
    else
      match DecodeChar(t)
      case None => None
      case Some((c, rest)) =>
        if |rest| >= |t| then None
        else
          match DecodeComponent(rest)
          case None => None
          case Some((s, after)) => Some(([c] + s, after))
  }

  predicate EndsComponent(rest: string) {
    rest == [] || rest[0] == '&' || rest[0] == '='
  }

  lemma {:induction false} DecodeEncoded(s: string, rest: string)
    requires EndsComponent(rest)
    ensures DecodeComponent(Encode(s) + rest) == Some((s, rest))
  {
    if s != [] {
      var tail := Encode(s[1..]) + rest;
      DecodeEncoded(s[1..], rest);
      DecodeComponentCons(s[0], tail, s[1..], rest);
      EncodeCons(s, rest);
      assert [s[0]] + s[1..] == s;
    } else {
      assert Encode(s) + rest == rest;
    }
  }

  lemma EncodeCons(s: string, rest: string)
    requires s != []
    ensures Encode(s) + rest == EncodeChar(s[0]) + (Encode(s[1..]) + rest)
  {
  }

  /** One step of `DecodeComponent`: an encoded code point, then the rest of the component. */
  lemma DecodeComponentCons(c: char, tail: string, s: string, after: string)
    requires DecodeComponent(tail) == Some((s, after))
    ensures DecodeComponent(EncodeChar(c) + tail) == Some(([c] + s, after))
  {
    DecodeEncodedChar(c, tail);
    var t := EncodeChar(c) + tail;
    assert t[0] == EncodeChar(c)[0] && |tail| < |t|;
  }

  /** Undoes `Serialize`. */
  function Deserialize(t: string): Option<Params>
    decreases |t|
  {
    if t == [] then Some([])
    else
      match DecodeComponent(t)
      case None => None
      case Some((name, r1)) =>
        if r1 == [] || r1[0] != '=' then None
        else
          match DecodeComponent(r1[1..])
          case None => None
          case Some((value, r2)) =>
            if r2 == [] then Some([(name, value)])
            else if r2[0] != '&' || r2[1..] == [] then None
            else
              match Deserialize(r2[1..])
              case None => None
              case Some(more) => Some([(name, value)] + more)
  }

  /** Decoding the first pair of a serialization and what follows it. */
  lemma DeserializeFirstPair(name: string, value: string, tail: string)
    requires tail == [] || (tail[0] == '&' && tail[1..] != [])
    ensures Deserialize(Encode(name) + ("=" + (Encode(value) + tail)))
      == if tail == [] then Some([(name, value)])
         else match Deserialize(tail[1..])
              case None => None
              case Some(more) => Some([(name, value)] + more)
  {
    var r1 := "=" + (Encode(value) + tail);
    var t := Encode(name) + r1;
    DecodeEncoded(name, r1);
    DecodeEncoded(value, tail);
    assert r1[1..] == Encode(value) + tail;
    assert t != [] by {
      assert |t| >= |r1| > 0;
    }
  }

  lemma SerializeNonEmpty(ps: Params)
    requires ps != []
    ensures Serialize(ps) != []
  {
    assert Serialize(ps)[|Encode(ps[0].0)|] == '=';
  }

  lemma {:induction false} DeserializeSerialized(ps: Params)
    ensures Deserialize(Serialize(ps)) == Some(ps)
  {
    if ps != [] {
      SerializeNonEmpty(ps);
      if |ps| > 1 {
        var tail := "&" + Serialize(ps[1..]);
        DeserializeSerialized(ps[1..]);
        SerializeNonEmpty(ps[1..]);
        assert tail[1..] == Serialize(ps[1..]);
        DeserializeFirstPair(ps[0].0, ps[0].1, tail);
        assert [ps[0]] + ps[1..] == ps;
      } else {
        DeserializeFirstPair(ps[0].0, ps[0].1, "");
        assert [ps[0]] == ps;
      }
    }
  }

  /** Two parameter lists serialize to the same text only when they are equal. */
  lemma SerializeInjective(a: Params, b: Params)
    ensures Serialize(a) == Serialize(b) <==> a == b
  {
    DeserializeSerialized(a);
    DeserializeSerialized(b);
  }

  // ================================================================ the mutable object

  /** A `URLSearchParams` object: its pair list changes in place. */
  class SearchParams {
    var pairs: Params

    /** `new URLSearchParams(text)` for text produced by `toString()`: the serialized pairs come back. */
    constructor (text: string, ghost source: Params)
      requires text == Serialize(source)
      ensures pairs == source
    {
      DeserializeSerialized(source);
      pairs := Deserialize(text).value;
    }

    method Delete(key: string)
      modifies this
      ensures pairs == Deleted(old(pairs), key)
    {
      pairs := Deleted(pairs, key);
    }

    method Set(key: string, value: string)
      modifies this
      ensures pairs == WithValue(old(pairs), key, value)
    {
      pairs := WithValue(pairs, key, value);
    }

    method Append(key: string, value: string)
      modifies this
      ensures pairs == old(pairs) + [(key, value)]
    {
      pairs := pairs + [(key, value)];
    }

    method ToString() returns (text: string)
      ensures text == Serialize(pairs)
    {
      text := Serialize(pairs);
    }
  }
}
