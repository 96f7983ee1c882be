/**
  The UTF-8 form of a Rust `String`. Dafny's `char` is a Unicode scalar value, which is
  what Rust's `char` is, so a `string` here is exactly a Rust string.
 */
module Utf8 {
  import opened Prelude

  function EncodeChar(c: char): (r: seq<Byte>)
    ensures 1 <= |r| <= 4
  {
    var n := c as int;
    if n < 0x80 then [n]
    else if n < 0x800 then [0xC0 + n / 64, 0x80 + n % 64]
    else if n < 0x1_0000 then [0xE0 + n / 4096, 0x80 + n / 64 % 64, 0x80 + n % 64]
    else [0xF0 + n / 262144, 0x80 + n / 4096 % 64, 0x80 + n / 64 % 64, 0x80 + n % 64]
  }

  function Encode(s: string): seq<Byte> {
    if s == [] then [] else EncodeChar(s[0]) + Encode(s[1..])
  }

  predicate Continues(b: Byte) {
    0x80 <= b < 0xC0
  }

  function CodePoint2(a: int, b: int): int {
    (a - 0xC0) * 64 + (b - 0x80)
  }

  function CodePoint3(a: int, b: int, c: int): int {
    ((a - 0xE0) * 64 + (b - 0x80)) * 64 + (c - 0x80)
  }

  function CodePoint4(a: int, b: int, c: int, d: int): int {
    (((a - 0xF0) * 64 + (b - 0x80)) * 64 + (c - 0x80)) * 64 + (d - 0x80)
  }

  /** One scalar value off the front: the shortest-form, surrogate-free decoding of `from_utf8`. */
  function DecodeChar(bs: seq<Byte>): (r: Option<(char, nat)>)
    ensures r.Some? ==> 1 <= r.value.1 <= |bs|
  {
    if bs == [] then None
    else if bs[0] < 0x80 then Some((bs[0] as char, 1))
    else if 0xC2 <= bs[0] < 0xE0 && |bs| >= 2 && Continues(bs[1]) then
      var n := CodePoint2(bs[0], bs[1]);
      Some((n as char, 2))
    else if 0xE0 <= bs[0] < 0xF0 && |bs| >= 3 && Continues(bs[1]) && Continues(bs[2]) then
      var n := CodePoint3(bs[0], bs[1], bs[2]);
      if n < 0x800 || 0xD800 <= n < 0xE000 then None else Some((n as char, 3))
    else if 0xF0 <= bs[0] < 0xF5 && |bs| >= 4 && Continues(bs[1]) && Continues(bs[2]) && Continues(bs[3]) then
      var n := CodePoint4(bs[0], bs[1], bs[2], bs[3]);
      if n < 0x1_0000 || n >= 0x11_0000 then None else Some((n as char, 4))
    else None
  }

  /** `String::from_utf8`. */
  function Decode(bs: seq<Byte>): Option<string>
    decreases |bs|
  {
    if bs == [] then Some([])
    else
      match DecodeChar(bs)
      case None => None
      case Some((c, k)) =>
        match Decode(bs[k..])
        case None => None
        case Some(s) => Some([c] + s)
  }

  lemma DecodeCharUndoesEncode(c: char, rest: seq<Byte>)
    ensures DecodeChar(EncodeChar(c) + rest) == Some((c, |EncodeChar(c)|))
  {
    var n := c as int;
    var e := EncodeChar(c);
    var bs := e + rest;
    assert forall i :: 0 <= i < |e| ==> bs[i] == e[i];
    if n < 0x80 {
    } else if n < 0x800 {
      assert CodePoint2(e[0], e[1]) == n;
    } else if n < 0x1_0000 {
      assert n / 64 / 64 == n / 4096;
      assert CodePoint3(e[0], e[1], e[2]) == n;
    } else {
      assert n / 64 / 64 == n / 4096 && n / 4096 / 64 == n / 262144;
      assert CodePoint4(e[0], e[1], e[2], e[3]) == n;
    }
  }

  lemma EncodeCharUndoesDecode(bs: seq<Byte>)
    requires DecodeChar(bs).Some?
    ensures var (c, k) := DecodeChar(bs).value; EncodeChar(c) == bs[..k]
  {
    hide CodePoint2, CodePoint3, CodePoint4;
    var (c, k) := DecodeChar(bs).value;
    if k == 2 {
      Spelled2(bs[0], bs[1]);
    } else if k == 3 {
      Spelled3(bs[0], bs[1], bs[2]);
    } else if k == 4 {
      Spelled4(bs[0], bs[1], bs[2], bs[3]);
    }
  }

  lemma Spelled2(a: int, b: int)
    requires 0x80 <= b < 0xC0
    ensures var n := CodePoint2(a, b); a == 0xC0 + n / 64 && b == 0x80 + n % 64 && (0xC2 <= a < 0xE0 ==> 0x80 <= n < 0x800)
  {
    Digits64(a - 0xC0, b - 0x80);
  }

  lemma Spelled3(a: int, b: int, c: int)
    requires 0x80 <= b < 0xC0 && 0x80 <= c < 0xC0
    ensures var n := CodePoint3(a, b, c); a == 0xE0 + n / 4096 && b == 0x80 + n / 64 % 64 && c == 0x80 + n % 64
    ensures 0xE0 <= a < 0xF0 ==> CodePoint3(a, b, c) < 0x1_0000
  {
    var n := CodePoint3(a, b, c);
    Digits64(a - 0xE0, b - 0x80);
    Digits64((a - 0xE0) * 64 + (b - 0x80), c - 0x80);
    assert n / 4096 == n / 64 / 64;
  }

  lemma Spelled4(a: int, b: int, c: int, d: int)
    requires 0x80 <= b < 0xC0 && 0x80 <= c < 0xC0 && 0x80 <= d < 0xC0
    ensures var n := CodePoint4(a, b, c, d);
            a == 0xF0 + n / 262144 && b == 0x80 + n / 4096 % 64 && c == 0x80 + n / 64 % 64 && d == 0x80 + n % 64
  {
    var n := CodePoint4(a, b, c, d);
    var g := (a - 0xF0) * 64 + (b - 0x80);
    Digits64(a - 0xF0, b - 0x80);
    Digits64(g, c - 0x80);
    Digits64(g * 64 + (c - 0x80), d - 0x80);
    assert n / 4096 == n / 64 / 64 && n / 262144 == n / 4096 / 64;
  }

  lemma Digits64(hi: int, lo: int)
    requires 0 <= lo < 64
    ensures (hi * 64 + lo) / 64 == hi && (hi * 64 + lo) % 64 == lo
  {
  }

  lemma {:induction false} DecodeUndoesEncode(s: string)
    ensures Decode(Encode(s)) == Some(s)
  {
    hide EncodeChar, DecodeChar;
    if s != [] {
      var rest := Encode(s[1..]);
      DecodeCharUndoesEncode(s[0], rest);
      DecodeUndoesEncode(s[1..]);
      assert Encode(s)[|EncodeChar(s[0])|..] == rest;
      assert s == [s[0]] + s[1..];
    }
  }

  lemma {:induction false} EncodeUndoesDecode(bs: seq<Byte>)
    requires Decode(bs).Some?
    ensures Encode(Decode(bs).value) == bs
    decreases |bs|
  {
    hide EncodeChar, DecodeChar;
    if bs != [] {
      var (c, k) := DecodeChar(bs).value;
      EncodeCharUndoesDecode(bs);
      EncodeUndoesDecode(bs[k..]);
      var s := Decode(bs[k..]).value;
      assert ([c] + s)[1..] == s;
      assert bs == bs[..k] + bs[k..];
    }
  }

  lemma EncodeInjective(a: string, b: string)
    requires Encode(a) == Encode(b)
    ensures a == b
  {
    DecodeUndoesEncode(a);
    DecodeUndoesEncode(b);
  }

  /** The bits behind a mark of the first byte and behind 10 in the others. */
  ghost function Payload(bs: seq<Byte>, mark: int): int
    requires bs != []
  {
    if |bs| == 1 then bs[0] - mark else Payload(bs[..|bs| - 1], mark) * 64 - 0x80 + bs[|bs| - 1]
  }

  /** One to four bytes by the size of the scalar value, whose bits they carry (section 3 of RFC 3629). */
  ghost predicate Carries(r: seq<Byte>, size: nat, mark: int, n: int) {
    && |r| == size > 0 && (forall i :: 1 <= i < size ==> Continues(r[i]))
    && r[0] >= mark && Payload(r, mark) == n
  }

  lemma Payloads(r: seq<Byte>, mark: int)
    ensures |r| == 2 ==> Payload(r, mark) == (r[0] - mark) * 64 - 0x80 + r[1]
    ensures |r| == 3 ==> Payload(r, mark) == ((r[0] - mark) * 64 - 0x80 + r[1]) * 64 - 0x80 + r[2]
    ensures |r| == 4 ==> Payload(r, mark) == (((r[0] - mark) * 64 - 0x80 + r[1]) * 64 - 0x80 + r[2]) * 64 - 0x80 + r[3]
  {
    if |r| > 2 { Payloads(r[..|r| - 1], mark); }
  }

  lemma EncodeCharSpells(c: char)
    ensures var n, r := c as int, EncodeChar(c);
            && (n < 0x80 ==> Carries(r, 1, 0, n))
            && (0x80 <= n < 0x800 ==> Carries(r, 2, 0xC0, n))
            && (0x800 <= n < 0x1_0000 ==> Carries(r, 3, 0xE0, n))
            && (0x1_0000 <= n ==> Carries(r, 4, 0xF0, n))
  {
    hide Payload;
    var n := c as int;
    var e := EncodeChar(c);
    if n < 0x80 {
      assert Payload([n], 0) == n by { OneByte(n); }
    } else if n < 0x800 {
      Payloads(e, 0xC0);
    } else if n < 0x1_0000 {
      assert n / 64 / 64 == n / 4096;
      Payloads(e, 0xE0);
    } else {
      assert n / 64 / 64 == n / 4096 && n / 4096 / 64 == n / 262144;
      Payloads(e, 0xF0);
    }
  }

  lemma OneByte(b: Byte)
    ensures Payload([b], 0) == b
  {
  }
}
