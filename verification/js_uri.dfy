/**
 `decodeURIComponent` and its inverse `encodeURIComponent` (ECMA-262, section
 19.2.6, the Encode and Decode abstract operations). Decoding reads `%XY` escapes,
 joins multi-octet UTF-8 sequences into one char and fails (JavaScript throws a
 `URIError`) on a malformed escape or an invalid UTF-8 sequence.
 */
module JsUri {
  import opened Wrappers

  // ---------------------------------------------------------------------------
  // Hex digits and escaped octets
  // ---------------------------------------------------------------------------

  function HexValue(c: char): (r: Option<nat>)
    ensures r.Some? ==> r.value < 16
  {
    if '0' <= c <= '9' then Some(c as int - '0' as int)
    else if 'a' <= c <= 'f' then Some(c as int - 'a' as int + 10)
    else if 'A' <= c <= 'F' then Some(c as int - 'A' as int + 10)
    else None
  }

  /** The upper-case hex digit `encodeURIComponent` writes for `d`. */
  function HexDigit(d: nat): (c: char)
    requires d < 16
    ensures HexValue(c) == Some(d)
    ensures c != '%' && Unreserved(c)
  {
    if d < 10 then ('0' as int + d) as char else ('A' as int + d - 10) as char
  }

  /** The octet escaped as `%XY` at the start of `s`, if `s` starts with one. */
  function OctetAt(s: string): (r: Option<nat>)
    ensures r.Some? ==> |s| >= 3 && s[0] == '%' && r.value < 256
    ensures r.None? && |s| >= 1 && s[0] == '%' ==>
              |s| < 3 || HexValue(s[1]).None? || HexValue(s[2]).None?
  {
    if |s| >= 3 && s[0] == '%' && HexValue(s[1]).Some? && HexValue(s[2]).Some?
    then Some(HexValue(s[1]).value * 16 + HexValue(s[2]).value)
    else None
  }

  /** The payload bits of the `i`-th escaped octet of `s` when it is a UTF-8 continuation octet. */
  function ContinuationAt(s: string, i: nat): (r: Option<nat>)
    ensures r.Some? ==> r.value < 64
  {
    if 3 * i > |s| then None
    else match OctetAt(s[3 * i..])
      case Some(x) => if 0x80 <= x < 0xC0 then Some(x - 0x80) else None
      case None => None
  }

  /**
   How many octets a UTF-8 sequence with lead octet `b` has: 1 for ASCII, 2 to 4
   for a lead octet, 0 for a continuation octet or `F8`..`FF`, which cannot start one.
   */
  function SequenceLength(b: nat): nat {
    if b < 0x80 then 1
    else if b < 0xC0 then 0
    else if b < 0xE0 then 2
    else if b < 0xF0 then 3
    else if b < 0xF8 then 4
    else 0
  }

  /**
   The char whose `n`-octet UTF-8 encoding, lead octet `b`, is escaped at the start
   of `s`; `None` for a bad continuation octet, an overlong form, a surrogate or a
   value beyond U+10FFFF.
   */
  function ScalarAt(s: string, b: nat, n: nat): Option<char>
    requires 0xC0 <= b < 0xF8 && n == SequenceLength(b)
  {
    var c1 := ContinuationAt(s, 1);
    var c2 := ContinuationAt(s, 2);
    var c3 := ContinuationAt(s, 3);
    if n == 2 then
      if c1.None? then None
      else
        var v := (b - 0xC0) * 64 + c1.value;
        if v >= 0x80 then Some(v as char) else None
    else if n == 3 then
      if c1.None? || c2.None? then None
      else
        var v := (b - 0xE0) * 4096 + c1.value * 64 + c2.value;
        if v >= 0x800 && !(0xD800 <= v < 0xE000) then Some(v as char) else None
    else
      if c1.None? || c2.None? || c3.None? then None
      else
        var v := (b - 0xF0) * 262144 + c1.value * 4096 + c2.value * 64 + c3.value;
        if 0x10000 <= v <= 0x10FFFF then Some(v as char) else None
  }

  function Prepend(c: char, rest: Option<string>): (r: Option<string>)
    ensures r.Some? <==> rest.Some?
    ensures r.Some? ==> r.value == [c] + rest.value
  {
    match rest
    case Some(t) => Some([c] + t)
    case None => None
  }

  // ---------------------------------------------------------------------------
  // decodeURIComponent
  // ---------------------------------------------------------------------------

  /** `decodeURIComponent(s)`; `None` where JavaScript throws a `URIError`. */
  function DecodeComponent(s: string): (r: Option<string>)
    ensures r.Some? ==> |r.value| <= |s|
    decreases |s|
  {
    if s == [] then Some([])
    else if s[0] != '%' then Prepend(s[0], DecodeComponent(s[1..]))
    else match OctetAt(s)
      case None => None
      case Some(b) =>
        if b < 0x80 then Prepend(b as char, DecodeComponent(s[3..]))
        else
          var n := SequenceLength(b);
          if n < 2 || |s| < 3 * n then None
          else match ScalarAt(s, b, n)
            case None => None
            case Some(c) => Prepend(c, DecodeComponent(s[3 * n..]))
  }

  /** A string without `%` decodes to itself. */
  lemma {:induction false} DecodeWithoutPercent(s: string)
    requires '%' !in s
    ensures DecodeComponent(s) == Some(s)
  {
    if s != [] {
      assert s[0] in s;
      assert forall c :: c in s[1..] ==> c in s;
      DecodeWithoutPercent(s[1..]);
      assert s == [s[0]] + s[1..];
    }
  }

  /** Decoding can only fail at a `%`. */
  lemma DecodeFailureNeedsPercent(s: string)
    requires DecodeComponent(s).None?
    ensures '%' in s
  {
    if '%' !in s {
      DecodeWithoutPercent(s);
    }
  }

  /** A `%` not followed by two hex digits makes the whole decoding fail. */
  lemma {:induction false} DecodeMalformedEscape(p: string, q: string)
    requires '%' !in p
    requires |q| < 2 || HexValue(q[0]).None? || HexValue(q[1]).None?
    ensures DecodeComponent(p + ['%'] + q).None?
  {
    var s := p + ['%'] + q;
    if p == [] {
      assert s == ['%'] + q;
      assert |s| >= 3 ==> s[1] == q[0] && s[2] == q[1];
      assert OctetAt(s).None?;
    } else {
      assert s[0] == p[0];
      assert p[0] in p;
      assert forall c :: c in p[1..] ==> c in p;
      assert s[1..] == p[1..] + ['%'] + q;
      DecodeMalformedEscape(p[1..], q);
    }
  }

  // ---------------------------------------------------------------------------
  // encodeURIComponent
  // ---------------------------------------------------------------------------

  /** The chars `encodeURIComponent` leaves as they are. */
  predicate Unreserved(c: char) {
    || ('A' <= c <= 'Z') || ('a' <= c <= 'z') || ('0' <= c <= '9')
    || c == '-' || c == '_' || c == '.' || c == '!' || c == '~' || c == '*'
    || c == '\'' || c == '(' || c == ')'
  }

  /** The UTF-8 octets of a char. */
  function Utf8(c: char): (r: seq<nat>)
    ensures 1 <= |r| <= 4
    ensures forall i :: 0 <= i < |r| ==> r[i] < 256
  {
    var v := c as int;
    if v < 0x80 then [v]
    else if v < 0x800 then [0xC0 + v / 64, 0x80 + v % 64]
    else if v < 0x10000 then [0xE0 + v / 4096, 0x80 + (v / 64) % 64, 0x80 + v % 64]
    else [0xF0 + v / 262144, 0x80 + (v / 4096) % 64, 0x80 + (v / 64) % 64, 0x80 + v % 64]
  }

  /** Each octet written as `%XY` with upper-case hex digits. */
  function Escape(bs: seq<nat>): (r: string)
    requires forall i :: 0 <= i < |bs| ==> bs[i] < 256
    ensures |r| == 3 * |bs|
    ensures forall i :: 0 <= i < |r| ==> Unreserved(r[i]) || r[i] == '%'
  {
    if bs == [] then []
    else ['%', HexDigit(bs[0] / 16), HexDigit(bs[0] % 16)] + Escape(bs[1..])
  }

  function EncodeChar(c: char): (r: string)
    ensures forall i :: 0 <= i < |r| ==> Unreserved(r[i]) || r[i] == '%'
  {
    if Unreserved(c) then [c] else Escape(Utf8(c))
  }

  /** `encodeURIComponent(s)`: only unreserved chars and `%` escapes. */
  function EncodeComponent(s: string): (r: string)
    ensures forall i :: 0 <= i < |r| ==> Unreserved(r[i]) || r[i] == '%'
  {
    if s == [] then [] else EncodeChar(s[0]) + EncodeComponent(s[1..])
  }

  /** Only the empty string encodes to the empty string. */
  lemma EncodeEmpty(s: string)
    ensures EncodeComponent(s) == [] <==> s == []
  {
    if s != [] {
      assert |EncodeChar(s[0])| >= 1;
    }
  }

  /** Octet `i` is written at `3 * i` as `%`, then its two hex digits. */
  lemma {:induction false} EscapeAt(bs: seq<nat>, i: nat)
    requires forall k :: 0 <= k < |bs| ==> bs[k] < 256
    requires i < |bs|
    ensures Escape(bs)[3 * i] == '%'
    ensures Escape(bs)[3 * i + 1] == HexDigit(bs[i] / 16)
    ensures Escape(bs)[3 * i + 2] == HexDigit(bs[i] % 16)
  {
    if i > 0 {
      EscapeAt(bs[1..], i - 1);
      var head := ['%', HexDigit(bs[0] / 16), HexDigit(bs[0] % 16)];
      var e := Escape(bs);
      assert e == head + Escape(bs[1..]);
      assert 3 * i == 3 + 3 * (i - 1);
    }
  }

  /** The `i`-th escape of an escaped sequence reads back as the `i`-th octet. */
  lemma {:induction false} EncodedOctetAt(bs: seq<nat>, rest: string, i: nat)
    requires forall k :: 0 <= k < |bs| ==> bs[k] < 256
    requires i < |bs|
    ensures OctetAt((Escape(bs) + rest)[3 * i..]) == Some(bs[i])
  {
    var e := Escape(bs);
    EscapeAt(bs, i);
    var t := (e + rest)[3 * i..];
    assert t[0] == e[3 * i] && t[1] == e[3 * i + 1] && t[2] == e[3 * i + 2];
    assert HexValue(t[1]) == Some(bs[i] / 16);
    assert HexValue(t[2]) == Some(bs[i] % 16);
  }

  /** One decoding step over a multi-octet sequence. */
  lemma DecodeSequenceStep(s: string, b: nat, n: nat, c: char)
    requires s != [] && s[0] == '%' && OctetAt(s) == Some(b)
    requires 0xC0 <= b < 0xF8 && n == SequenceLength(b) && |s| >= 3 * n
    requires ScalarAt(s, b, n) == Some(c)
    ensures DecodeComponent(s) == Prepend(c, DecodeComponent(s[3 * n..]))
  {
  }

  /** The two octets of a char from U+0080 to U+07FF: a lead octet and one continuation octet. */
  lemma Utf8Two(c: char)
    requires 0x80 <= c as int < 0x800
    ensures var bs := Utf8(c);
      && |bs| == 2 && 0xC0 <= bs[0] < 0xE0 && 0x80 <= bs[1] < 0xC0
      && (bs[0] - 0xC0) * 64 + (bs[1] - 0x80) == c as int
  {
  }

  /** The three octets of a char from U+0800 to U+FFFF. */
  lemma Utf8Three(c: char)
    requires 0x800 <= c as int < 0x10000
    ensures var bs := Utf8(c);
      && |bs| == 3 && 0xE0 <= bs[0] < 0xF0 && 0x80 <= bs[1] < 0xC0 && 0x80 <= bs[2] < 0xC0
      && (bs[0] - 0xE0) * 4096 + (bs[1] - 0x80) * 64 + (bs[2] - 0x80) == c as int
  {
    Digits3(c as int);
  }

  /** Base-64 digits of a scalar value from U+0800 to U+FFFF. */
  lemma Digits3(v: int)
    requires 0x800 <= v < 0x10000
    ensures v / 4096 < 16
    ensures (v / 4096) * 4096 + ((v / 64) % 64) * 64 + v % 64 == v
  {
    var q := v / 64;
    assert v == q * 64 + v % 64;
    assert q == (q / 64) * 64 + q % 64;
    assert q / 64 == v / 4096;
  }

  /** The four octets of a char from U+10000. */
  lemma Utf8Four(c: char)
    requires 0x10000 <= c as int
    ensures var bs := Utf8(c);
      && |bs| == 4 && 0xF0 <= bs[0] < 0xF8 && 0x80 <= bs[1] < 0xC0 && 0x80 <= bs[2] < 0xC0 && 0x80 <= bs[3] < 0xC0
      && (bs[0] - 0xF0) * 262144 + (bs[1] - 0x80) * 4096 + (bs[2] - 0x80) * 64 + (bs[3] - 0x80) == c as int
  {
    Digits4(c as int);
  }

  /** Base-64 digits of a scalar value above U+FFFF. */
  lemma Digits4(v: int)
    requires 0x10000 <= v < 0x110000
    ensures v / 262144 < 8
    ensures (v / 262144) * 262144 + ((v / 4096) % 64) * 4096 + ((v / 64) % 64) * 64 + v % 64 == v
  {
    var q := v / 64;
    assert v == q * 64 + v % 64;
    var w := q / 64;
    assert q == w * 64 + q % 64;
    assert w == v / 4096;
    assert w == (w / 64) * 64 + w % 64;
    assert w / 64 == v / 262144;
  }

  /** What follows the escaped octets is left for the rest of the decoding. */
  lemma EscapedRest(bs: seq<nat>, rest: string)
    requires forall k :: 0 <= k < |bs| ==> bs[k] < 256
    ensures (Escape(bs) + rest)[3 * |bs|..] == rest
  {
  }

  /** The `i`-th octet of an escaped sequence, read back as a continuation octet. */
  lemma EncodedContinuationAt(bs: seq<nat>, rest: string, i: nat)
    requires forall k :: 0 <= k < |bs| ==> bs[k] < 256
    requires i < |bs| && 0x80 <= bs[i] < 0xC0
    ensures ContinuationAt(Escape(bs) + rest, i) == Some(bs[i] - 0x80)
  {
    var s := Escape(bs) + rest;
    assert 3 * i <= |s|;
    EncodedOctetAt(bs, rest, i);
    var x := OctetAt(s[3 * i..]);
    assert x == Some(bs[i]);
  }

  /** `ScalarAt` for a two-octet sequence whose payload bits are known. */
  lemma ScalarAtTwo(s: string, b: nat, c1: nat, c: char)
    requires 0xC0 <= b < 0xE0 && ContinuationAt(s, 1) == Some(c1)
    requires (b - 0xC0) * 64 + c1 == c as int && c as int >= 0x80
    ensures ScalarAt(s, b, 2) == Some(c)
  {
  }

  /** `ScalarAt` for a three-octet sequence whose payload bits are known. */
  lemma ScalarAtThree(s: string, b: nat, c1: nat, c2: nat, c: char)
    requires 0xE0 <= b < 0xF0 && ContinuationAt(s, 1) == Some(c1) && ContinuationAt(s, 2) == Some(c2)
    requires (b - 0xE0) * 4096 + c1 * 64 + c2 == c as int && c as int >= 0x800
    ensures ScalarAt(s, b, 3) == Some(c)
  {
  }

  /** `ScalarAt` for a four-octet sequence whose payload bits are known. */
  lemma ScalarAtFour(s: string, b: nat, c1: nat, c2: nat, c3: nat, c: char)
    requires 0xF0 <= b < 0xF8
    requires ContinuationAt(s, 1) == Some(c1) && ContinuationAt(s, 2) == Some(c2) && ContinuationAt(s, 3) == Some(c3)
    requires (b - 0xF0) * 262144 + c1 * 4096 + c2 * 64 + c3 == c as int && c as int >= 0x10000
    ensures ScalarAt(s, b, 4) == Some(c)
  {
  }

  lemma DecodeEncodeAscii(c: char, rest: string)
    requires !Unreserved(c) && (c as int) < 0x80
    ensures DecodeComponent(EncodeChar(c) + rest) == Prepend(c, DecodeComponent(rest))
  {
    var bs := Utf8(c);
    var s := Escape(bs) + rest;
    EncodedOctetAt(bs, rest, 0);
    assert s[3..] == rest;
  }

  lemma DecodeEncodeTwo(c: char, rest: string)
    requires 0x80 <= (c as int) < 0x800
    ensures DecodeComponent(EncodeChar(c) + rest) == Prepend(c, DecodeComponent(rest))
  {
    Utf8Two(c);
    DecodeOctetsTwo(Utf8(c), rest, c);
  }

  /** Two escaped octets of a valid sequence decode to the char they encode. */
  lemma DecodeOctetsTwo(bs: seq<nat>, rest: string, c: char)
    requires |bs| == 2 && 0xC0 <= bs[0] < 0xE0 && 0x80 <= bs[1] < 0xC0
    requires (bs[0] - 0xC0) * 64 + (bs[1] - 0x80) == c as int
    requires 0x80 <= c as int
    ensures DecodeComponent(Escape(bs) + rest) == Prepend(c, DecodeComponent(rest))
  {
    var s := Escape(bs) + rest;
    EncodedOctetAt(bs, rest, 0);
    EncodedContinuationAt(bs, rest, 1);
    ScalarAtTwo(s, bs[0], bs[1] - 0x80, c);
    DecodeSequenceStep(s, bs[0], 2, c);
    EscapedRest(bs, rest);
  }

  lemma DecodeEncodeThree(c: char, rest: string)
    requires 0x800 <= (c as int) < 0x10000
    ensures DecodeComponent(EncodeChar(c) + rest) == Prepend(c, DecodeComponent(rest))
  {
    Utf8Three(c);
    DecodeOctetsThree(Utf8(c), rest, c);
  }

  /** Three escaped octets of a valid sequence decode to the char they encode. */
  lemma DecodeOctetsThree(bs: seq<nat>, rest: string, c: char)
    requires |bs| == 3 && 0xE0 <= bs[0] < 0xF0 && 0x80 <= bs[1] < 0xC0 && 0x80 <= bs[2] < 0xC0
    requires (bs[0] - 0xE0) * 4096 + (bs[1] - 0x80) * 64 + (bs[2] - 0x80) == c as int
    requires 0x800 <= c as int
    ensures DecodeComponent(Escape(bs) + rest) == Prepend(c, DecodeComponent(rest))
  {
    var s := Escape(bs) + rest;
    EncodedOctetAt(bs, rest, 0);
    EncodedContinuationAt(bs, rest, 1);
    EncodedContinuationAt(bs, rest, 2);
    ScalarAtThree(s, bs[0], bs[1] - 0x80, bs[2] - 0x80, c);
    DecodeSequenceStep(s, bs[0], 3, c);
    EscapedRest(bs, rest);
  }

  lemma DecodeEncodeFour(c: char, rest: string)
    requires 0x10000 <= (c as int)
    ensures DecodeComponent(EncodeChar(c) + rest) == Prepend(c, DecodeComponent(rest))
  {
    Utf8Four(c);
    DecodeOctetsFour(Utf8(c), rest, c);
  }

  /** Four escaped octets of a valid sequence decode to the char they encode. */
  lemma DecodeOctetsFour(bs: seq<nat>, rest: string, c: char)
    requires |bs| == 4 && 0xF0 <= bs[0] < 0xF8 && 0x80 <= bs[1] < 0xC0 && 0x80 <= bs[2] < 0xC0 && 0x80 <= bs[3] < 0xC0
    requires (bs[0] - 0xF0) * 262144 + (bs[1] - 0x80) * 4096 + (bs[2] - 0x80) * 64 + (bs[3] - 0x80) == c as int
    requires 0x10000 <= c as int
    ensures DecodeComponent(Escape(bs) + rest) == Prepend(c, DecodeComponent(rest))
  {
    var s := Escape(bs) + rest;
    EncodedOctetAt(bs, rest, 0);
    EncodedContinuationAt(bs, rest, 1);
    EncodedContinuationAt(bs, rest, 2);
    EncodedContinuationAt(bs, rest, 3);
    ScalarAtFour(s, bs[0], bs[1] - 0x80, bs[2] - 0x80, bs[3] - 0x80, c);
    DecodeSequenceStep(s, bs[0], 4, c);
    EscapedRest(bs, rest);
  }

  /** Decoding one encoded char gives the char back and continues after it. */
  lemma DecodeEncodeChar(c: char, rest: string)
    ensures DecodeComponent(EncodeChar(c) + rest) == Prepend(c, DecodeComponent(rest))
  {
    var v := c as int;
    if Unreserved(c) {
      var s := EncodeChar(c) + rest;
      assert s[0] == c && s[1..] == rest;
    } else if v < 0x80 {
      DecodeEncodeAscii(c, rest);
    } else if v < 0x800 {
      DecodeEncodeTwo(c, rest);
    } else if v < 0x10000 {
      DecodeEncodeThree(c, rest);
    } else {
      DecodeEncodeFour(c, rest);
    }
  }

  /** `decodeURIComponent(encodeURIComponent(s)) == s`. */
  lemma {:induction false} DecodeEncode(s: string)
    ensures DecodeComponent(EncodeComponent(s)) == Some(s)
  {
    if s != [] {
      DecodeEncodeChar(s[0], EncodeComponent(s[1..]));
      DecodeEncode(s[1..]);
      assert s == [s[0]] + s[1..];
    }
  }
}
