/**
 * `decodeURIComponent` (ECMAScript's Decode with an empty reserved set), which lib/index.js
 * applies to the value part of an extended Content-Disposition parameter.
 *
 * - A character other than `%` is kept.
 * - `%XY` (two hex digits, either case) is a byte. A byte below 0x80 is that character.
 * - A larger byte must lead a UTF-8 sequence of two to four bytes, each written `%XY`.
 *   The sequence must encode one Unicode scalar value, with no overlong form and no surrogate.
 * - Anything else is a URIError, here `None`.
 *
 * The partner is an encoder that writes every character as `%XY` escapes of its UTF-8
 * bytes; decoding its output gives back the input.
 */
module UriDecoding {
  import opened Results

  type Byte = b: int | 0 <= b < 256

  predicate IsHexDigit(c: char)
  {
    '0' <= c <= '9' || 'a' <= c <= 'f' || 'A' <= c <= 'F'
  }

  function HexValue(c: char): (d: nat)
    requires IsHexDigit(c)
    ensures d < 16
  {
    if c <= '9' then c as int - '0' as int
    else if c <= 'F' then c as int - 'A' as int + 10
    else c as int - 'a' as int + 10
  }

  /** The byte written `%XY` at position `i` of `s`, if that is what stands there. */
  function EscapeAt(s: string, i: nat): Option<Byte>
  {
    if i + 3 <= |s| && s[i] == '%' && IsHexDigit(s[i + 1]) && IsHexDigit(s[i + 2])
    then Some(16 * HexValue(s[i + 1]) + HexValue(s[i + 2]))
    else None
  }

  /** The `n` consecutive escaped bytes starting at position `i` of `s`. */
  function EscapesAt(s: string, i: nat, n: nat): (r: Option<seq<Byte>>)
    requires i <= |s|
    ensures r.Some? ==> |r.value| == n && i + 3 * n <= |s|
    ensures r.Some? ==> forall k :: 0 <= k < n ==> EscapeAt(s, i + 3 * k) == Some(r.value[k])
    decreases n
  {
    if n == 0 then Some([])
    else match EscapeAt(s, i)
      case None => None
      case Some(b) =>
        match EscapesAt(s, i + 3, n - 1)
        case None => None
        case Some(bs) => Some([b] + bs)
  }

  /**
   * The number of leading one bits of a byte, capped at 5: 0 for a single-byte character,
   * 1 for a continuation byte, 2 to 4 for the lead byte of a sequence of that length.
   */
  function LeadingOnes(b: Byte): nat
  {
    if b < 0x80 then 0
    else if b < 0xC0 then 1
    else if b < 0xE0 then 2
    else if b < 0xF0 then 3
    else if b < 0xF8 then 4
    else 5
  }

  predicate IsContinuation(b: Byte)
  {
    0x80 <= b < 0xC0
  }

  /** The smallest code point that needs a sequence of `n` bytes. */
  function MinCodePoint(n: nat): nat
  {
    if n == 2 then 0x80 else if n == 3 then 0x800 else 0x10000
  }

  predicate IsScalarValue(cp: int)
  {
    0 <= cp < 0xD800 || 0xE000 <= cp < 0x11_0000
  }

  /** The code point of a multi-byte UTF-8 sequence, or `None` if it is not well formed. */
  function Utf8Decode(bs: seq<Byte>): (r: Option<char>)
    requires 2 <= |bs| <= 4 && LeadingOnes(bs[0]) == |bs|
    ensures r.Some? ==> MinCodePoint(|bs|) <= r.value as int
  {
    if exists k :: 1 <= k < |bs| && !IsContinuation(bs[k]) then None
    else
      var b: seq<int> := bs;
      var cp :=
        if |b| == 2 then (b[0] - 0xC0) * 64 + (b[1] - 0x80)
        else if |b| == 3 then (b[0] - 0xE0) * 4096 + (b[1] - 0x80) * 64 + (b[2] - 0x80)
        else (b[0] - 0xF0) * 262144 + (b[1] - 0x80) * 4096 + (b[2] - 0x80) * 64 + (b[3] - 0x80);
      if cp < MinCodePoint(|bs|) || !IsScalarValue(cp) then None else Some(cp as char)
  }

  function Prepend(c: char, r: Option<string>): Option<string>
  {
    match r
    case None => None
    case Some(t) => Some([c] + t)
  }

  /** `decodeURIComponent(s)`; `None` where it throws a URIError. It never lengthens the text. */
  function PercentDecode(s: string): (r: Option<string>)
    ensures r.Some? ==> |r.value| <= |s|
    decreases |s|
  {
    if s == [] then Some([])
    else if s[0] != '%' then Prepend(s[0], PercentDecode(s[1..]))
    else match EscapeAt(s, 0)
      case None => None
      case Some(b) =>
        var n := LeadingOnes(b);
        if n == 0 then Prepend(b as char, PercentDecode(s[3..]))
        else if n == 1 || n > 4 then None
        else match EscapesAt(s, 0, n)
          case None => None
          case Some(bs) =>
            match Utf8Decode(bs)
            case None => None
            case Some(c) => Prepend(c, PercentDecode(s[3 * n..]))
  }

  /** Text without `%` comes out of the decoder unchanged. */
  lemma {:induction false} PercentDecodePlain(s: string)
    requires forall i :: 0 <= i < |s| ==> s[i] != '%'
    ensures PercentDecode(s) == Some(s)
  {
    if s != [] {
      PercentDecodePlain(s[1..]);
      assert [s[0]] + s[1..] == s;
    }
  }

  /**
   * Text that decodes is made of whole characters and escape sequences, so what follows it is
   * decoded on its own: the decoder throws on `a + r` exactly when it throws on `r`.
   */
  lemma {:induction false} PercentDecodeAppend(a: string, r: string)
    requires PercentDecode(a).Some?
    ensures PercentDecode(r).None? ==> PercentDecode(a + r).None?
    ensures PercentDecode(r).Some? ==> PercentDecode(a + r) == Some(PercentDecode(a).value + PercentDecode(r).value)
    decreases |a|
  {
    if a == [] {
      assert a + r == r && PercentDecode(a).value == [];
      if PercentDecode(r).Some? {
        assert [] + PercentDecode(r).value == PercentDecode(r).value;
      }
    } else {
      var c, u := DecodeHead(a, r);
      PercentDecodeAppend(a[u..], r);
      PrependConcat(c, PercentDecode(a[u..]), PercentDecode(r), PercentDecode(a[u..] + r));
    }
  }

  lemma PrependConcat(c: char, x: Option<string>, y: Option<string>, z: Option<string>)
    requires x.Some? && (y.None? ==> z.None?) && (y.Some? ==> z == Some(x.value + y.value))
    ensures y.None? ==> Prepend(c, z).None?
    ensures y.Some? ==> Prepend(c, z) == Some(Prepend(c, x).value + y.value)
  {
    if y.Some? {
      assert [c] + (x.value + y.value) == [c] + x.value + y.value;
    }
  }

  /** The first character the decoder reads from `a` is read the same way from `a + r`. */
  lemma DecodeHead(a: string, r: string) returns (c: char, u: nat)
    requires a != [] && PercentDecode(a).Some?
    ensures 0 < u <= |a| && (a + r)[u..] == a[u..] + r
    ensures PercentDecode(a) == Prepend(c, PercentDecode(a[u..]))
    ensures PercentDecode(a + r) == Prepend(c, PercentDecode(a[u..] + r))
  {
    assert (a + r)[0] == a[0];
    if a[0] != '%' {
      c, u := a[0], 1;
    } else {
      var b := EscapeAt(a, 0).value;
      EscapeAtPrefix(a, r, 0);
      var n := LeadingOnes(b);
      if n == 0 {
        c, u := b as char, 3;
      } else {
        var bs := EscapesAt(a, 0, n).value;
        EscapesAtPrefix(a, r, n);
        c, u := Utf8Decode(bs).value, 3 * n;
      }
    }
    assert (a + r)[u..] == a[u..] + r;
  }

  /** A run of escapes inside a text reads the same with more text after it. */
  lemma EscapesAtPrefix(a: string, r: string, n: nat)
    requires EscapesAt(a, 0, n).Some?
    ensures EscapesAt(a + r, 0, n) == EscapesAt(a, 0, n)
  {
    var bs := EscapesAt(a, 0, n).value;
    forall k | 0 <= k < n
      ensures EscapeAt(a + r, 3 * k) == Some(bs[k])
    {
      EscapeAtPrefix(a, r, 3 * k);
    }
    EscapesAtSame(a + r, bs, n);
    assert bs[..n] == bs;
  }

  /** A `%` that is not followed by two hex digits makes the decoder throw, wherever it stands. */
  lemma PercentDecodeStray(a: string, b: string)
    requires PercentDecode(a).Some?
    requires |b| < 2 || !IsHexDigit(b[0]) || !IsHexDigit(b[1])
    ensures PercentDecode(a + "%" + b) == None
  {
    PercentDecodeAppend(a, "%" + b);
    assert a + "%" + b == a + ("%" + b);
  }

  /**
   * An escaped byte that cannot start a character (a continuation byte, or 0xF8 and above)
   * makes the decoder throw.
   */
  lemma PercentDecodeBadLead(a: string, x: Byte, r: string)
    requires PercentDecode(a).Some?
    requires LeadingOnes(x) == 1 || LeadingOnes(x) > 4
    ensures PercentDecode(a + Escape(x) + r) == None
  {
    EscapeAtPrefix(Escape(x), r, 0);
    PercentDecodeAppend(a, Escape(x) + r);
    assert a + Escape(x) + r == a + (Escape(x) + r);
  }

  /**
   * A complete sequence of escaped bytes that is not well-formed UTF-8 (a byte that does not
   * continue it, an overlong form, a surrogate, or a code point above 0x10FFFF) makes the
   * decoder throw.
   */
  lemma PercentDecodeBadSequence(a: string, bs: seq<Byte>, r: string)
    requires PercentDecode(a).Some?
    requires 2 <= |bs| <= 4 && LeadingOnes(bs[0]) == |bs| && Utf8Decode(bs).None?
    ensures PercentDecode(a + EscapeAll(bs) + r) == None
  {
    var e := EscapeAll(bs) + r;
    forall k | 0 <= k < |bs|
      ensures EscapeAt(e, 3 * k) == Some(bs[k])
    {
      EscapeAtPrefix(EscapeAll(bs), r, 3 * k);
    }
    EscapesAtSame(e, bs, |bs|);
    assert bs[..|bs|] == bs;
    PercentDecodeAppend(a, e);
    assert a + EscapeAll(bs) + r == a + e;
  }

  /** `%C0%80`, the overlong two-byte form of U+0000, is refused. */
  lemma PercentDecodeOverlong()
    ensures PercentDecode("%C0%80") == None
  {
    assert EscapeAll([0xC0, 0x80]) == "%C0%80";
    assert PercentDecode([]) == Some([]);
    PercentDecodeBadSequence([], [0xC0, 0x80], []);
    assert [] + "%C0%80" + [] == "%C0%80";
  }

  // The partner: an encoder.

  function HexChar(d: nat): (c: char)
    requires d < 16
    ensures IsHexDigit(c) && HexValue(c) == d
  {
    if d < 10 then ('0' as int + d) as char else ('A' as int + d - 10) as char
  }

  function Escape(b: Byte): (e: string)
    ensures |e| == 3 && EscapeAt(e, 0) == Some(b)
  {
    ['%', HexChar(b / 16), HexChar(b % 16)]
  }

  /** The UTF-8 encoding of a character. */
  function Utf8Encode(c: char): (bs: seq<Byte>)
    ensures 1 <= |bs| <= 4
  {
    var cp := c as int;
    var q1, q2, q3 := cp / 64, cp / 64 / 64, cp / 64 / 64 / 64;
    if cp < 0x80 then [cp]
    else if cp < 0x800 then [0xC0 + q1, 0x80 + cp % 64]
    else if cp < 0x10000 then [0xE0 + q2, 0x80 + q1 % 64, 0x80 + cp % 64]
    else [0xF0 + q3, 0x80 + q2 % 64, 0x80 + q1 % 64, 0x80 + cp % 64]
  }

  function EscapeAll(bs: seq<Byte>): (e: string)
    ensures |e| == 3 * |bs|
    ensures forall k :: 0 <= k < |bs| ==> EscapeAt(e, 3 * k) == Some(bs[k])
  {
    if bs == [] then []
    else
      var tail := EscapeAll(bs[1..]);
      var e := Escape(bs[0]) + tail;
      forall k | 1 <= k < |bs|
        ensures EscapeAt(e, 3 * k) == EscapeAt(tail, 3 * (k - 1))
      {
        EscapeAtShift(Escape(bs[0]), tail, 3 * (k - 1));
      }
      e
  }

  /** An escape reads the same inside a longer text. */
  lemma EscapeAtShift(a: string, b: string, j: nat)
    ensures EscapeAt(a + b, |a| + j) == EscapeAt(b, j)
  {
    if j + 3 <= |b| {
      assert (a + b)[|a| + j..|a| + j + 3] == b[j..j + 3];
    }
  }

  /** Every character written as `%XY` escapes of its UTF-8 bytes. */
  function PercentEncode(s: string): string
  {
    if s == [] then [] else EscapeAll(Utf8Encode(s[0])) + PercentEncode(s[1..])
  }

  /** The encoder writes only `%` and hex digits. */
  lemma {:induction false} PercentEncodeChars(s: string)
    ensures forall i :: 0 <= i < |PercentEncode(s)| ==> PercentEncode(s)[i] == '%' || IsHexDigit(PercentEncode(s)[i])
  {
    if s != [] {
      PercentEncodeChars(s[1..]);
      EscapeAllChars(Utf8Encode(s[0]));
    }
  }

  lemma {:induction false} EscapeAllChars(bs: seq<Byte>)
    ensures forall i :: 0 <= i < |EscapeAll(bs)| ==> EscapeAll(bs)[i] == '%' || IsHexDigit(EscapeAll(bs)[i])
  {
    if bs != [] {
      EscapeAllChars(bs[1..]);
    }
  }

  /** The UTF-8 encoding of a character decodes back to that character. */
  lemma Utf8RoundTrip(c: char)
    ensures var bs := Utf8Encode(c);
      && LeadingOnes(bs[0]) == (if |bs| == 1 then 0 else |bs|)
      && (|bs| == 1 ==> bs[0] == c as int)
      && (|bs| > 1 ==> Utf8Decode(bs) == Some(c))
  {
    var cp := c as int;
    var q1, q2, q3 := cp / 64, cp / 64 / 64, cp / 64 / 64 / 64;
    assert cp == q1 * 64 + cp % 64;
    assert q1 == q2 * 64 + q1 % 64;
    assert q2 == q3 * 64 + q2 % 64;
  }

  /** Decoding what the encoder wrote gives back the original text. */
  lemma {:induction false} PercentDecodeEncode(s: string)
    ensures PercentDecode(PercentEncode(s)) == Some(s)
  {
    if s != [] {
      PercentDecodeEncode(s[1..]);
      DecodeEncodedChar(s[0], PercentEncode(s[1..]));
      assert [s[0]] + s[1..] == s;
    }
  }

  /** The decoder reads one encoded character and goes on with what follows it. */
  lemma DecodeEncodedChar(c: char, rest: string)
    ensures PercentDecode(EscapeAll(Utf8Encode(c)) + rest) == Prepend(c, PercentDecode(rest))
  {
    var bs := Utf8Encode(c);
    var head := EscapeAll(bs);
    var e := head + rest;
    Utf8RoundTrip(c);
    EscapeAtShift([], e, 0);
    assert EscapeAt(e, 0) == Some(bs[0]) by {
      EscapeAtPrefix(head, rest, 0);
    }
    var n := |bs|;
    if n == 1 {
      assert e[3..] == rest;
    } else {
      forall k | 0 <= k < n
        ensures EscapeAt(e, 3 * k) == Some(bs[k])
      {
        EscapeAtPrefix(head, rest, 3 * k);
      }
      EscapesAtSame(e, bs, n);
      assert bs[..n] == bs;
      assert e[3 * n..] == rest;
    }
  }

  /** An escape inside a text reads the same with more text after it. */
  lemma EscapeAtPrefix(a: string, b: string, j: nat)
    requires j + 3 <= |a|
    ensures EscapeAt(a + b, j) == EscapeAt(a, j)
  {
    assert (a + b)[j..j + 3] == a[j..j + 3];
  }

  /** `EscapesAt` reads exactly the escapes that are there. */
  lemma {:induction false} EscapesAtSame(s: string, bs: seq<Byte>, n: nat)
    requires n <= |bs| && 3 * n <= |s|
    requires forall k :: 0 <= k < n ==> EscapeAt(s, 3 * k) == Some(bs[k])
    ensures EscapesAt(s, 0, n) == Some(bs[..n])
  {
    EscapesAtFrom(s, bs, 0, n);
  }

  lemma {:induction false} EscapesAtFrom(s: string, bs: seq<Byte>, j: nat, n: nat)
    requires j <= n <= |bs| && 3 * n <= |s|
    requires forall k :: 0 <= k < n ==> EscapeAt(s, 3 * k) == Some(bs[k])
    ensures EscapesAt(s, 3 * j, n - j) == Some(bs[j..n])
    decreases n - j
  {
    if j < n {
      EscapesAtFrom(s, bs, j + 1, n);
      assert 3 * j + 3 == 3 * (j + 1);
      assert bs[j..n] == [bs[j]] + bs[j + 1..n];
      assert EscapesAt(s, 3 * j + 3, n - j - 1) == Some(bs[j + 1..n]);
    }
  }
}
