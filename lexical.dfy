/**
 * Character classes and matching primitives of the JavaScript regular expressions in
 * lib/index.js, for patterns compiled without the `u` flag.
 *
 * - `\s` is the fixed set of WhiteSpace and LineTerminator code points; `\S` is its complement.
 * - `.` matches every character except a LineTerminator.
 * - Under the `i` flag (without `u`) a pattern letter matches only the two ASCII cases of
 *   itself, so `CiPrefixAt` compares after ASCII lower-casing.
 * - A greedy `[class]*` consumes the longest run of class characters; `SpanFrom` is where it stops.
 */
module Lexical {

  /** `\s`: the WhiteSpace and LineTerminator characters of ECMAScript. */
  predicate IsSpace(c: char)
  {
    || c == ' ' || c == '\t' || c == '\n' || c == '\r' || c == '\U{000B}' || c == '\U{000C}'
    || c == '\U{00A0}' || c == '\U{1680}' || ('\U{2000}' <= c <= '\U{200A}')
    || c == '\U{2028}' || c == '\U{2029}' || c == '\U{202F}' || c == '\U{205F}'
    || c == '\U{3000}' || c == '\U{FEFF}'
  }

  /** `\S`. */
  predicate NotSpace(c: char)
  {
    !IsSpace(c)
  }

  /** The characters `.` refuses to match. */
  predicate IsLineTerminator(c: char)
  {
    c == '\n' || c == '\r' || c == '\U{2028}' || c == '\U{2029}'
  }

  /** `\d`. */
  predicate IsDigit(c: char)
  {
    '0' <= c <= '9'
  }

  /** `\w`. */
  predicate IsWordChar(c: char)
  {
    'a' <= c <= 'z' || 'A' <= c <= 'Z' || IsDigit(c) || c == '_'
  }

  /** `[^"]`: a character inside a quoted value. */
  predicate QuotedChar(c: char)
  {
    c != '"'
  }

  predicate AllSpace(s: string)
  {
    forall i :: 0 <= i < |s| ==> IsSpace(s[i])
  }

  predicate NoSpace(s: string)
  {
    forall i :: 0 <= i < |s| ==> !IsSpace(s[i])
  }

  predicate AllDigits(s: string)
  {
    forall i :: 0 <= i < |s| ==> IsDigit(s[i])
  }

  /** `.*` can consume all of `s`. */
  predicate NoLineTerminator(s: string)
  {
    forall i :: 0 <= i < |s| ==> !IsLineTerminator(s[i])
  }

  /** Where a greedy `[P]*` that starts at position `j` of `s` stops. */
  function SpanFrom(s: string, j: nat, P: char -> bool): (e: nat)
    requires j <= |s|
    ensures j <= e <= |s|
    decreases |s| - j
  {
    if j == |s| || !P(s[j]) then j else SpanFrom(s, j + 1, P)
  }

  /** The span from `j` is a run of `P` characters that stops at a non-`P` character or the end. */
  lemma {:induction false} SpanFromRun(s: string, j: nat, P: char -> bool)
    requires j <= |s|
    ensures Run(s, j, SpanFrom(s, j, P), P)
    ensures SpanFrom(s, j, P) < |s| ==> !P(s[SpanFrom(s, j, P)])
    decreases |s| - j
  {
    if j < |s| && P(s[j]) {
      SpanFromRun(s, j + 1, P);
    }
  }

  /** Positions `i` to `j` of `s` all hold `P` characters. */
  predicate Run(s: string, i: nat, j: nat, P: char -> bool)
  {
    i <= j <= |s| && forall x :: i <= x < j ==> P(s[x])
  }

  /** A run of `P` characters from `j` never reaches past the greedy span from `j`. */
  lemma SpanFromCovers(s: string, j: nat, P: char -> bool, e: nat)
    requires j <= e <= |s|
    requires forall x :: j <= x < e ==> P(s[x])
    ensures e <= SpanFrom(s, j, P)
  {
    SpanFromRun(s, j, P);
  }

  lemma AllSpaceSlice(s: string, i: nat, j: nat)
    requires i <= j <= |s|
    ensures AllSpace(s[i..j]) <==> forall x :: i <= x < j ==> IsSpace(s[x])
  {
    assert forall x :: i <= x < j ==> s[i..j][x - i] == s[x];
  }

  /** A run of `P` characters from `j` that ends at a non-`P` character (or the end) is the span. */
  lemma SpanFromStops(s: string, j: nat, P: char -> bool, e: nat)
    requires j <= e <= |s|
    requires forall x :: j <= x < e ==> P(s[x])
    requires e < |s| ==> !P(s[e])
    ensures SpanFrom(s, j, P) == e
  {
    SpanFromRun(s, j, P);
  }

  /** ASCII `toLowerCase`. */
  function Lower(c: char): char
  {
    if 'A' <= c <= 'Z' then (c as int + 32) as char else c
  }

  function LowerAll(s: string): (r: string)
    ensures |r| == |s|
    ensures forall i :: 0 <= i < |s| ==> r[i] == Lower(s[i])
    ensures IsLowerCase(r)
  {
    if s == [] then [] else [Lower(s[0])] + LowerAll(s[1..])
  }

  predicate IsLowerCase(s: string)
  {
    forall i :: 0 <= i < |s| ==> !('A' <= s[i] <= 'Z')
  }

  /** `lit` (written in lower case) occurs at position `i` of `s` under the `i` flag. */
  predicate CiPrefixAt(s: string, i: nat, lit: string)
  {
    i + |lit| <= |s| && forall k :: 0 <= k < |lit| ==> Lower(s[i + k]) == lit[k]
  }

  predicate StartsWith(s: string, prefix: string)
  {
    |prefix| <= |s| && s[..|prefix|] == prefix
  }

  /** `s.split(sep)` for a separator of one character: the pieces between separators, in order. */
  function Split(s: string, sep: char): (parts: seq<string>)
    ensures |parts| >= 1
  {
    if s == [] then [[]] else Prefix(s[0], Split(s[1..], sep), sep)
  }

  /** The pieces of `[c] + r`, from the pieces `rest` of `r`: a separator starts a new piece. */
  function Prefix(c: char, rest: seq<string>, sep: char): (parts: seq<string>)
    requires |rest| >= 1
    ensures |parts| >= 1
  {
    if c == sep then [[]] + rest else [[c] + rest[0]] + rest[1..]
  }

  lemma PrefixAppend(c: char, ra: seq<string>, rb: seq<string>, sep: char)
    requires |ra| >= 1
    ensures Prefix(c, ra + rb, sep) == Prefix(c, ra, sep) + rb
  {
    if c == sep {
      assert [[]] + (ra + rb) == ([[]] + ra) + rb;
    } else {
      assert (ra + rb)[0] == ra[0] && (ra + rb)[1..] == ra[1..] + rb;
    }
  }

  /** No piece holds the separator. */
  lemma {:induction false} SplitPieces(s: string, sep: char)
    ensures forall k :: 0 <= k < |Split(s, sep)| ==> sep !in Split(s, sep)[k]
  {
    if s != [] {
      SplitPieces(s[1..], sep);
    }
  }

  /** `parts.join(sep)` */
  function Join(parts: seq<string>, sep: char): string
    requires |parts| >= 1
  {
    if |parts| == 1 then parts[0] else parts[0] + [sep] + Join(parts[1..], sep)
  }

  /** Splitting loses nothing: joining the pieces gives back the text. */
  lemma {:induction false} JoinSplit(s: string, sep: char)
    ensures Join(Split(s, sep), sep) == s
  {
    if s != [] {
      JoinSplit(s[1..], sep);
      var rest := Split(s[1..], sep);
      if s[0] != sep && |rest| > 1 {
        assert Join(rest, sep) == rest[0] + [sep] + Join(rest[1..], sep);
        assert Split(s, sep)[1..] == rest[1..];
      }
    }
  }

  /** Splitting a join of separator-free pieces gives back the pieces. */
  lemma {:induction false} SplitJoin(parts: seq<string>, sep: char)
    requires |parts| >= 1
    requires forall k :: 0 <= k < |parts| ==> sep !in parts[k]
    ensures Split(Join(parts, sep), sep) == parts
  {
    if |parts| == 1 {
      SplitPlain(parts[0], sep);
    } else {
      SplitJoin(parts[1..], sep);
      SplitAfter(parts[0], sep, Join(parts[1..], sep));
    }
  }

  lemma {:induction false} SplitPlain(s: string, sep: char)
    requires sep !in s
    ensures Split(s, sep) == [s]
  {
    if s != [] {
      SplitPlain(s[1..], sep);
      assert [s[0]] + s[1..] == s;
    }
  }

  /** A separator-free piece followed by the separator becomes the first piece. */
  lemma {:induction false} SplitAfter(a: string, sep: char, b: string)
    requires sep !in a
    ensures Split(a + [sep] + b, sep) == [a] + Split(b, sep)
  {
    if a == [] {
      assert [sep] + b == [sep] + b;
      assert ([sep] + b)[1..] == b;
    } else {
      SplitAfter(a[1..], sep, b);
      assert (a + [sep] + b)[1..] == a[1..] + [sep] + b;
      assert [a[0]] + a[1..] == a;
    }
  }

  /** A separator at the end of the text adds one empty piece. */
  lemma {:induction false} SplitTrailing(s: string, sep: char)
    ensures Split(s + [sep], sep) == Split(s, sep) + [[]]
  {
    if s != [] {
      SplitTrailing(s[1..], sep);
      assert (s + [sep])[0] == s[0] && (s + [sep])[1..] == s[1..] + [sep];
      PrefixAppend(s[0], Split(s[1..], sep), [[]], sep);
    }
  }

  /** Splitting at a separator splits the text on each side of it on its own. */
  lemma {:induction false} SplitConcat(a: string, sep: char, b: string)
    ensures Split(a + [sep] + b, sep) == Split(a, sep) + Split(b, sep)
    decreases |a|
  {
    if a == [] {
      assert a + [sep] + b == [sep] + b;
      assert ([sep] + b)[1..] == b;
    } else {
      SplitConcat(a[1..], sep, b);
      SplitConcatStep(a, sep, b);
    }
  }

  /** The step of SplitConcat: one more character in front of the left side. */
  lemma SplitConcatStep(a: string, sep: char, b: string)
    requires a != []
    requires Split(a[1..] + [sep] + b, sep) == Split(a[1..], sep) + Split(b, sep)
    ensures Split(a + [sep] + b, sep) == Split(a, sep) + Split(b, sep)
  {
    var s := a + [sep] + b;
    assert s[0] == a[0] && s[1..] == a[1..] + [sep] + b;
    PrefixAppend(a[0], Split(a[1..], sep), Split(b, sep), sep);
  }
}
