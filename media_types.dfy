/**
 * `type(header)` of lib/index.js: the Content-Type parser.
 *
 * The header must start with `type/subtype` (contentTypeRegex). Everything after that is the
 * parameter tail. When the tail is not empty it is searched for the first `charset` parameter,
 * and, for a `multipart/` type, for the first `boundary` parameter (charsetParamRegex,
 * boundaryParamRegex).
 */
module MediaTypes {
  import opened Results
  import opened Lexical

  /** The parse result: `mime` and `charset` lower-cased, `boundary` as written. */
  datatype MediaType = MediaType(mime: string, charset: Option<string>, boundary: Option<string>)

  // contentTypeRegex: /^([^\/\s]+\/[^\s;]+)(.*)?$/

  /** `[^\/\s]` */
  predicate TypeChar(c: char)
  {
    c != '/' && !IsSpace(c)
  }

  /** `[^\s;]` */
  predicate SubtypeChar(c: char)
  {
    c != ';' && !IsSpace(c)
  }

  /** `m` is a text the first group `[^\/\s]+\/[^\s;]+` can match. */
  predicate IsMimeText(m: string)
  {
    exists a :: 0 < a < |m| - 1 && m[a] == '/'
      && (forall i :: 0 <= i < a ==> TypeChar(m[i]))
      && (forall i :: a < i < |m| ==> SubtypeChar(m[i]))
  }

  /** contentTypeRegex can match `h` with its first group ending at `b`. */
  predicate ContentTypeParse(h: string, b: nat)
  {
    b <= |h| && IsMimeText(h[..b]) && NoLineTerminator(h[b..])
  }

  /**
   * `header.match(contentTypeRegex)`: the first group and the tail (empty when the optional
   * group did not match). The type run cannot contain `/`, so it ends at the first `/`; the
   * subtype run is greedy; `.*` then has to reach the end of the header.
   */
  function ContentTypeMatch(h: string): (r: Option<(string, string)>)
    ensures r.Some? ==> r.value.0 + r.value.1 == h
  {
    var a := SpanFrom(h, 0, TypeChar);
    if a == 0 || a == |h| || h[a] != '/' then None
    else
      var b := SpanFrom(h, a + 1, SubtypeChar);
      if b == a + 1 || !NoLineTerminator(h[b..]) then None
      else Some((h[..b], h[b..]))
  }

  /** What `ContentTypeMatch` returns is a match of contentTypeRegex, split at the end of its group. */
  lemma ContentTypeMatchSound(h: string, m: string, t: string)
    requires ContentTypeMatch(h) == Some((m, t))
    ensures ContentTypeParse(h, |m|)
  {
    var a := SpanFrom(h, 0, TypeChar);
    var b := SpanFrom(h, a + 1, SubtypeChar);
    SpanFromRun(h, 0, TypeChar);
    SpanFromRun(h, a + 1, SubtypeChar);
    assert m == h[..b];
    assert forall i :: 0 <= i < |m| ==> m[i] == h[i];
    assert 0 < a < |m| - 1 && m[a] == '/'
      && (forall i :: 0 <= i < a ==> TypeChar(m[i]))
      && (forall i :: a < i < |m| ==> SubtypeChar(m[i]));
  }

  /**
   * Of all the ways contentTypeRegex can match, JavaScript's backtracking order takes the one
   * with the longest first group, and it finds a match whenever there is one.
   */
  lemma ContentTypeMatchLongest(h: string, b: nat)
    requires ContentTypeParse(h, b)
    ensures ContentTypeMatch(h).Some? && b <= |ContentTypeMatch(h).value.0|
  {
    var a := MimeSlash(h, b);
    SpanFromStops(h, 0, TypeChar, a);
    SpanFromCovers(h, a + 1, SubtypeChar, b);
    var e := SpanFrom(h, a + 1, SubtypeChar);
    assert h[e..] == h[b..][e - b..];
  }

  /** The `/` of a first group that ends at `b`, with the type before it and the subtype after. */
  lemma MimeSlash(h: string, b: nat) returns (a: nat)
    requires ContentTypeParse(h, b)
    ensures 0 < a < b - 1 && h[a] == '/'
    ensures forall i :: 0 <= i < a ==> TypeChar(h[i])
    ensures forall i :: a < i < b ==> SubtypeChar(h[i])
  {
    var m := h[..b];
    a :| 0 < a < |m| - 1 && m[a] == '/'
      && (forall i :: 0 <= i < a ==> TypeChar(m[i]))
      && (forall i :: a < i < |m| ==> SubtypeChar(m[i]));
    assert forall i :: 0 <= i < |m| ==> m[i] == h[i];
  }

  // charsetParamRegex:  /;\s*charset=(?:"([^"]+)"|([^;"\s]+))/i
  // boundaryParamRegex: /;\s*boundary=(?:"([^"]+)"|([^;"\s]+))/i

  /** `[^;"\s]` */
  predicate BareChar(c: char)
  {
    c != ';' && c != '"' && !IsSpace(c)
  }

  predicate IsParamName(name: string)
  {
    |name| > 0 && !IsSpace(name[0])
  }

  /** `;\s*<name>=` stands at position `i` of `p`, with the name starting at `j`. */
  predicate ParamNameAt(p: string, i: nat, j: nat, name: string)
  {
    i < j <= |p| && p[i] == ';' && AllSpace(p[i + 1..j]) && CiPrefixAt(p, j, name + "=")
  }

  /** `"([^"]+)"` matches at `s` and captures `v`. */
  predicate QuotedValueAt(p: string, s: nat, v: string)
  {
    && |v| > 0 && s + |v| + 2 <= |p| && p[s] == '"' && p[s + 1..s + 1 + |v|] == v && p[s + 1 + |v|] == '"'
    && forall k :: 0 <= k < |v| ==> QuotedChar(v[k])
  }

  /** `([^;"\s]+)` matches at `s` and captures `v`, as long a run as there is. */
  predicate BareValueAt(p: string, s: nat, v: string)
  {
    && |v| > 0 && s + |v| <= |p| && p[s..s + |v|] == v && (forall k :: 0 <= k < |v| ==> BareChar(v[k]))
    && (s + |v| == |p| || !BareChar(p[s + |v|]))
  }

  /**
   * The parameter regex for `name` matches at position `i` of `p`: `;` at `i`, spaces up to
   * `j`, `name=` there in either case, and then the value `v`, quoted, or bare and as long as
   * the bare run goes.
   */
  predicate ParamShapeAt(p: string, i: nat, j: nat, name: string, v: string)
  {
    ParamNameAt(p, i, j, name) && (QuotedValueAt(p, j + |name| + 1, v) || BareValueAt(p, j + |name| + 1, v))
  }

  /** The value the parameter regex for `name` captures when it matches at position `i` of `p`. */
  function ParamAt(p: string, i: nat, name: string): (r: Option<string>)
    requires IsParamName(name)
    ensures r.Some? ==> |r.value| > 0
  {
    if i >= |p| || p[i] != ';' then None
    else
      var j := SpanFrom(p, i + 1, IsSpace);
      if !CiPrefixAt(p, j, name + "=") then None
      else ValueAt(p, j + |name| + 1)
  }

  /** The value `(?:"([^"]+)"|([^;"\s]+))` captures at position `s` of `p`. */
  function ValueAt(p: string, s: nat): (r: Option<string>)
    requires s <= |p|
    ensures r.Some? ==> |r.value| > 0
  {
    if s < |p| && p[s] == '"' then
      var e := SpanFrom(p, s + 1, QuotedChar);
      if s + 1 < e < |p| then Some(p[s + 1..e]) else None
    else
      var e := SpanFrom(p, s, BareChar);
      if s < e then Some(p[s..e]) else None
  }

  /** What `ValueAt` captures is a quoted or a bare value there. */
  lemma ValueAtSound(p: string, s: nat, v: string)
    requires s <= |p| && ValueAt(p, s) == Some(v)
    ensures QuotedValueAt(p, s, v) || BareValueAt(p, s, v)
  {
    if s < |p| && p[s] == '"' {
      var e := SpanFrom(p, s + 1, QuotedChar);
      SpanFromRun(p, s + 1, QuotedChar);
      assert v == p[s + 1..e];
      assert forall k :: 0 <= k < |v| ==> v[k] == p[s + 1 + k];
      assert QuotedValueAt(p, s, v);
    } else {
      var e := SpanFrom(p, s, BareChar);
      SpanFromRun(p, s, BareChar);
      assert v == p[s..e];
      assert forall k :: 0 <= k < |v| ==> v[k] == p[s + k];
      assert BareValueAt(p, s, v);
    }
  }

  /** Every quoted or bare value at `s` is the one `ValueAt` captures. */
  lemma ValueAtComplete(p: string, s: nat, v: string)
    requires s <= |p| && (QuotedValueAt(p, s, v) || BareValueAt(p, s, v))
    ensures ValueAt(p, s) == Some(v)
  {
    if QuotedValueAt(p, s, v) {
      assert forall x :: s + 1 <= x < s + 1 + |v| ==> p[x] == v[x - s - 1];
      SpanFromStops(p, s + 1, QuotedChar, s + 1 + |v|);
    } else {
      assert forall x :: s <= x < s + |v| ==> p[x] == v[x - s];
      SpanFromStops(p, s, BareChar, s + |v|);
    }
  }

  /** What `ParamAt` finds is a match of the parameter regex at `i`. */
  lemma ParamAtSound(p: string, i: nat, name: string, v: string)
    requires IsParamName(name)
    requires ParamAt(p, i, name) == Some(v)
    ensures i < |p| && ParamShapeAt(p, i, SpanFrom(p, i + 1, IsSpace), name, v)
  {
    var j := SpanFrom(p, i + 1, IsSpace);
    SpanFromRun(p, i + 1, IsSpace);
    AllSpaceSlice(p, i + 1, j);
    ValueAtSound(p, j + |name| + 1, v);
  }

  /** Every match of the parameter regex at `i` is the one `ParamAt` finds. */
  lemma ParamAtComplete(p: string, i: nat, j: nat, name: string, v: string)
    requires IsParamName(name)
    requires ParamShapeAt(p, i, j, name, v)
    ensures ParamAt(p, i, name) == Some(v)
  {
    SpacesBeforeName(p, i, j, name);
    ValueAtComplete(p, j + |name| + 1, v);
  }

  /** The spaces after `;` end where the parameter name starts. */
  lemma SpacesBeforeName(p: string, i: nat, j: nat, name: string)
    requires IsParamName(name)
    requires ParamNameAt(p, i, j, name)
    ensures SpanFrom(p, i + 1, IsSpace) == j
  {
    AllSpaceSlice(p, i + 1, j);
    assert Lower(p[j + 0]) == (name + "=")[0];
    SpanFromStops(p, i + 1, IsSpace, j);
  }

  /** `p.match(paramRegex)`: the value at the leftmost position from `from` where it matches. */
  function FindParam(p: string, name: string, from: nat): (r: Option<string>)
    requires IsParamName(name)
    ensures r.Some? ==> |r.value| > 0
    decreases |p| - from
  {
    if from >= |p| then None
    else if ParamAt(p, from, name).Some? then ParamAt(p, from, name)
    else FindParam(p, name, from + 1)
  }

  /** The search finds nothing exactly when the parameter regex matches nowhere from `from` on. */
  lemma {:induction false} FindParamNone(p: string, name: string, from: nat)
    requires IsParamName(name)
    ensures FindParam(p, name, from).None? <==> forall i :: from <= i ==> ParamAt(p, i, name).None?
    decreases |p| - from
  {
    if from < |p| && ParamAt(p, from, name).None? {
      FindParamNone(p, name, from + 1);
    }
  }

  /** What the search finds is the value at the leftmost position where the parameter regex matches. */
  lemma {:induction false} FindParamLeftmost(p: string, name: string, from: nat)
    requires IsParamName(name) && FindParam(p, name, from).Some?
    ensures exists i :: (from <= i < |p| && ParamAt(p, i, name) == FindParam(p, name, from)
      && forall k :: from <= k < i ==> ParamAt(p, k, name).None?)
    decreases |p| - from
  {
    if ParamAt(p, from, name).None? {
      FindParamLeftmost(p, name, from + 1);
      var i :| from + 1 <= i < |p| && ParamAt(p, i, name) == FindParam(p, name, from + 1)
        && forall k :: from + 1 <= k < i ==> ParamAt(p, k, name).None?;
      forall k | from <= k < i
        ensures ParamAt(p, k, name).None?
      {
        if k != from {
          assert from + 1 <= k < i;
        }
      }
      assert from <= i < |p| && ParamAt(p, i, name) == FindParam(p, name, from);
    } else {
      assert from <= from < |p| && ParamAt(p, from, name) == FindParam(p, name, from);
    }
  }

  /** `type(header)` */
  function ContentType(h: string): (r: Result<MediaType>)
    ensures h == [] ==> r == Failure(MissingHeader(ContentTypeHeader))
    ensures r.Failure? ==> r.error in {MissingHeader(ContentTypeHeader), MalformedMediaType, MissingBoundary}
    ensures r.Success? ==> IsLowerCase(r.value.mime)
    ensures r.Success? && r.value.charset.Some? ==> |r.value.charset.value| > 0 && IsLowerCase(r.value.charset.value)
    ensures r.Success? && r.value.boundary.Some? ==> StartsWith(r.value.mime, "multipart/") && |r.value.boundary.value| > 0
  {
    if h == [] then Failure(MissingHeader(ContentTypeHeader))
    else match ContentTypeMatch(h)
      case None => Failure(MalformedMediaType)
      case Some((m, params)) =>
        var mime := LowerAll(m);
        if params == [] then Success(MediaType(mime, None, None))
        else
          var charset := match FindParam(params, "charset", 0)
            case None => None
            case Some(c) => Some(LowerAll(c));
          if StartsWith(mime, "multipart/") then
            match FindParam(params, "boundary", 0)
            case None => Failure(MissingBoundary)
            case Some(b) => Success(MediaType(mime, charset, Some(b)))
          else Success(MediaType(mime, charset, None))
  }

  /** A non-empty header is rejected as malformed exactly when contentTypeRegex cannot match it. */
  lemma ContentTypeMalformed(h: string)
    requires h != []
    ensures ContentType(h) == Failure(MalformedMediaType) <==> forall b: nat :: !ContentTypeParse(h, b)
  {
    if exists b: nat :: ContentTypeParse(h, b) {
      var b :| ContentTypeParse(h, b);
      ContentTypeMatchLongest(h, b);
    } else if ContentTypeMatch(h).Some? {
      var (m, t) := ContentTypeMatch(h).value;
      ContentTypeMatchSound(h, m, t);
    }
  }

  /** When contentTypeRegex matches, the first group is its longest match and the tail the rest. */
  lemma ContentTypeMatchIs(h: string, b: nat)
    requires ContentTypeParse(h, b)
    requires forall b': nat :: ContentTypeParse(h, b') ==> b' <= b
    ensures ContentTypeMatch(h) == Some((h[..b], h[b..]))
  {
    ContentTypeMatchLongest(h, b);
    var (m, t) := ContentTypeMatch(h).value;
    ContentTypeMatchSound(h, m, t);
    assert |m| == b;
  }

  /** An empty tail gives no charset and no boundary, even for a `multipart/` type. */
  lemma ContentTypeWithoutParams(h: string)
    requires h != [] && ContentTypeParse(h, |h|)
    ensures ContentType(h) == Success(MediaType(LowerAll(h), None, None))
  {
    ContentTypeMatchIs(h, |h|);
    assert h[..|h|] == h;
  }

  /**
   * With a non-empty tail, `mime` is the longest first group lower-cased and `charset` the
   * first charset parameter of the tail, lower-cased.
   */
  lemma ContentTypeCharset(h: string, b: nat)
    requires h != [] && ContentTypeParse(h, b) && b < |h|
    requires forall b': nat :: ContentTypeParse(h, b') ==> b' <= b
    ensures ContentType(h).Success? ==>
      && ContentType(h).value.mime == LowerAll(h[..b])
      && ContentType(h).value.charset == (match FindParam(h[b..], "charset", 0)
                                          case None => None
                                          case Some(c) => Some(LowerAll(c)))
  {
    ContentTypeMatchIs(h, b);
    var tail := h[b..];
    assert tail != [];
    var charset := match FindParam(tail, "charset", 0)
      case None => None
      case Some(c) => Some(LowerAll(c));
    if StartsWith(LowerAll(h[..b]), "multipart/") {
      match FindParam(tail, "boundary", 0)
      case None =>
      case Some(bd) =>
        assert ContentType(h) == Success(MediaType(LowerAll(h[..b]), charset, Some(bd)));
    } else {
      assert ContentType(h) == Success(MediaType(LowerAll(h[..b]), charset, None));
    }
  }

  /**
   * A `multipart/` type with a non-empty tail fails exactly when the tail has no boundary
   * parameter, and otherwise takes the first one, with its case kept.
   */
  lemma ContentTypeMultipart(h: string, b: nat)
    requires h != [] && ContentTypeParse(h, b) && b < |h|
    requires forall b': nat :: ContentTypeParse(h, b') ==> b' <= b
    requires StartsWith(LowerAll(h[..b]), "multipart/")
    ensures ContentType(h) == Failure(MissingBoundary) <==> forall i :: ParamAt(h[b..], i, "boundary").None?
    ensures ContentType(h).Success? ==> ContentType(h).value.boundary == FindParam(h[b..], "boundary", 0)
  {
    ContentTypeMatchIs(h, b);
    FindParamNone(h[b..], "boundary", 0);
  }

  /** Any other type is accepted without a boundary once contentTypeRegex matches. */
  lemma ContentTypeNotMultipart(h: string, b: nat)
    requires h != [] && ContentTypeParse(h, b)
    requires forall b': nat :: ContentTypeParse(h, b') ==> b' <= b
    requires !StartsWith(LowerAll(h[..b]), "multipart/")
    ensures ContentType(h).Success? && ContentType(h).value.boundary == None
  {
    ContentTypeMatchIs(h, b);
  }
}
