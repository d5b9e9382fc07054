/**
 * `disposition(header)` of lib/index.js.
 *
 * - contentDispositionRegex `/^\s*form-data\s*(?:;\s*(.+))?$/i` must match the whole header.
 *   Its group is the parameter text.
 * - contentDispositionParamRegex, a global regex, is then run over the parameter text, as
 *   `String.prototype.replace` runs it. The search starts at the end of the previous match and
 *   takes the leftmost position where the regex matches.
 * - Each match is interpreted in order. `__proto__` as a key, a `*` key without an extended
 *   value, an extended value that does not decode, and `__proto__` as the value of `name` all
 *   reject the header. Otherwise the key is assigned its value, and a later match overwrites an
 *   earlier one with the same key.
 * - The result must hold a non-empty `name`.
 *
 * `replace` collects every match before it runs the first callback, but matching reads only the
 * parameter text, so interpreting each match as soon as it is found gives the same result.
 */
module Dispositions {
  import opened Results
  import opened Lexical
  import opened UriDecoding

  // ---------------------------------------------------------------------------------------
  // contentDispositionRegex

  /**
   * contentDispositionRegex matches `h`. `form-data` starts at `a`. With `g == Some(s)` the
   * `;` stands at `c` and the group starts at `s`. With `g == None` the group is unmatched.
   */
  predicate OuterParse(h: string, a: nat, c: nat, g: Option<nat>)
  {
    && CiPrefixAt(h, a, "form-data") && AllSpace(h[..a])
    && match g
       case None => AllSpace(h[a + 9..])
       case Some(s) =>
         && a + 9 <= c < s < |h|
         && AllSpace(h[a + 9..c]) && h[c] == ';' && AllSpace(h[c + 1..s])
         && NoLineTerminator(h[s..])
  }

  /**
   * `h.match(contentDispositionRegex)`: `None` when it does not match, `Some(None)` when it
   * matches without parameters, `Some(Some(p))` when it matches with the parameter text `p`.
   * The leading `\s*` must take all the leading whitespace, since `f` is not whitespace.
   */
  function MatchOuter(h: string): (r: Option<Option<string>>)
    ensures r.Some? ==> 9 <= |h|
    ensures r.Some? && r.value.Some? ==> var g := r.value.value;
      0 < |g| < |h| && g == h[|h| - |g|..] && NoLineTerminator(g)
  {
    var a := SpanFrom(h, 0, IsSpace);
    if !CiPrefixAt(h, a, "form-data") then None else MatchAfterFormData(h, a + 9)
  }

  /**
   * `\s*(?:;\s*(.+))?$` from position `j`. The greedy `\s*` must stop at the `;` or at the
   * end; the optional group is tried first.
   */
  function MatchAfterFormData(h: string, j: nat): (r: Option<Option<string>>)
    requires j <= |h|
    ensures r == Some(None) ==> AllSpace(h[j..])
    ensures r.Some? && r.value.Some? ==> j <= |h| - |r.value.value| - 1
    ensures r.Some? && r.value.Some? ==> var c := SpanFrom(h, j, IsSpace);
      && c < |h| && h[c] == ';' && AllSpace(h[j..c]) && MatchGroup(h, c + 1) == r.value
  {
    var c := SpanFrom(h, j, IsSpace);
    SpanFromRun(h, j, IsSpace);
    AllSpaceSlice(h, j, c);
    if c == |h| then
      assert h[j..] == h[j..c];
      Some(None)
    else if h[c] != ';' then None
    else match MatchGroup(h, c + 1)
      case None => None
      case Some(g) => Some(Some(g))
  }

  /**
   * `\s*(.+)$` from position `j`. The greedy `\s*` gives back whitespace only when `.+` would
   * otherwise be empty, so the group is the text after the whitespace, or the last whitespace
   * character when the whitespace runs to the end; `.` refuses line terminators.
   */
  function MatchGroup(h: string, j: nat): (r: Option<string>)
    requires j <= |h|
    ensures r.Some? ==> 0 < |r.value| && j <= |h| - |r.value| && r.value == h[|h| - |r.value|..]
    ensures r.Some? ==> AllSpace(h[j..|h| - |r.value|]) && NoLineTerminator(r.value)
  {
    var k := SpanFrom(h, j, IsSpace);
    var s := if k < |h| then k else |h| - 1;
    SpanFromRun(h, j, IsSpace);
    if j <= s && NoLineTerminator(h[s..]) then
      AllSpaceSlice(h, j, s);
      Some(h[s..])
    else None
  }

  // ---------------------------------------------------------------------------------------
  // contentDispositionParamRegex

  /** `[^=*\s]`: a character of a parameter key. */
  predicate KeyChar(c: char)
  {
    c != '=' && c != '*' && !IsSpace(c)
  }

  /** `[^;'"\s]`: a character of the charset part of an extended value. */
  predicate CharsetChar(c: char)
  {
    c != ';' && c != '\'' && c != '"' && !IsSpace(c)
  }

  /** `[\w-]`: a character of the language part of an extended value. */
  predicate LanguageChar(c: char)
  {
    IsWordChar(c) || c == '-'
  }

  /** `[^;\s]`: a character of a bare value, or of the text after the language. */
  predicate TokenChar(c: char)
  {
    c != ';' && !IsSpace(c)
  }

  /** The value a match captured, by the alternative that matched it. */
  datatype ParamValue =
    | Extended(charset: string, language: string, rest: string)  // group 3: charset'language'rest
    | Quoted(text: string)                                       // group 4, without the quotes
    | Bare(text: string)                                         // group 5

  /** One match of contentDispositionParamRegex: groups 1 and 2, the value, and where it lies. */
  datatype ParamMatch = ParamMatch(start: nat, key: string, star: bool, value: ParamValue, end: nat)

  /** The text of group 3. */
  function ExtendedText(v: ParamValue): string
    requires v.Extended?
  {
    v.charset + "'" + v.language + "'" + v.rest
  }

  /**
   * `(?:\s*(?:;\s*)|$)` at position `j`: the position after it. Whitespace followed by `;` is
   * consumed with the whitespace after the `;`; otherwise `j` must be the end of the text.
   */
  function TerminatorAt(p: string, j: nat): (r: Option<nat>)
    requires j <= |p|
    ensures r.Some? ==> j <= r.value <= |p|
    ensures r.Some? && r.value == j ==> j == |p|
  {
    var w := SpanFrom(p, j, IsSpace);
    if w < |p| && p[w] == ';' then Some(SpanFrom(p, w + 1, IsSpace))
    else if j == |p| then Some(j)
    else None
  }

  /**
   * Where the parts of the first alternative, `[^;'"\s]+'[\w-]*'[^;\s]+`, end when it is read
   * from position `v`: after the charset (at the first quote), after the language (at the
   * second quote), and after the rest.
   */
  function ExtendedBounds(p: string, v: nat): (r: Option<(nat, nat, nat)>)
    requires v <= |p|
    ensures r.Some? ==> var (x, l, y) := r.value;
      v < x < l && l + 1 < y <= |p| && p[x] == '\'' && p[l] == '\''
  {
    var x := SpanFrom(p, v, CharsetChar);
    if x == v || x == |p| || p[x] != '\'' then None
    else
      var l := SpanFrom(p, x + 1, LanguageChar);
      if l == |p| || p[l] != '\'' then None
      else
        var y := SpanFrom(p, l + 1, TokenChar);
        if y == l + 1 then None else Some((x, l, y))
  }

  /** The first alternative at position `v`, with the terminator. */
  function ExtendedAt(p: string, v: nat): (r: Option<(ParamValue, nat)>)
    requires v <= |p|
    ensures r.Some? ==> v < r.value.1 <= |p| && r.value.0.Extended?
  {
    match ExtendedBounds(p, v)
    case None => None
    case Some((x, l, y)) =>
      match TerminatorAt(p, y)
      case None => None
      case Some(e) => Some((Extended(p[v..x], p[x + 1..l], p[l + 1..y]), e))
  }

  /** The second alternative, `"([^"]*)"`, at position `v`, with the terminator. */
  function QuotedAt(p: string, v: nat): (r: Option<(ParamValue, nat)>)
    requires v <= |p|
    ensures r.Some? ==> v < r.value.1 <= |p| && r.value.0.Quoted?
  {
    if v == |p| || p[v] != '"' then None
    else
      var q := SpanFrom(p, v + 1, QuotedChar);
      if q == |p| then None
      else match TerminatorAt(p, q + 1)
        case None => None
        case Some(e) => Some((Quoted(p[v + 1..q]), e))
  }

  /** The third alternative, `([^;\s]*)`, at position `v`, with the terminator. */
  function BareAt(p: string, v: nat): (r: Option<(ParamValue, nat)>)
    requires v <= |p|
    ensures r.Some? ==> v <= r.value.1 <= |p| && r.value.0.Bare?
  {
    var z := SpanFrom(p, v, TokenChar);
    match TerminatorAt(p, z)
    case None => None
    case Some(e) => Some((Bare(p[v..z]), e))
  }

  /** The three alternatives, tried in order. */
  function ValueAt(p: string, v: nat): (r: Option<(ParamValue, nat)>)
    requires v <= |p|
    ensures r.Some? ==> v <= r.value.1 <= |p|
  {
    var ext := ExtendedAt(p, v);
    if ext.Some? then ext
    else
      var quoted := QuotedAt(p, v);
      if quoted.Some? then quoted else BareAt(p, v)
  }

  /**
   * contentDispositionParamRegex matched at position `i` of `p`. Every part but the whitespace
   * after `=` is forced to its greedy length: a shorter key, quote run or value would leave a
   * character the next part cannot take. A shorter run of whitespace after `=` gives nothing
   * new either, because what could follow it also matches at the end of the run.
   */
  function ParamMatchAt(p: string, i: nat): (r: Option<ParamMatch>)
    requires i <= |p|
    ensures r.Some? ==> r.value.start == i < r.value.end <= |p|
  {
    var k := SpanFrom(p, i, KeyChar);
    if k == i then None
    else
      var star := k < |p| && p[k] == '*';
      var s := if star then k + 1 else k;
      var eq := SpanFrom(p, s, IsSpace);
      if eq == |p| || p[eq] != '=' then None
      else
        MatchWithValue(p, i, k, star, SpanFrom(p, eq + 1, IsSpace))
  }

  /** The match at `i` whose key ends at `k`, once the `=` and its whitespace end at `v`. */
  function MatchWithValue(p: string, i: nat, k: nat, star: bool, v: nat): (r: Option<ParamMatch>)
    requires i < k <= v <= |p|
    ensures r.Some? ==> r.value.start == i < r.value.end <= |p|
  {
    match ValueAt(p, v)
    case None => None
    case Some((value, e)) => Some(ParamMatch(i, p[i..k], star, value, e))
  }

  // The regex read declaratively: a match at `m.start` whose parts lie at explicit positions.

  /** The text the value alternative consumed. */
  function RawValue(value: ParamValue): string
  {
    match value
    case Extended(_, _, _) => ExtendedText(value)
    case Quoted(q) => "\"" + q + "\""
    case Bare(t) => t
  }

  /** `value` is one way the three alternatives can read `p` from `v` to `z`. */
  predicate ValueShape(p: string, v: nat, z: nat, value: ParamValue)
  {
    match value
    case Extended(cs, lang, rest) =>
      var x := v + |cs|;
      var l := x + 1 + |lang|;
      && 0 < |cs| && 0 < |rest| && l + 1 + |rest| == z <= |p|
      && Run(p, v, x, CharsetChar) && p[x] == '\'' && Run(p, x + 1, l, LanguageChar) && p[l] == '\''
      && Run(p, l + 1, z, TokenChar)
      && cs == p[v..x] && lang == p[x + 1..l] && rest == p[l + 1..z]
    case Quoted(q) =>
      && v + |q| + 2 == z <= |p|
      && p[v] == '"' && Run(p, v + 1, z - 1, QuotedChar) && p[z - 1] == '"' && q == p[v + 1..z - 1]
    case Bare(t) =>
      v + |t| == z <= |p| && Run(p, z - |t|, z, TokenChar) && t == p[v..z]
  }

  /** `(?:\s*(?:;\s*)|$)` can read `p` from `j` to `e`, with its `;` (if any) at `w`. */
  predicate TerminatorShape(p: string, j: nat, w: nat, e: nat)
  {
    || j == e == |p|
    || (j <= w < e && Run(p, w + 1, e, IsSpace) && Run(p, j, w, IsSpace) && p[w] == ';')
  }

  /**
   * contentDispositionParamRegex can match `p` at `m.start` as `m`: the key ends at `k`, the
   * `=` stands at `eq`, the value runs from `v` to `z`, and the terminator's `;` (if any) is at
   * `w`.
   */
  predicate ParamShape(p: string, m: ParamMatch, k: nat, eq: nat, v: nat, z: nat, w: nat)
  {
    var s := if m.star then k + 1 else k;
    && m.start < k && Run(p, m.start, k, KeyChar) && m.key == p[m.start..k]
    && (m.star ==> k < |p| && p[k] == '*')
    && s <= eq < |p| && Run(p, s, eq, IsSpace) && p[eq] == '='
    && Run(p, eq + 1, v, IsSpace)
    && ValueShape(p, v, z, m.value)
    && TerminatorShape(p, z, w, m.end)
  }

  /** contentDispositionParamRegex can match `p` at `m.start` as `m`. */
  ghost predicate ParamParse(p: string, m: ParamMatch)
  {
    exists k: nat, eq: nat, v: nat, z: nat, w: nat :: ParamShape(p, m, k, eq, v, z, w)
  }

  /** TerminatorAt reads the terminator as the regex does, with the most trailing whitespace. */
  lemma TerminatorSound(p: string, j: nat)
    requires j <= |p| && TerminatorAt(p, j).Some?
    ensures TerminatorShape(p, j, SpanFrom(p, j, IsSpace), TerminatorAt(p, j).value)
  {
    var w := SpanFrom(p, j, IsSpace);
    SpanFromRun(p, j, IsSpace);
    if w < |p| && p[w] == ';' {
      SpanFromRun(p, w + 1, IsSpace);
    }
  }

  lemma TerminatorComplete(p: string, j: nat, w: nat, e: nat)
    requires j <= |p| && TerminatorShape(p, j, w, e)
    ensures TerminatorAt(p, j).Some? && e <= TerminatorAt(p, j).value
  {
    if j != |p| || e != |p| {
      SpanFromStops(p, j, IsSpace, w);
      SpanFromCovers(p, w + 1, IsSpace, e);
    }
  }

  lemma ExtendedSound(p: string, v: nat, value: ParamValue, e: nat)
    requires v <= |p| && ExtendedAt(p, v) == Some((value, e))
    ensures ValueShape(p, v, v + |RawValue(value)|, value)
    ensures TerminatorShape(p, v + |RawValue(value)|, SpanFrom(p, v + |RawValue(value)|, IsSpace), e)
  {
    var (x, l, y) := ExtendedBounds(p, v).value;
    assert value == Extended(p[v..x], p[x + 1..l], p[l + 1..y]) && TerminatorAt(p, y) == Some(e);
    ExtendedBoundsSound(p, v, x, l, y);
    TerminatorSound(p, y);
  }

  /** The bounds ExtendedBounds finds delimit the first alternative. */
  lemma ExtendedBoundsSound(p: string, v: nat, x: nat, l: nat, y: nat)
    requires v <= |p| && ExtendedBounds(p, v) == Some((x, l, y))
    ensures var value := Extended(p[v..x], p[x + 1..l], p[l + 1..y]);
      v + |RawValue(value)| == y && ValueShape(p, v, y, value)
  {
    SpanFromRun(p, v, CharsetChar);
    SpanFromRun(p, x + 1, LanguageChar);
    SpanFromRun(p, l + 1, TokenChar);
    ExtendedShape(p, v, x, l, y);
  }

  /** Three runs separated by quotes read as the first alternative. */
  lemma ExtendedShape(p: string, v: nat, x: nat, l: nat, y: nat)
    requires v < x < l && l + 1 < y <= |p| && p[x] == '\'' && p[l] == '\''
    requires Run(p, v, x, CharsetChar) && Run(p, x + 1, l, LanguageChar) && Run(p, l + 1, y, TokenChar)
    ensures var value := Extended(p[v..x], p[x + 1..l], p[l + 1..y]);
      v + |RawValue(value)| == y && ValueShape(p, v, y, value)
  {
    var cs, lang, rest := p[v..x], p[x + 1..l], p[l + 1..y];
    assert |cs| == x - v && |lang| == l - x - 1 && |rest| == y - l - 1;
    assert |ExtendedText(Extended(cs, lang, rest))| == y - v;
  }

  lemma QuotedSound(p: string, v: nat, value: ParamValue, e: nat)
    requires v <= |p| && QuotedAt(p, v) == Some((value, e))
    ensures ValueShape(p, v, v + |RawValue(value)|, value)
    ensures TerminatorShape(p, v + |RawValue(value)|, SpanFrom(p, v + |RawValue(value)|, IsSpace), e)
  {
    var q := SpanFrom(p, v + 1, QuotedChar);
    assert q < |p| && value == Quoted(p[v + 1..q]) && TerminatorAt(p, q + 1) == Some(e);
    QuotedShape(p, v, q);
    TerminatorSound(p, q + 1);
  }

  /** A quote, a quote-free run and a quote read as the second alternative. */
  lemma QuotedShape(p: string, v: nat, q: nat)
    requires v < q < |p| && p[v] == '"' && q == SpanFrom(p, v + 1, QuotedChar)
    ensures v + |RawValue(Quoted(p[v + 1..q]))| == q + 1 && ValueShape(p, v, q + 1, Quoted(p[v + 1..q]))
  {
    SpanFromRun(p, v + 1, QuotedChar);
  }

  lemma BareSound(p: string, v: nat, value: ParamValue, e: nat)
    requires v <= |p| && BareAt(p, v) == Some((value, e))
    ensures ValueShape(p, v, v + |RawValue(value)|, value)
    ensures TerminatorShape(p, v + |RawValue(value)|, SpanFrom(p, v + |RawValue(value)|, IsSpace), e)
  {
    var z := SpanFrom(p, v, TokenChar);
    SpanFromRun(p, v, TokenChar);
    TerminatorSound(p, z);
  }

  /** ValueAt reads a value and a terminator the regex can read. */
  lemma ValueSound(p: string, v: nat, value: ParamValue, e: nat)
    requires v <= |p| && ValueAt(p, v) == Some((value, e))
    ensures ValueShape(p, v, v + |RawValue(value)|, value)
    ensures TerminatorShape(p, v + |RawValue(value)|, SpanFrom(p, v + |RawValue(value)|, IsSpace), e)
  {
    if ExtendedAt(p, v).Some? {
      ExtendedSound(p, v, value, e);
    } else if QuotedAt(p, v).Some? {
      QuotedSound(p, v, value, e);
    } else {
      BareSound(p, v, value, e);
    }
  }

  /** Every match ParamMatchAt reports is one the regex can make. */
  lemma ParamSound(p: string, i: nat, m: ParamMatch)
    requires i <= |p| && ParamMatchAt(p, i) == Some(m)
    ensures ParamParse(p, m)
  {
    KeyLayout(p, i, m);
    var k := SpanFrom(p, i, KeyChar);
    var s := if m.star then k + 1 else k;
    var eq := SpanFrom(p, s, IsSpace);
    var v := SpanFrom(p, eq + 1, IsSpace);
    ValueLayout(p, i, m, k, s, eq, v);
    ParamRuns(p, m, k, s, eq, v);
  }

  /** The greedy runs of ParamMatchAt, read as runs. */
  lemma ParamRuns(p: string, m: ParamMatch, k: nat, s: nat, eq: nat, v: nat)
    requires m.start <= |p| && k == SpanFrom(p, m.start, KeyChar) && s == if m.star then k + 1 else k
    requires m.start < k && m.key == p[m.start..k] && (m.star ==> k < |p| && p[k] == '*')
    requires s <= eq < |p| && eq == SpanFrom(p, s, IsSpace) && p[eq] == '='
    requires v == SpanFrom(p, eq + 1, IsSpace) && ValueAt(p, v) == Some((m.value, m.end))
    ensures ParamParse(p, m)
  {
    SpanFromRun(p, m.start, KeyChar);
    SpanFromRun(p, s, IsSpace);
    SpanFromRun(p, eq + 1, IsSpace);
    ParamShapeAt(p, m, k, eq, v);
  }

  /** Where the greedy key run and the whitespace before `=` stop, for a match ParamMatchAt reports. */
  lemma KeyLayout(p: string, i: nat, m: ParamMatch)
    requires i <= |p| && ParamMatchAt(p, i) == Some(m)
    ensures var k := SpanFrom(p, i, KeyChar);
      && m.start == i < k && m.key == p[i..k] && (m.star <==> k < |p| && p[k] == '*')
      && var s := if m.star then k + 1 else k;
      && s <= |p| && SpanFrom(p, s, IsSpace) < |p| && p[SpanFrom(p, s, IsSpace)] == '='
  {
  }

  /** The value ParamMatchAt reports is the one ValueAt reads after the `=` and its whitespace. */
  lemma ValueLayout(p: string, i: nat, m: ParamMatch, k: nat, s: nat, eq: nat, v: nat)
    requires i <= |p| && ParamMatchAt(p, i) == Some(m)
    requires k == SpanFrom(p, i, KeyChar) && i < k && (m.star <==> k < |p| && p[k] == '*')
    requires s == (if m.star then k + 1 else k) && s <= |p| && eq == SpanFrom(p, s, IsSpace)
    requires eq < |p| && p[eq] == '=' && v == SpanFrom(p, eq + 1, IsSpace)
    ensures ValueAt(p, v) == Some((m.value, m.end))
  {
    if ValueAt(p, v).None? {
      ParamMatchAtNoValue(p, i, k, s, eq, v);
    } else {
      var (value, e) := ValueAt(p, v).value;
      ParamMatchAtOf(p, i, k, s, eq, v, value, e);
    }
  }

  /** A key, an `=` and a value ValueAt reads, laid out as the regex reads them. */
  lemma ParamShapeAt(p: string, m: ParamMatch, k: nat, eq: nat, v: nat)
    requires m.start < k && Run(p, m.start, k, KeyChar) && m.key == p[m.start..k]
    requires m.star ==> k < |p| && p[k] == '*'
    requires var s := if m.star then k + 1 else k; s <= eq < |p| && Run(p, s, eq, IsSpace)
    requires p[eq] == '=' && Run(p, eq + 1, v, IsSpace)
    requires ValueAt(p, v) == Some((m.value, m.end))
    ensures ParamParse(p, m)
  {
    ValueSound(p, v, m.value, m.end);
    var z := v + |RawValue(m.value)|;
    assert ParamShape(p, m, k, eq, v, z, SpanFrom(p, z, IsSpace));
  }

  /** A terminator the regex can read at `z` ends a bare run, so no token character follows `z`. */
  lemma TerminatorStopsToken(p: string, z: nat, w: nat, e: nat)
    requires TerminatorShape(p, z, w, e)
    ensures z < |p| ==> !TokenChar(p[z])
  {
    if z < |p| && z < w {
      assert IsSpace(p[z]);
    }
  }

  /** Whenever the first alternative can read `p` from `v`, ExtendedAt reads it the same way. */
  lemma ExtendedComplete(p: string, v: nat, z: nat, value: ParamValue, w: nat, e: nat)
    requires value.Extended? && ValueShape(p, v, z, value) && TerminatorShape(p, z, w, e)
    ensures ExtendedAt(p, v).Some? && ExtendedAt(p, v).value.0 == value && e <= ExtendedAt(p, v).value.1
  {
    var x := v + |value.charset|;
    var l := x + 1 + |value.language|;
    SpanFromStops(p, v, CharsetChar, x);
    SpanFromStops(p, x + 1, LanguageChar, l);
    TerminatorStopsToken(p, z, w, e);
    SpanFromStops(p, l + 1, TokenChar, z);
    assert ExtendedBounds(p, v) == Some((x, l, z));
    TerminatorComplete(p, z, w, e);
  }

  /** Whenever the second alternative can read `p` from `v`, QuotedAt reads it the same way. */
  lemma QuotedComplete(p: string, v: nat, z: nat, value: ParamValue, w: nat, e: nat)
    requires value.Quoted? && ValueShape(p, v, z, value) && TerminatorShape(p, z, w, e)
    ensures QuotedAt(p, v).Some? && QuotedAt(p, v).value.0 == value && e <= QuotedAt(p, v).value.1
  {
    SpanFromStops(p, v + 1, QuotedChar, z - 1);
    TerminatorComplete(p, z, w, e);
  }

  /**
   * Whenever some alternative can read `p` from `v`, ValueAt reads a value there; a quoted or
   * extended value is read as it is, with the longest terminator.
   */
  lemma ValueComplete(p: string, v: nat, z: nat, value: ParamValue, w: nat, e: nat)
    requires ValueShape(p, v, z, value) && TerminatorShape(p, z, w, e)
    ensures ValueAt(p, v).Some?
    ensures !value.Bare? ==> ValueAt(p, v).value.0 == value && e <= ValueAt(p, v).value.1
  {
    match value
    case Extended(_, _, _) =>
      ExtendedComplete(p, v, z, value, w, e);
    case Quoted(_) =>
      QuotedComplete(p, v, z, value, w, e);
      assert ExtendedAt(p, v).None? by {
        if ExtendedAt(p, v).Some? {
          ExtendedFirst(p, v);
        }
      }
    case Bare(_) =>
      TerminatorStopsToken(p, z, w, e);
      SpanFromStops(p, v, TokenChar, z);
      TerminatorComplete(p, z, w, e);
  }

  /**
   * Whenever contentDispositionParamRegex can match at `m.start`, ParamMatchAt reports a match
   * there with the same key and star. A quoted or extended value is read as it is, with the
   * longest terminator; a bare value may give way to an earlier alternative.
   */
  lemma ParamComplete(p: string, m: ParamMatch, k: nat, eq: nat, v: nat, z: nat, w: nat)
    requires m.start <= |p| && ParamShape(p, m, k, eq, v, z, w)
    ensures ParamMatchAt(p, m.start).Some?
    ensures ParamMatchAt(p, m.start).value.key == m.key && ParamMatchAt(p, m.start).value.star == m.star
    ensures !m.value.Bare? ==> ParamMatchAt(p, m.start).value.value == m.value && m.end <= ParamMatchAt(p, m.start).value.end
  {
    var s := if m.star then k + 1 else k;
    KeyComplete(p, m, k, eq, v, z, w);
    var v' := SpanFrom(p, eq + 1, IsSpace);
    AfterEqualsComplete(p, eq, v, z, m.value, w, m.end);
    var (value, e) := ValueAt(p, v').value;
    ParamMatchAtOf(p, m.start, k, s, eq, v', value, e);
  }

  /** The greedy key run and the whitespace before `=` stop where the regex's do. */
  lemma KeyComplete(p: string, m: ParamMatch, k: nat, eq: nat, v: nat, z: nat, w: nat)
    requires m.start <= |p| && ParamShape(p, m, k, eq, v, z, w)
    ensures SpanFrom(p, m.start, KeyChar) == k && (m.star <==> k < |p| && p[k] == '*')
    ensures SpanFrom(p, if m.star then k + 1 else k, IsSpace) == eq
  {
    assert !KeyChar(p[k]) && (p[k] == '*' <==> m.star) by {
      if !m.star && k < eq {
        assert IsSpace(p[k]);
      }
    }
    SpanFromStops(p, m.start, KeyChar, k);
    SpanFromStops(p, if m.star then k + 1 else k, IsSpace, eq);
  }

  /**
   * After the `=`, ValueAt reads a value where the greedy whitespace run stops; a quoted or
   * extended value the regex reads after whitespace is read as it is, with the longest terminator.
   */
  lemma AfterEqualsComplete(p: string, eq: nat, v: nat, z: nat, value: ParamValue, w: nat, e: nat)
    requires eq < |p| && Run(p, eq + 1, v, IsSpace)
    requires ValueShape(p, v, z, value) && TerminatorShape(p, z, w, e)
    ensures ValueAt(p, SpanFrom(p, eq + 1, IsSpace)).Some?
    ensures !value.Bare? ==> ValueAt(p, SpanFrom(p, eq + 1, IsSpace)).value.0 == value
    ensures !value.Bare? ==> e <= ValueAt(p, SpanFrom(p, eq + 1, IsSpace)).value.1
  {
    var v' := SpanFrom(p, eq + 1, IsSpace);
    SpanFromRun(p, eq + 1, IsSpace);
    SpanFromCovers(p, eq + 1, IsSpace, v);
    if v == v' {
      ValueComplete(p, v, z, value, w, e);
    } else {
      GivenBackSpace(p, eq, v, z, value, w, e);
      ValueComplete(p, v', v', Bare([]), v', e);
    }
  }

  /**
   * When the regex reads a value after giving back whitespace that the greedy run after `=`
   * takes, the value is empty and the greedy run stops at the `;` of the terminator.
   */
  lemma GivenBackSpace(p: string, eq: nat, v: nat, z: nat, value: ParamValue, w: nat, e: nat)
    requires eq < |p| && Run(p, eq + 1, v, IsSpace) && v < SpanFrom(p, eq + 1, IsSpace)
    requires ValueShape(p, v, z, value) && TerminatorShape(p, z, w, e)
    ensures value == Bare([])
    ensures SpanFrom(p, eq + 1, IsSpace) == w < |p| && p[w] == ';' && Run(p, w + 1, e, IsSpace)
  {
    SpanFromRun(p, eq + 1, IsSpace);
    assert IsSpace(p[v]);
    SpanFromStops(p, eq + 1, IsSpace, w);
  }

  /** ParamMatchAt, read off the positions where its greedy runs stop. */
  lemma ParamMatchAtOf(p: string, i: nat, k: nat, s: nat, eq: nat, v: nat, value: ParamValue, e: nat)
    requires i <= |p| && k == SpanFrom(p, i, KeyChar) && i < k
    requires s == if k < |p| && p[k] == '*' then k + 1 else k
    requires s <= |p| && eq == SpanFrom(p, s, IsSpace) && eq < |p| && p[eq] == '='
    requires v == SpanFrom(p, eq + 1, IsSpace) && ValueAt(p, v) == Some((value, e))
    ensures ParamMatchAt(p, i) == Some(ParamMatch(i, p[i..k], s == k + 1, value, e))
  {
    ParamMatchAtKey(p, i, k, s, eq);
  }

  /** Once the key, the `*` and the `=` are read, what remains is the value. */
  lemma ParamMatchAtKey(p: string, i: nat, k: nat, s: nat, eq: nat)
    requires i <= |p| && k == SpanFrom(p, i, KeyChar) && i < k
    requires s == if k < |p| && p[k] == '*' then k + 1 else k
    requires s <= |p| && eq == SpanFrom(p, s, IsSpace) && eq < |p| && p[eq] == '='
    ensures ParamMatchAt(p, i) == MatchWithValue(p, i, k, s == k + 1, SpanFrom(p, eq + 1, IsSpace))
  {
  }

  /** Without a value after the `=`, nothing matches at `i`. */
  lemma ParamMatchAtNoValue(p: string, i: nat, k: nat, s: nat, eq: nat, v: nat)
    requires i <= |p| && k == SpanFrom(p, i, KeyChar) && i < k
    requires s == if k < |p| && p[k] == '*' then k + 1 else k
    requires s <= |p| && eq == SpanFrom(p, s, IsSpace) && eq < |p| && p[eq] == '='
    requires v == SpanFrom(p, eq + 1, IsSpace) && ValueAt(p, v).None?
    ensures ParamMatchAt(p, i).None?
  {
    ParamMatchAtKey(p, i, k, s, eq);
  }

  /** Without an `=` after the key and its whitespace, nothing matches at `i`. */
  lemma ParamMatchAtNoEquals(p: string, i: nat, k: nat, s: nat)
    requires i <= |p| && k == SpanFrom(p, i, KeyChar)
    requires s == if k < |p| && p[k] == '*' then k + 1 else k
    requires s <= |p| && (SpanFrom(p, s, IsSpace) == |p| || p[SpanFrom(p, s, IsSpace)] != '=')
    ensures ParamMatchAt(p, i).None?
  {
  }

  /** The first alternative starts with a charset character, which is never a quote. */
  lemma ExtendedFirst(p: string, v: nat)
    requires v <= |p| && ExtendedAt(p, v).Some?
    ensures v < |p| && CharsetChar(p[v])
  {
    var (x, l, y) := ExtendedBounds(p, v).value;
    SpanFromRun(p, v, CharsetChar);
  }

  /** The leftmost match at or after position `from`: the next match a global search finds. */
  function NextMatch(p: string, from: nat): (r: Option<ParamMatch>)
    requires from <= |p|
    ensures r.Some? ==> from <= r.value.start < r.value.end <= |p|
    decreases |p| - from
  {
    var here := ParamMatchAt(p, from);
    if here.Some? then here
    else if from == |p| then None
    else NextMatch(p, from + 1)
  }

  /** When NextMatch finds nothing, no match starts at or after `from`. */
  lemma {:induction false} NextMatchNone(p: string, from: nat)
    requires from <= |p| && NextMatch(p, from).None?
    ensures forall i :: from <= i <= |p| ==> ParamMatchAt(p, i).None?
    decreases |p| - from
  {
    if from < |p| {
      NextMatchNone(p, from + 1);
    }
  }

  /** What NextMatch finds is the match that starts where it says. */
  lemma {:induction false} NextMatchAt(p: string, from: nat, m: ParamMatch)
    requires from <= |p| && NextMatch(p, from) == Some(m)
    ensures ParamMatchAt(p, m.start) == Some(m)
    decreases |p| - from
  {
    if ParamMatchAt(p, from).None? {
      NextMatchAt(p, from + 1, m);
    }
  }

  /** No match starts between `from` and the match NextMatch finds: it is the leftmost one. */
  lemma {:induction false} NextMatchLeftmost(p: string, from: nat, m: ParamMatch, i: nat)
    requires from <= |p| && NextMatch(p, from) == Some(m)
    requires from <= i < m.start
    ensures ParamMatchAt(p, i).None?
    decreases |p| - from
  {
    if from < i {
      NextMatchLeftmost(p, from + 1, m, i);
    }
  }

  /** Every match the global search finds from position `from` on, in order. */
  function Matches(p: string, from: nat): (ms: seq<ParamMatch>)
    requires from <= |p|
    ensures forall k :: 0 <= k < |ms| ==> from <= ms[k].start < ms[k].end <= |p|
    ensures forall k :: 0 < k < |ms| ==> ms[k - 1].end <= ms[k].start
    decreases |p| - from
  {
    match NextMatch(p, from)
    case None => []
    case Some(m) =>
      var rest := Matches(p, m.end);
      assert forall k :: 0 < k < |rest| + 1 ==> ([m] + rest)[k] == rest[k - 1];
      [m] + rest
  }

  // ---------------------------------------------------------------------------------------
  // The replace callback

  /**
   * The replace callback for one match, up to the assignment: the value to store under the
   * key, or the error it throws.
   */
  function Interpret(m: ParamMatch): (r: Result<string>)
    ensures m.key == "__proto__" ==> r == Failure(UnsafeParameterName)
    ensures m.star && !m.value.Extended? ==> r.Failure?
    ensures r.Success? && m.key == "name" ==> r.value != "__proto__"
    ensures r.Failure? ==> r.error in {UnsafeParameterName, MalformedExtendedValue}
  {
    if m.key == "__proto__" then Failure(UnsafeParameterName)
    else
      var value :=
        if m.star then
          if !m.value.Extended? then Failure(MalformedExtendedValue)
          else
            var parts := ExtendedParts(m.value);
            match PercentDecode(parts[2])
            case None => Failure(MalformedExtendedValue)
            case Some(d) => Success(d)
        else
          match m.value
          case Extended(_, _, _) => Success("")
          case Quoted(q) => Success(q)
          case Bare(z) => Success(z);
      if value.Failure? then value
      else if m.key == "name" && value.value == "__proto__" then Failure(UnsafeParameterName)
      else value
  }

  /** `$3.split("'")`: it has at least three pieces, since group 3 holds two quotes. */
  function ExtendedParts(v: ParamValue): (parts: seq<string>)
    requires v.Extended?
    ensures |parts| >= 3
    ensures parts == Split(ExtendedText(v), '\'')
  {
    SplitConcat(v.charset, '\'', v.language + "'" + v.rest);
    SplitConcat(v.language, '\'', v.rest);
    assert ExtendedText(v) == v.charset + "'" + (v.language + "'" + v.rest);
    Split(ExtendedText(v), '\'')
  }

  /**
   * The third piece of group 3 is the text after the language up to its first quote: a quote
   * inside that text cuts it short.
   */
  lemma ExtendedRest(v: ParamValue)
    requires v.Extended? && '\'' !in v.charset && '\'' !in v.language
    ensures ExtendedParts(v)[2] == Split(v.rest, '\'')[0]
  {
    SplitConcat(v.charset, '\'', v.language + "'" + v.rest);
    SplitConcat(v.language, '\'', v.rest);
    SplitPlain(v.charset, '\'');
    SplitPlain(v.language, '\'');
    assert ExtendedText(v) == v.charset + "'" + (v.language + "'" + v.rest);
  }

  /**
   * A starred parameter whose value part is percent-encoded gives back the text that was
   * encoded, whatever charset and language it names.
   */
  lemma InterpretEncoded(m: ParamMatch, t: string)
    requires m.star && m.value.Extended? && m.value.rest == PercentEncode(t)
    requires '\'' !in m.value.charset && '\'' !in m.value.language
    requires m.key != "__proto__" && !(m.key == "name" && t == "__proto__")
    ensures Interpret(m) == Success(t)
  {
    PercentEncodeChars(t);
    SplitPlain(PercentEncode(t), '\'');
    ExtendedRest(m.value);
    PercentDecodeEncode(t);
  }

  /** A key without `*` whose value has the extended shape stores the empty string. */
  lemma InterpretExtendedUnstarred(m: ParamMatch)
    requires !m.star && m.value.Extended? && m.key != "__proto__"
    ensures Interpret(m) == Success("")
  {
  }

  /**
   * A starred parameter whose value part, up to its first quote, is not valid percent-encoding
   * is refused, whatever charset and language it names.
   */
  lemma InterpretUndecodable(m: ParamMatch)
    requires m.star && m.value.Extended? && m.key != "__proto__"
    requires '\'' !in m.value.charset && '\'' !in m.value.language
    requires PercentDecode(Split(m.value.rest, '\'')[0]).None?
    ensures Interpret(m) == Failure(MalformedExtendedValue)
  {
    ExtendedRest(m.value);
  }

  /** The callbacks run in order over the matches, from the object `acc`. */
  function ApplyAll(acc: map<string, string>, ms: seq<ParamMatch>): (r: Result<map<string, string>>)
    ensures r.Failure? ==> r.error in {UnsafeParameterName, MalformedExtendedValue}
    ensures r.Success? ==> acc.Keys <= r.value.Keys
    decreases |ms|
  {
    if ms == [] then Success(acc)
    else match Interpret(ms[0])
      case Failure(e) => Failure(e)
      case Success(v) => ApplyAll(acc[ms[0].key := v], ms[1..])
  }

  /** `disposition(header)`, as one function of the header. */
  function DispositionSpec(h: string): (r: Result<map<string, string>>)
    ensures r.Failure? ==> r.error in {MissingHeader(ContentDispositionHeader), MalformedDisposition,
      MissingParameters, UnsafeParameterName, MalformedExtendedValue, MissingName}
    ensures r.Success? ==> "name" in r.value && r.value["name"] != ""
  {
    if h == [] then Failure(MissingHeader(ContentDispositionHeader))
    else match MatchOuter(h)
      case None => Failure(MalformedDisposition)
      case Some(None) => Failure(MissingParameters)
      case Some(Some(p)) => Finish(Matches(p, 0))
  }

  /** The callbacks over the matches `ms`, from an empty object, then the check for `name`. */
  function Finish(ms: seq<ParamMatch>): (r: Result<map<string, string>>)
    ensures r.Failure? ==> r.error in {UnsafeParameterName, MalformedExtendedValue, MissingName}
  {
    match ApplyAll(map[], ms)
    case Failure(e) => Failure(e)
    case Success(r) => if "name" !in r || r["name"] == "" then Failure(MissingName) else Success(r)
  }

  /** `disposition(header)` */
  method Disposition(h: string) returns (r: Result<map<string, string>>)
    ensures r == DispositionSpec(h)
  {
    if h == [] {
      return Failure(MissingHeader(ContentDispositionHeader));
    }
    var outer := MatchOuter(h);
    if outer.None? {
      return Failure(MalformedDisposition);
    }
    if outer.value.None? {
      return Failure(MissingParameters);
    }
    var parameters := outer.value.value;
    var result: map<string, string> := map[];
    var lastIndex := 0;
    while true
      invariant lastIndex <= |parameters|
      invariant ApplyAll(result, Matches(parameters, lastIndex)) == ApplyAll(map[], Matches(parameters, 0))
      decreases |parameters| - lastIndex
    {
      var m := NextMatch(parameters, lastIndex);
      if m.None? {
        break;
      }
      var value := Interpret(m.value);
      if value.Failure? {
        return Failure(value.error);
      }
      result := result[m.value.key := value.value];
      lastIndex := m.value.end;
    }
    if "name" !in result || result["name"] == "" {
      return Failure(MissingName);
    }
    return Success(result);
  }

  // ---------------------------------------------------------------------------------------
  // contentDispositionRegex: soundness and completeness

  /** What MatchOuter reports is a match of contentDispositionRegex. */
  lemma MatchOuterSound(h: string)
    ensures MatchOuter(h).Some? ==> SpanFrom(h, 0, IsSpace) + 9 <= |h|
    ensures MatchOuter(h) == Some(None) ==> OuterParse(h, SpanFrom(h, 0, IsSpace), 0, None)
    ensures MatchOuter(h).Some? && MatchOuter(h).value.Some? ==>
      var a := SpanFrom(h, 0, IsSpace);
      OuterParse(h, a, SpanFrom(h, a + 9, IsSpace), Some(|h| - |MatchOuter(h).value.value|))
  {
    var a := SpanFrom(h, 0, IsSpace);
    SpanFromRun(h, 0, IsSpace);
    AllSpaceSlice(h, 0, a);
    assert h[..a] == h[0..a];
  }

  /**
   * Whenever contentDispositionRegex can match, MatchOuter reports a match of the same kind,
   * and its group is the shortest any match could give.
   */
  lemma MatchOuterComplete(h: string, a: nat, c: nat, g: Option<nat>)
    requires OuterParse(h, a, c, g)
    ensures g.None? ==> MatchOuter(h) == Some(None)
    ensures g.Some? ==> MatchOuter(h).Some? && MatchOuter(h).value.Some?
    ensures g.Some? ==> g.value <= |h| - |MatchOuter(h).value.value|
  {
    OuterStart(h, a);
    match g {
      case None => AfterFormDataEnd(h, a + 9);
      case Some(s) => AfterFormDataGroup(h, a + 9, c, s);
    }
  }

  lemma AfterFormDataEnd(h: string, j: nat)
    requires j <= |h| && AllSpace(h[j..])
    ensures MatchAfterFormData(h, j) == Some(None)
  {
    AllSpaceSlice(h, j, |h|);
    SpanFromStops(h, j, IsSpace, |h|);
  }

  lemma AfterFormDataGroup(h: string, j: nat, c: nat, s: nat)
    requires j <= c < s < |h| && AllSpace(h[j..c]) && h[c] == ';' && AllSpace(h[c + 1..s])
    requires NoLineTerminator(h[s..])
    ensures MatchAfterFormData(h, j).Some? && MatchAfterFormData(h, j).value.Some?
    ensures s <= |h| - |MatchAfterFormData(h, j).value.value|
  {
    AllSpaceSlice(h, j, c);
    SpanFromStops(h, j, IsSpace, c);
    MatchGroupShortest(h, c + 1, s);
  }

  /** `\s*(.+)$` matches whenever some split into whitespace and a group does. */
  lemma MatchGroupShortest(h: string, j: nat, s: nat)
    requires j <= s < |h| && AllSpace(h[j..s]) && NoLineTerminator(h[s..])
    ensures MatchGroup(h, j).Some? && s <= |h| - |MatchGroup(h, j).value|
  {
    AllSpaceSlice(h, j, s);
    SpanFromCovers(h, j, IsSpace, s);
    var k := SpanFrom(h, j, IsSpace);
    var s' := if k < |h| then k else |h| - 1;
    forall x | 0 <= x < |h| - s'
      ensures !IsLineTerminator(h[s'..][x])
    {
      assert h[s'..][x] == h[s..][x + s' - s];
    }
  }

  /** `^\s*` before `form-data` takes all the leading whitespace. */
  lemma OuterStart(h: string, a: nat)
    requires CiPrefixAt(h, a, "form-data") && AllSpace(h[..a])
    ensures SpanFrom(h, 0, IsSpace) == a
  {
    assert Lower(h[a + 0]) == "form-data"[0] == 'f';
    AllSpaceSlice(h, 0, a);
    assert h[..a] == h[0..a];
    SpanFromStops(h, 0, IsSpace, a);
  }

  /** The header is malformed exactly when contentDispositionRegex cannot match it. */
  lemma MatchOuterNone(h: string)
    ensures MatchOuter(h).None? <==> forall a: nat, c: nat, g :: !OuterParse(h, a, c, g)
  {
    MatchOuterSound(h);
    if !(forall a: nat, c: nat, g :: !OuterParse(h, a, c, g)) {
      var a: nat, c: nat, g :| OuterParse(h, a, c, g);
      MatchOuterComplete(h, a, c, g);
    }
  }

  /** When the parameters start with a character other than whitespace, the group starts there. */
  lemma MatchOuterGroup(h: string, a: nat, c: nat, s: nat)
    requires OuterParse(h, a, c, Some(s)) && !IsSpace(h[s])
    ensures MatchOuter(h) == Some(Some(h[s..]))
  {
    OuterStart(h, a);
    AfterFormDataParams(h, a + 9, c, s);
  }

  lemma AfterFormDataParams(h: string, j: nat, c: nat, s: nat)
    requires j <= c < s < |h| && AllSpace(h[j..c]) && h[c] == ';' && AllSpace(h[c + 1..s])
    requires NoLineTerminator(h[s..]) && !IsSpace(h[s])
    ensures MatchAfterFormData(h, j) == Some(Some(h[s..]))
  {
    AllSpaceSlice(h, j, c);
    SpanFromStops(h, j, IsSpace, c);
    GroupAt(h, c + 1, s);
  }

  /** `\s*(.+)$` takes all the whitespace before a character that is not whitespace. */
  lemma GroupAt(h: string, j: nat, s: nat)
    requires j <= s < |h| && AllSpace(h[j..s]) && NoLineTerminator(h[s..]) && !IsSpace(h[s])
    ensures MatchGroup(h, j) == Some(h[s..])
  {
    AllSpaceSlice(h, j, s);
    SpanFromStops(h, j, IsSpace, s);
  }

  // ---------------------------------------------------------------------------------------
  // The callbacks over all matches

  /** No callback throws. */
  predicate AllValid(ms: seq<ParamMatch>)
  {
    forall k :: 0 <= k < |ms| ==> Interpret(ms[k]).Success?
  }

  /** Match `k` is the last one with key `key`. */
  predicate LastAssigns(ms: seq<ParamMatch>, k: int, key: string)
  {
    0 <= k < |ms| && ms[k].key == key && forall l :: k < l < |ms| ==> ms[l].key != key
  }

  /** The callbacks all run to completion exactly when none of them throws. */
  lemma {:induction false} ApplyAllSucceeds(acc: map<string, string>, ms: seq<ParamMatch>)
    ensures ApplyAll(acc, ms).Success? <==> AllValid(ms)
    decreases |ms|
  {
    if ms != [] {
      assert forall k :: 1 <= k < |ms| ==> ms[1..][k - 1] == ms[k];
      if Interpret(ms[0]).Success? {
        ApplyAllSucceeds(acc[ms[0].key := Interpret(ms[0]).value], ms[1..]);
      }
    }
  }

  /** A failure is the error of the first callback that throws. */
  lemma {:induction false} ApplyAllFirstError(acc: map<string, string>, ms: seq<ParamMatch>)
    requires ApplyAll(acc, ms).Failure?
    ensures exists k :: (0 <= k < |ms| && Interpret(ms[k]) == Failure(ApplyAll(acc, ms).error) &&
      forall l :: 0 <= l < k ==> Interpret(ms[l]).Success?)
    decreases |ms|
  {
    if Interpret(ms[0]).Success? {
      var acc' := acc[ms[0].key := Interpret(ms[0]).value];
      ApplyAllFirstError(acc', ms[1..]);
      var k :| 0 <= k < |ms[1..]| && Interpret(ms[1..][k]) == Failure(ApplyAll(acc', ms[1..]).error)
        && forall l :: 0 <= l < k ==> Interpret(ms[1..][l]).Success?;
      assert forall l :: 1 <= l < k + 1 ==> ms[l] == ms[1..][l - 1];
      assert Interpret(ms[k + 1]) == Failure(ApplyAll(acc, ms).error);
    }
  }

  /**
   * When no callback throws, the object holds the keys it started with and the keys of the
   * matches; each key of a match holds the value of the last match with that key, and every
   * other key keeps its value.
   */
  lemma {:induction false} ApplyAllAssigns(acc: map<string, string>, ms: seq<ParamMatch>, key: string)
    requires AllValid(ms)
    ensures ApplyAll(acc, ms).Success?
    ensures key in ApplyAll(acc, ms).value <==> key in acc || exists k :: 0 <= k < |ms| && ms[k].key == key
    ensures forall k :: LastAssigns(ms, k, key) ==> ApplyAll(acc, ms).value[key] == Interpret(ms[k]).value
    ensures key in acc && (forall k :: 0 <= k < |ms| ==> ms[k].key != key) ==>
      ApplyAll(acc, ms).value[key] == acc[key]
    decreases |ms|
  {
    ApplyAllSucceeds(acc, ms);
    if ms != [] {
      var acc' := acc[ms[0].key := Interpret(ms[0]).value];
      assert forall k :: 1 <= k < |ms| ==> ms[1..][k - 1] == ms[k];
      ApplyAllAssigns(acc', ms[1..], key);
      forall k | LastAssigns(ms, k, key)
        ensures ApplyAll(acc, ms).value[key] == Interpret(ms[k]).value
      {
        if k > 0 {
          assert LastAssigns(ms[1..], k - 1, key);
        }
      }
    }
  }

  /** When callback `k` is the first to throw, the callbacks fail with its error. */
  lemma {:induction false} ApplyAllFailsAt(acc: map<string, string>, ms: seq<ParamMatch>, k: nat)
    requires k < |ms| && Interpret(ms[k]).Failure?
    requires forall l :: 0 <= l < k ==> Interpret(ms[l]).Success?
    ensures ApplyAll(acc, ms) == Failure(Interpret(ms[k]).error)
    decreases k
  {
    if k > 0 {
      assert forall l :: 0 <= l < k - 1 ==> ms[1..][l] == ms[l + 1];
      ApplyAllFailsAt(acc[ms[0].key := Interpret(ms[0]).value], ms[1..], k - 1);
    }
  }

  /** Some match with key `key` is the last one with that key. */
  lemma {:induction false} LastAssignsExists(ms: seq<ParamMatch>, k: nat, key: string)
    requires k < |ms| && ms[k].key == key
    ensures exists k' :: LastAssigns(ms, k', key)
    decreases |ms| - k
  {
    if !LastAssigns(ms, k, key) {
      var l :| k < l < |ms| && ms[l].key == key;
      LastAssignsExists(ms, l, key);
    }
  }

  // ---------------------------------------------------------------------------------------
  // disposition(header)

  /**
   * An accepted header yields a non-empty `name` that is not `__proto__`, and never a
   * `__proto__` key.
   */
  lemma FinishSafe(ms: seq<ParamMatch>)
    requires Finish(ms).Success?
    ensures "name" in Finish(ms).value && Finish(ms).value["name"] != ""
    ensures Finish(ms).value["name"] != "__proto__"
    ensures "__proto__" !in Finish(ms).value
  {
    ApplyAllSucceeds(map[], ms);
    ApplyAllAssigns(map[], ms, "__proto__");
    ApplyAllAssigns(map[], ms, "name");
    var k :| 0 <= k < |ms| && ms[k].key == "name";
    LastAssignsExists(ms, k, "name");
  }

  /**
   * The matches are accepted exactly when no callback throws and the last `name` is not
   * empty. The object then holds exactly the keys of the matches, each with the value of its
   * last match.
   */
  lemma FinishAccepted(ms: seq<ParamMatch>)
    ensures Finish(ms).Success? <==>
      (AllValid(ms) && exists k :: LastAssigns(ms, k, "name") && Interpret(ms[k]).value != "")
    ensures Finish(ms).Success? ==>
      forall key :: key in Finish(ms).value <==> exists k :: 0 <= k < |ms| && ms[k].key == key
    ensures Finish(ms).Success? ==> forall k :: 0 <= k < |ms| && LastAssigns(ms, k, ms[k].key) ==>
      Finish(ms).value[ms[k].key] == Interpret(ms[k]).value
  {
    ApplyAllSucceeds(map[], ms);
    if AllValid(ms) {
      ApplyAllAssigns(map[], ms, "name");
      if "name" in ApplyAll(map[], ms).value {
        var k :| 0 <= k < |ms| && ms[k].key == "name";
        LastAssignsExists(ms, k, "name");
      }
      forall key
        ensures key in ApplyAll(map[], ms).value <==> exists k :: 0 <= k < |ms| && ms[k].key == key
      {
        ApplyAllAssigns(map[], ms, key);
      }
      forall k | 0 <= k < |ms| && LastAssigns(ms, k, ms[k].key)
        ensures ApplyAll(map[], ms).value[ms[k].key] == Interpret(ms[k]).value
      {
        ApplyAllAssigns(map[], ms, ms[k].key);
      }
    }
  }

  /** The same guarantees for a whole header. */
  lemma DispositionSafe(h: string)
    requires DispositionSpec(h).Success?
    ensures "name" in DispositionSpec(h).value && DispositionSpec(h).value["name"] != ""
    ensures DispositionSpec(h).value["name"] != "__proto__"
    ensures "__proto__" !in DispositionSpec(h).value
  {
    FinishSafe(Matches(MatchOuter(h).value.value, 0));
  }

  /** Each kind of error comes from exactly one stage. */
  lemma DispositionErrors(h: string)
    ensures DispositionSpec(h) == Failure(MissingHeader(ContentDispositionHeader)) <==> h == []
    ensures h != [] ==> (DispositionSpec(h) == Failure(MalformedDisposition) <==>
      forall a: nat, c: nat, g :: !OuterParse(h, a, c, g))
    ensures DispositionSpec(h) == Failure(MissingParameters) <==> h != [] && MatchOuter(h) == Some(None)
    ensures DispositionSpec(h).Failure? && DispositionSpec(h).error in {UnsafeParameterName, MalformedExtendedValue} ==>
      MatchOuter(h).Some? && MatchOuter(h).value.Some? && !AllValid(Matches(MatchOuter(h).value.value, 0))
    ensures MatchOuter(h).Some? && MatchOuter(h).value.Some? && !AllValid(Matches(MatchOuter(h).value.value, 0)) ==>
      DispositionSpec(h).Failure? && DispositionSpec(h).error in {UnsafeParameterName, MalformedExtendedValue}
    ensures DispositionSpec(h) == Failure(MissingName) ==>
      MatchOuter(h).Some? && MatchOuter(h).value.Some? && AllValid(Matches(MatchOuter(h).value.value, 0))
  {
    MatchOuterNone(h);
    if h != [] && MatchOuter(h).Some? && MatchOuter(h).value.Some? {
      FinishErrors(Matches(MatchOuter(h).value.value, 0));
    }
  }

  /** When callback `k` is the first to throw, the whole header is rejected with its error. */
  lemma DispositionFailsAt(h: string, k: nat)
    requires MatchOuter(h).Some? && MatchOuter(h).value.Some?
    requires var ms := Matches(MatchOuter(h).value.value, 0);
      k < |ms| && Interpret(ms[k]).Failure? && forall l :: 0 <= l < k ==> Interpret(ms[l]).Success?
    ensures DispositionSpec(h) == Failure(Interpret(Matches(MatchOuter(h).value.value, 0)[k]).error)
  {
    ApplyAllFailsAt(map[], Matches(MatchOuter(h).value.value, 0), k);
  }

  /**
   * So a header whose first refused parameter is a starred one with an undecodable value part
   * is rejected as a malformed extended value.
   */
  lemma DispositionUndecodable(h: string, k: nat)
    requires MatchOuter(h).Some? && MatchOuter(h).value.Some?
    requires var ms := Matches(MatchOuter(h).value.value, 0);
      && k < |ms| && forall l :: 0 <= l < k ==> Interpret(ms[l]).Success?
    requires var m := Matches(MatchOuter(h).value.value, 0)[k];
      && m.star && m.value.Extended? && m.key != "__proto__"
      && '\'' !in m.value.charset && '\'' !in m.value.language
      && PercentDecode(Split(m.value.rest, '\'')[0]).None?
    ensures DispositionSpec(h) == Failure(MalformedExtendedValue)
  {
    InterpretUndecodable(Matches(MatchOuter(h).value.value, 0)[k]);
    DispositionFailsAt(h, k);
  }

  /** The callbacks throw only their own two errors, and only when one of them fails. */
  lemma FinishErrors(ms: seq<ParamMatch>)
    ensures Finish(ms).Failure? ==>
      Finish(ms).error in {UnsafeParameterName, MalformedExtendedValue, MissingName}
    ensures Finish(ms).Failure? && Finish(ms).error != MissingName ==> !AllValid(ms)
    ensures !AllValid(ms) ==> Finish(ms).Failure? && Finish(ms).error != MissingName
  {
    ApplyAllSucceeds(map[], ms);
    if ApplyAll(map[], ms).Failure? {
      ApplyAllFirstError(map[], ms);
    }
  }

  // ---------------------------------------------------------------------------------------
  // Worked headers

  /** The usual header, `form-data; name="<n>"`, gives the object with just that name. */
  lemma QuotedName(n: string)
    requires n != [] && '"' !in n && NoLineTerminator(n) && n != "__proto__"
    ensures DispositionSpec("form-data; name=\"" + n + "\"") == Success(map["name" := n])
  {
    var p := "name=\"" + n + "\"";
    QuotedNameOuter(n);
    QuotedNameMatches(n);
    var m := ParamMatch(0, "name", false, Quoted(n), |p|);
    assert Interpret(m) == Success(n);
    NameOnly(m, n);
  }

  /** `form-data; ` before parameters that do not start with whitespace leaves exactly the parameters. */
  lemma FormDataParams(p: string)
    requires p != [] && !IsSpace(p[0]) && NoLineTerminator(p)
    ensures MatchOuter("form-data; " + p) == Some(Some(p))
  {
    var h := "form-data; " + p;
    assert h[11..] == p;
    assert h[0..9] == "form-data";
    assert OuterParse(h, 0, 9, Some(11));
    MatchOuterGroup(h, 0, 9, 11);
  }

  lemma QuotedNameOuter(n: string)
    requires NoLineTerminator(n)
    ensures MatchOuter("form-data; name=\"" + n + "\"") == Some(Some("name=\"" + n + "\""))
  {
    var p := "name=\"" + n + "\"";
    assert "form-data; name=\"" + n + "\"" == "form-data; " + p;
    assert NoLineTerminator(p) by {
      forall x | 0 <= x < |p|
        ensures !IsLineTerminator(p[x])
      {
        if 6 <= x < |p| - 1 {
          assert p[x] == n[x - 6];
        }
      }
    }
    FormDataParams(p);
  }

  /** A single match for `name` whose callback succeeds gives the object with just that name. */
  lemma NameOnly(m: ParamMatch, n: string)
    requires m.key == "name" && Interpret(m) == Success(n) && n != ""
    ensures Finish([m]) == Success(map["name" := n])
  {
    assert [m][0] == m && [m][1..] == [];
    assert ApplyAll(map[], [m]) == ApplyAll(map["name" := n], []);
  }

  /** The parameters `name="<n>"` give one match, which runs to the end. */
  lemma QuotedNameMatches(n: string)
    requires '"' !in n
    ensures var p := "name=\"" + n + "\"";
      Matches(p, 0) == [ParamMatch(0, "name", false, Quoted(n), |p|)]
  {
    var p := "name=\"" + n + "\"";
    var m := ParamMatch(0, "name", false, Quoted(n), |p|);
    assert p[0..4] == "name" && p[4] == '=' && p[5] == '"' && p[|p| - 1] == '"';
    assert p[6..|p| - 1] == n;
    assert Run(p, 6, |p| - 1, QuotedChar) by {
      forall x | 6 <= x < |p| - 1
        ensures QuotedChar(p[x])
      {
        assert p[x] == n[x - 6];
      }
    }
    assert ParamShape(p, m, 4, 4, 5, |p|, 0);
    ParamComplete(p, m, 4, 4, 5, |p|, 0);
    assert ParamMatchAt(p, |p|).None?;
  }

  /** A character a key, a charset and a bare value can all hold. */
  predicate PlainChar(c: char)
  {
    KeyChar(c) && CharsetChar(c)
  }

  /** A non-empty value of plain characters, written without quotes. */
  predicate PlainToken(t: string)
  {
    t != [] && forall i :: 0 <= i < |t| ==> PlainChar(t[i])
  }

  /** The runs inside `name=<t>` followed by `tail`. */
  lemma PlainRuns(t: string, tail: string)
    requires PlainToken(t)
    ensures var q := "name=" + t + tail;
      && Run(q, 0, 4, KeyChar) && q[4] == '=' && q[5] == t[0]
      && Run(q, 5, 5 + |t|, KeyChar) && Run(q, 5, 5 + |t|, CharsetChar) && Run(q, 5, 5 + |t|, TokenChar)
      && q[5 + |t|..] == tail
  {
    var q := "name=" + t + tail;
    assert forall x :: 5 <= x < 5 + |t| ==> q[x] == t[x - 5];
    assert q[5 + |t|..] == tail;
  }

  /** `name=<t>` followed by nothing or a space fits on one line. */
  lemma PlainTokenLine(t: string, tail: string)
    requires PlainToken(t) && (tail == [] || tail == " ")
    ensures "name=" + t + tail != [] && !IsSpace(("name=" + t + tail)[0])
    ensures NoLineTerminator("name=" + t + tail)
  {
    var q := "name=" + t + tail;
    PlainRuns(t, tail);
    forall x | 0 <= x < |q|
      ensures !IsLineTerminator(q[x])
    {
      if 5 <= x < 5 + |t| {
        assert TokenChar(q[x]);
      } else if x >= 5 + |t| {
        assert q[x] == tail[x - 5 - |t|];
      }
    }
  }

  /** `name=<t>` for a plain token `t` is read as one bare parameter that runs to the end. */
  lemma BareNameMatches(t: string)
    requires PlainToken(t)
    ensures var p := "name=" + t; Matches(p, 0) == [ParamMatch(0, "name", false, Bare(t), |p|)]
  {
    var p := "name=" + t;
    assert p == "name=" + t + [];
    PlainRuns(t, []);
    SpanFromStops(p, 0, KeyChar, 4);
    SpanFromStops(p, 4, IsSpace, 4);
    SpanFromStops(p, 5, IsSpace, 5);
    SpanFromStops(p, 5, CharsetChar, |p|);
    SpanFromStops(p, 5, TokenChar, |p|);
    SpanFromStops(p, |p|, IsSpace, |p|);
    assert p[0..4] == "name" && p[5..] == t;
    assert ValueAt(p, 5) == Some((Bare(t), |p|));
    ParamMatchAtOf(p, 0, 4, 4, 4, 5, Bare(t), |p|);
    assert ParamMatchAt(p, |p|).None?;
  }

  /** `form-data; name=<t>` gives the object with just that name. */
  lemma BareName(t: string)
    requires PlainToken(t) && t != "__proto__"
    ensures DispositionSpec("form-data; name=" + t) == Success(map["name" := t])
  {
    var p := "name=" + t;
    PlainTokenLine(t, []);
    assert "name=" + t + [] == p;
    FormDataParams(p);
    assert "form-data; name=" + t == "form-data; " + p;
    assert DispositionSpec("form-data; name=" + t) == Finish(Matches(p, 0));
    BareNameMatches(t);
    var m := ParamMatch(0, "name", false, Bare(t), |p|);
    assert Interpret(m) == Success(t);
    NameOnly(m, t);
  }

  /**
   * Whitespace after the last value defeats the terminator, which needs a `;` or the end: in
   * `name=<t> ` nothing matches at any position.
   */
  lemma TrailingSpaceNoMatch(t: string, i: nat)
    requires PlainToken(t) && i <= |t| + 6
    ensures ParamMatchAt("name=" + t + " ", i).None?
  {
    var p := "name=" + t + " ";
    PlainRuns(t, " ");
    var last := |p| - 1;
    assert p[last] == ' ';
    if i < 4 {
      SpanFromStops(p, i, KeyChar, 4);
      SpanFromStops(p, 4, IsSpace, 4);
      SpanFromStops(p, 5, IsSpace, 5);
      TrailingSpaceNoValue(p, t);
      ParamMatchAtNoValue(p, i, 4, 4, 4, 5);
    } else if i == 4 || i == last || i == |p| {
      SpanFromStops(p, i, KeyChar, i);
    } else {
      SpanFromStops(p, i, KeyChar, last);
      SpanFromStops(p, last, IsSpace, |p|);
      ParamMatchAtNoEquals(p, i, last, last);
    }
  }

  /** In `name=<t> ` no alternative reads a value with its terminator after the `=`. */
  lemma TrailingSpaceNoValue(p: string, t: string)
    requires PlainToken(t) && p == "name=" + t + " "
    ensures ValueAt(p, 5).None?
  {
    PlainRuns(t, " ");
    var last := |p| - 1;
    assert p[last] == ' ';
    SpanFromStops(p, 5, CharsetChar, last);
    SpanFromStops(p, 5, TokenChar, last);
    SpanFromStops(p, last, IsSpace, |p|);
  }

  /** A search that meets no match from `from` on finds nothing. */
  lemma {:induction false} NoMatchFrom(p: string, from: nat)
    requires from <= |p| && forall i :: from <= i <= |p| ==> ParamMatchAt(p, i).None?
    ensures NextMatch(p, from).None?
    decreases |p| - from
  {
    if from < |p| {
      NoMatchFrom(p, from + 1);
    }
  }

  /** So `form-data; name=<t> ` is rejected for lack of a name, while without the space it is accepted. */
  lemma TrailingSpace(t: string)
    requires PlainToken(t)
    ensures DispositionSpec("form-data; name=" + t + " ") == Failure(MissingName)
  {
    var p := "name=" + t + " ";
    PlainTokenLine(t, " ");
    assert "form-data; name=" + t + " " == "form-data; " + p;
    FormDataParams(p);
    forall i | 0 <= i <= |p|
      ensures ParamMatchAt(p, i).None?
    {
      TrailingSpaceNoMatch(t, i);
    }
    NoMatchFrom(p, 0);
    assert Matches(p, 0) == [];
    assert ApplyAll(map[], []) == Success(map[]);
  }

  /**
   * `form-data; `: `.+` needs a character, so the greedy `\s*` after `;` gives back the last
   * space, which becomes the parameters. They are present, hold no match, and the header is
   * rejected for lack of a name rather than of parameters.
   */
  lemma SpaceOnlyParameters()
    ensures MatchOuter("form-data; ") == Some(Some(" "))
    ensures DispositionSpec("form-data; ") == Failure(MissingName)
  {
    var h := "form-data; ";
    assert h[0..9] == "form-data";
    OuterStart(h, 0);
    SpanFromStops(h, 9, IsSpace, 9);
    SpanFromStops(h, 10, IsSpace, 11);
    assert h[10..] == " ";
    SpanFromStops(" ", 0, KeyChar, 0);
    SpanFromStops(" ", 1, KeyChar, 1);
    assert Matches(" ", 0) == [];
    assert ApplyAll(map[], []) == Success(map[]);
  }

  /**
   * `form-data; name=a'b'c`: the value has the extended shape, so it is read by the first
   * alternative, but the key has no `*`, so `name` is stored empty and the header is rejected.
   */
  lemma UnstarredExtendedName()
    ensures DispositionSpec("form-data; name=a'b'c") == Failure(MissingName)
  {
    UnstarredExtendedOuter();
    UnstarredExtendedMatches();
    var m := ParamMatch(0, "name", false, Extended("a", "b", "c"), 10);
    assert ApplyAll(map[], [m]) == ApplyAll(map["name" := ""], []);
  }

  lemma UnstarredExtendedMatches()
    ensures Matches("name=a'b'c", 0) == [ParamMatch(0, "name", false, Extended("a", "b", "c"), 10)]
  {
    var p := "name=a'b'c";
    SpanFromStops(p, 0, KeyChar, 4);
    SpanFromStops(p, 4, IsSpace, 4);
    SpanFromStops(p, 5, IsSpace, 5);
    UnstarredExtendedValue();
    assert p[0..4] == "name";
    ParamMatchAtOf(p, 0, 4, 4, 4, 5, Extended("a", "b", "c"), 10);
    assert ParamMatchAt(p, 10).None?;
  }

  lemma UnstarredExtendedOuter()
    ensures MatchOuter("form-data; name=a'b'c") == Some(Some("name=a'b'c"))
  {
    var p := "name=a'b'c";
    FormDataParams(p);
    assert "form-data; name=a'b'c" == "form-data; " + p;
  }

  lemma UnstarredExtendedValue()
    ensures ValueAt("name=a'b'c", 5) == Some((Extended("a", "b", "c"), 10))
  {
    var p := "name=a'b'c";
    SpanFromStops(p, 5, CharsetChar, 6);
    SpanFromStops(p, 7, LanguageChar, 8);
    SpanFromStops(p, 9, TokenChar, 10);
    SpanFromStops(p, 10, IsSpace, 10);
    assert p[5..6] == "a" && p[7..8] == "b" && p[9..10] == "c";
  }

  /**
   * `form-data; name*=<cs>''%`: a starred parameter whose value part is a lone `%` rejects the
   * header, whatever plain charset it names.
   */
  lemma UndecodableName(cs: string)
    requires PlainToken(cs)
    ensures DispositionSpec("form-data; name*=" + cs + "''%") == Failure(MalformedExtendedValue)
  {
    var p := "name*=" + cs + "''%";
    UndecodableLine(cs);
    FormDataParams(p);
    assert "form-data; name*=" + cs + "''%" == "form-data; " + p;
    var m := UndecodableMatch(cs);
    UndecodableInterpret(cs, m.end);
    assert Matches(p, 0)[0] == m;
    ApplyAllFailsAt(map[], Matches(p, 0), 0);
  }

  /** The characters of `name*=<cs>''%`. */
  lemma UndecodableChars(cs: string)
    requires PlainToken(cs)
    ensures var p := "name*=" + cs + "''%"; var x := 6 + |cs|;
      && |p| == x + 3 && p[0..4] == "name" && p[4] == '*' && p[5] == '='
      && Run(p, 6, x, CharsetChar) && Run(p, 0, 4, KeyChar) && p[x] == '\'' && p[x + 1] == '\'' && p[x + 2] == '%'
      && p[6..x] == cs && p[x + 1..x + 1] == "" && p[x + 2..x + 3] == "%"
  {
    var p := "name*=" + cs + "''%";
    assert forall y :: 6 <= y < 6 + |cs| ==> p[y] == cs[y - 6];
  }

  lemma UndecodableLine(cs: string)
    requires PlainToken(cs)
    ensures NoLineTerminator("name*=" + cs + "''%")
  {
    var p := "name*=" + cs + "''%";
    UndecodableChars(cs);
    forall y | 0 <= y < |p|
      ensures !IsLineTerminator(p[y])
    {
      if 6 <= y < 6 + |cs| {
        assert CharsetChar(p[y]);
      }
    }
  }

  lemma UndecodableInterpret(cs: string, e: nat)
    requires PlainToken(cs)
    ensures Interpret(ParamMatch(0, "name", true, Extended(cs, "", "%"), e)) == Failure(MalformedExtendedValue)
  {
    var m := ParamMatch(0, "name", true, Extended(cs, "", "%"), e);
    assert '\'' !in cs by {
      forall y | 0 <= y < |cs|
        ensures cs[y] != '\''
      {
        assert CharsetChar(cs[y]);
      }
    }
    SplitPlain("%", '\'');
    assert PercentDecode([]) == Some([]);
    PercentDecodeStray([], "");
    assert [] + "%" + "" == "%";
    InterpretUndecodable(m);
  }

  lemma UndecodableMatch(cs: string) returns (m: ParamMatch)
    requires PlainToken(cs)
    ensures m == ParamMatch(0, "name", true, Extended(cs, "", "%"), 9 + |cs|)
    ensures NextMatch("name*=" + cs + "''%", 0) == Some(m)
  {
    var p := "name*=" + cs + "''%";
    UndecodableChars(cs);
    SpanFromStops(p, 0, KeyChar, 4);
    SpanFromStops(p, 5, IsSpace, 5);
    SpanFromStops(p, 6, IsSpace, 6);
    UndecodableValue(cs);
    m := ParamMatch(0, "name", true, Extended(cs, "", "%"), |p|);
    ParamMatchAtOf(p, 0, 4, 5, 5, 6, m.value, |p|);
  }

  lemma UndecodableValue(cs: string)
    requires PlainToken(cs)
    ensures var p := "name*=" + cs + "''%"; ValueAt(p, 6) == Some((Extended(cs, "", "%"), |p|))
  {
    var p := "name*=" + cs + "''%";
    var x := 6 + |cs|;
    UndecodableChars(cs);
    SpanFromStops(p, 6, CharsetChar, x);
    SpanFromStops(p, x + 1, LanguageChar, x + 1);
    SpanFromStops(p, x + 2, TokenChar, |p|);
    SpanFromStops(p, |p|, IsSpace, |p|);
    assert ExtendedBounds(p, 6) == Some((x, x + 1, |p|));
  }
}
