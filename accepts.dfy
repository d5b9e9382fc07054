/**
 * `accept(header)` of lib/index.js.
 *
 * The header is split at every comma. Each piece must match acceptHeaderRegex
 * `/^(\S+\/\S+)(?:;\s*q=([0-1](?:\.\d*)?))?$/i` as a whole, with no trimming. A piece gives an
 * entry: the lower-cased media range and its weight (1 when the piece has none). One piece that
 * does not match rejects the whole header.
 */
module Accepts {
  import opened Results
  import opened Lexical
  import opened Decimal

  /** One element of the array `accept` returns. */
  datatype AcceptEntry = AcceptEntry(mime: string, q: real)

  /** The two capture groups of acceptHeaderRegex. */
  datatype Captures = Captures(range: string, weight: Option<string>)

  /** `\S+\/\S+`: a slash with at least one character on each side, and no whitespace. */
  predicate IsMediaRange(m: string)
  {
    NoSpace(m) && exists a :: 1 <= a < |m| - 1 && m[a] == '/'
  }

  /**
   * `;\s*q=` at position `b` of `t`, followed by the weight `w`, which ends `t`; the `q` stands
   * at `|t| - |w| - 2`.
   */
  predicate WeightAt(t: string, b: nat, w: string)
  {
    var j := |t| - |w| - 2;
    && b + 1 <= j
    && t[b] == ';'
    && (forall i :: b < i < j ==> IsSpace(t[i]))
    && Lower(t[j]) == 'q'
    && t[j + 1] == '='
    && t[j + 2..] == w
    && IsWeight(w)
  }

  /** acceptHeaderRegex matches `t` with the first group `t[..b]` and the second group `w`. */
  predicate AcceptParse(t: string, b: nat, w: Option<string>)
  {
    && b <= |t|
    && IsMediaRange(t[..b])
    && (if w.None? then b == |t| else WeightAt(t, b, w.value))
  }

  /**
   * `t.match(acceptHeaderRegex)`. The first group holds no whitespace, so the regex either
   * takes the whole piece as the range (when it has no whitespace) or needs the `;` just
   * before the first whitespace to start the weight.
   */
  function MatchAccept(t: string): (r: Option<Captures>)
    ensures r.Some? && r.value.weight.Some? ==> IsWeight(r.value.weight.value)
  {
    var k := SpanFrom(t, 0, NotSpace);
    if k == |t| then
      if IsMediaRange(t) then Some(Captures(t, None)) else None
    else if 1 <= k && t[k - 1] == ';' && IsMediaRange(t[..k - 1]) then
      var j := SpanFrom(t, k, IsSpace);
      if j + 2 <= |t| && Lower(t[j]) == 'q' && t[j + 1] == '=' && IsWeight(t[j + 2..]) then
        Some(Captures(t[..k - 1], Some(t[j + 2..])))
      else None
    else None
  }

  /** What `MatchAccept` captures is a match of acceptHeaderRegex: the range is a prefix of the piece. */
  lemma MatchAcceptSound(t: string, c: Captures)
    requires MatchAccept(t) == Some(c)
    ensures |c.range| <= |t| && c.range == t[..|c.range|] && AcceptParse(t, |c.range|, c.weight)
  {
    var k := SpanFrom(t, 0, NotSpace);
    SpanFromRun(t, 0, NotSpace);
    if k == |t| {
      assert t[..|t|] == t;
    } else {
      var j := SpanFrom(t, k, IsSpace);
      SpanFromRun(t, k, IsSpace);
      assert WeightAt(t, k - 1, t[j + 2..]);
    }
  }

  /** The entry a matching piece gives: the lower-cased range and `parseFloat` of the weight. */
  function EntryOf(c: Captures): (e: AcceptEntry)
    requires c.weight.Some? ==> IsWeight(c.weight.value)
    ensures IsLowerCase(e.mime) && |e.mime| == |c.range|
    ensures 0.0 <= e.q < 2.0
  {
    AcceptEntry(LowerAll(c.range), if c.weight.Some? then WeightValue(c.weight.value) else 1.0)
  }

  /** Every piece of the header matches acceptHeaderRegex. */
  predicate AllMatch(pieces: seq<string>)
  {
    forall k :: 0 <= k < |pieces| ==> MatchAccept(pieces[k]).Some?
  }

  /** `accept(header)` */
  method Accept(h: string) returns (r: Result<seq<AcceptEntry>>)
    ensures h == [] ==> r == Failure(MissingHeader(AcceptHeader))
    ensures h != [] ==> (r.Success? <==> AllMatch(Split(h, ',')))
    ensures h != [] && r.Failure? ==> r.error == MalformedAcceptEntry
    ensures r.Success? ==> |r.value| == |Split(h, ',')|
    ensures r.Success? ==> forall k :: 0 <= k < |r.value| ==>
      MatchAccept(Split(h, ',')[k]).Some? && r.value[k] == EntryOf(MatchAccept(Split(h, ',')[k]).value)
  {
    if h == [] {
      return Failure(MissingHeader(AcceptHeader));
    }
    var types := Split(h, ',');
    var result: seq<AcceptEntry> := [];
    var i := 0;
    while i < |types|
      invariant 0 <= i <= |types|
      invariant |result| == i
      invariant forall k :: 0 <= k < i ==>
        MatchAccept(types[k]).Some? && result[k] == EntryOf(MatchAccept(types[k]).value)
    {
      var m := MatchAccept(types[i]);
      if m.None? {
        return Failure(MalformedAcceptEntry);
      }
      result := result + [EntryOf(m.value)];
      i := i + 1;
    }
    return Success(result);
  }

  /**
   * Whenever acceptHeaderRegex can match a piece, it does, and its first group is the longest
   * one any match could give (the backtracking order tries longer ranges first).
   */
  lemma MatchAcceptLongest(t: string, b: nat, w: Option<string>)
    requires AcceptParse(t, b, w)
    ensures MatchAccept(t).Some? && b <= |MatchAccept(t).value.range|
  {
    if w.None? {
      assert t[..b] == t;
      SpanFromRun(t, 0, NotSpace);
    } else if b + 1 < |t| - |w.value| - 2 {
      LongestSpaced(t, b, w.value);
    } else {
      LongestUnspaced(t, b, w.value);
    }
  }

  lemma LongestSpaced(t: string, b: nat, w: string)
    requires AcceptParse(t, b, Some(w)) && b + 1 < |t| - |w| - 2
    ensures MatchAccept(t) == Some(Captures(t[..b], Some(w)))
  {
    SpacedSpans(t, b, w);
    assert t[..b + 1 - 1] == t[..b];
  }

  /** Where the two greedy runs of MatchAccept stop on a piece with a spaced weight. */
  lemma SpacedSpans(t: string, b: nat, w: string)
    requires AcceptParse(t, b, Some(w)) && b + 1 < |t| - |w| - 2
    ensures SpanFrom(t, 0, NotSpace) == b + 1
    ensures SpanFrom(t, b + 1, IsSpace) == |t| - |w| - 2
  {
    var j := |t| - |w| - 2;
    assert forall i :: 0 <= i < b ==> t[i] == t[..b][i];
    SpanFromStops(t, 0, NotSpace, b + 1);
    SpanFromStops(t, b + 1, IsSpace, j);
  }

  lemma LongestUnspaced(t: string, b: nat, w: string)
    requires AcceptParse(t, b, Some(w)) && b + 1 == |t| - |w| - 2
    ensures MatchAccept(t) == Some(Captures(t, None))
  {
    WeightNoSpace(w);
    assert forall i :: 0 <= i < |t| ==> NotSpace(t[i]) by {
      forall i | 0 <= i < |t|
        ensures NotSpace(t[i])
      {
        if i < b {
          assert t[i] == t[..b][i];
        } else if i > b + 2 {
          assert t[i] == w[i - b - 3];
        }
      }
    }
    SpanFromCovers(t, 0, NotSpace, |t|);
    var a :| 1 <= a < b - 1 && t[..b][a] == '/';
    assert t[a] == '/';
  }

  /** A weight holds no whitespace. */
  lemma WeightNoSpace(w: string)
    requires IsWeight(w)
    ensures NoSpace(w)
  {
    forall i | 2 <= i < |w|
      ensures !IsSpace(w[i])
    {
      assert w[i] == w[2..][i - 2];
    }
  }

  /** A piece is rejected exactly when acceptHeaderRegex cannot match it. */
  lemma MatchAcceptComplete(t: string)
    ensures MatchAccept(t).None? <==> forall b: nat, w :: !AcceptParse(t, b, w)
  {
    if !(forall b: nat, w :: !AcceptParse(t, b, w)) {
      var b: nat, w :| AcceptParse(t, b, w);
      MatchAcceptLongest(t, b, w);
    } else if MatchAccept(t).Some? {
      MatchAcceptSound(t, MatchAccept(t).value);
    }
  }

  /**
   * A range followed by `;`, at least one whitespace character, `q=` or `Q=` and a weight gives
   * that range and weight.
   */
  lemma AcceptSpacedWeight(m: string, sp: string, q: char, w: string)
    requires IsMediaRange(m) && |sp| > 0 && AllSpace(sp) && Lower(q) == 'q' && IsWeight(w)
    ensures MatchAccept(m + ";" + sp + [q] + "=" + w) == Some(Captures(m, Some(w)))
  {
    var t := m + ";" + sp + [q] + "=" + w;
    var j := |t| - |w| - 2;
    assert t[..|m|] == m;
    assert t[j + 2..] == w;
    assert forall i :: |m| < i < j ==> IsSpace(t[i]) by {
      forall i | |m| < i < j
        ensures IsSpace(t[i])
      {
        assert t[i] == sp[i - |m| - 1];
      }
    }
    assert AcceptParse(t, |m|, Some(w));
    LongestSpaced(t, |m|, w);
  }

  /**
   * Without whitespace after the `;`, the weight is not split off: the whole piece is the media
   * range and the weight is 1.
   */
  lemma AcceptUnspacedWeight(m: string, w: string)
    requires IsMediaRange(m) && IsWeight(w)
    ensures MatchAccept(m + ";q=" + w) == Some(Captures(m + ";q=" + w, None))
    ensures EntryOf(Captures(m + ";q=" + w, None)).q == 1.0
  {
    var t := m + ";q=" + w;
    assert t[..|m|] == m;
    assert t[|m| + 3..] == w;
    assert AcceptParse(t, |m|, Some(w));
    LongestUnspaced(t, |m|, w);
  }

  /** A piece that starts with whitespace, as after `, `, never matches. */
  lemma AcceptLeadingSpace(t: string)
    requires |t| > 0 && IsSpace(t[0])
    ensures MatchAccept(t) == None
  {
  }

  /** A trailing comma leaves an empty last piece, so the header is rejected. */
  lemma AcceptTrailingComma(h: string)
    ensures !AllMatch(Split(h + ",", ','))
  {
    SplitTrailing(h, ',');
    var pieces := Split(h + ",", ',');
    assert pieces[|pieces| - 1] == [];
    assert MatchAccept(pieces[|pieces| - 1]) == None;
  }

  /** Weights above 1 pass the regex: `1.5` is read as 1.5. */
  lemma AcceptWeightAboveOne()
    ensures IsWeight("1.5") && WeightValue("1.5") == 1.5
  {
    assert "1.5"[2..] == "5";
    assert FractionValue("5"[1..]) == 0.0;
  }
}
