/**
 * `contentLength(header)` of lib/index.js.
 *
 * The whole header line must be `Content-Length:` in any case, optional whitespace, and one
 * or more ASCII digits up to the end (contentLengthRegex). The result is the decimal value of
 * those digits; leading zeros are allowed.
 */
module Lengths {
  import opened Results
  import opened Lexical
  import opened Decimal

  /** contentLengthRegex `/^Content-Length:\s*(\d+)$/i` matches `h` with its digits from `d` on. */
  predicate LengthParse(h: string, d: nat)
  {
    && 15 <= d < |h|
    && CiPrefixAt(h, 0, "content-length:")
    && AllSpace(h[15..d])
    && AllDigits(h[d..])
  }

  /** `contentLength(header)` */
  function ContentLength(h: string): (r: Result<nat>)
    ensures h == [] ==> r == Failure(MissingHeader(ContentLengthHeader))
    ensures h != [] && r.Failure? ==> r.error == MalformedLength
  {
    if h == [] then Failure(MissingHeader(ContentLengthHeader))
    else if !CiPrefixAt(h, 0, "content-length:") then Failure(MalformedLength)
    else
      var d := SpanFrom(h, 15, IsSpace);
      if d < |h| && AllDigits(h[d..]) then Success(NatValue(h[d..]))
      else Failure(MalformedLength)
  }

  /** An accepted line is one contentLengthRegex matches, and the length is the value of its digits. */
  lemma ContentLengthSound(h: string, n: nat)
    requires ContentLength(h) == Success(n)
    ensures exists d: nat :: LengthParse(h, d) && n == NatValue(h[d..])
  {
    var d := SpanFrom(h, 15, IsSpace);
    SpanFromRun(h, 15, IsSpace);
    AllSpaceSlice(h, 15, d);
    assert LengthParse(h, d);
  }

  /** Every line contentLengthRegex matches is accepted, with the value of its digits. */
  lemma ContentLengthComplete(h: string, d: nat)
    requires LengthParse(h, d)
    ensures ContentLength(h) == Success(NatValue(h[d..]))
  {
    AllSpaceSlice(h, 15, d);
    assert IsDigit(h[d..][0]);
    SpanFromStops(h, 15, IsSpace, d);
  }

  /** A non-empty header is rejected exactly when contentLengthRegex cannot match it. */
  lemma ContentLengthMalformed(h: string)
    requires h != []
    ensures ContentLength(h) == Failure(MalformedLength) <==> forall d: nat :: !LengthParse(h, d)
  {
    if exists d: nat :: LengthParse(h, d) {
      var d: nat :| LengthParse(h, d);
      ContentLengthComplete(h, d);
    } else if ContentLength(h).Success? {
      ContentLengthSound(h, ContentLength(h).value);
    }
  }

  /** `Content-Length: ` followed by digits is matched with the digits starting at 16. */
  lemma DigitsLine(ds: string)
    requires |ds| > 0 && AllDigits(ds)
    ensures LengthParse("Content-Length: " + ds, 16) && ("Content-Length: " + ds)[16..] == ds
  {
    var h := "Content-Length: " + ds;
    assert h[15..16] == " ";
    assert h[16..] == ds;
  }

  /** Writing a number after `Content-Length: ` and parsing the line gives the number back. */
  lemma ContentLengthRoundTrip(n: nat)
    ensures ContentLength("Content-Length: " + Digits(n)) == Success(n)
  {
    NatValueOfDigits(n);
    DigitsLine(Digits(n));
    ContentLengthComplete("Content-Length: " + Digits(n), 16);
  }

  /** Leading zeros are accepted and do not change the length. */
  lemma ContentLengthLeadingZero(ds: string)
    requires |ds| > 0 && AllDigits(ds)
    ensures ContentLength("Content-Length: 0" + ds) == ContentLength("Content-Length: " + ds)
  {
    assert "Content-Length: 0" + ds == "Content-Length: " + ("0" + ds);
    assert AllDigits("0" + ds) by {
      assert forall i :: 1 <= i < |ds| + 1 ==> ("0" + ds)[i] == ds[i - 1];
    }
    NatValueLeadingZero(ds);
    DigitsLine(ds);
    DigitsLine("0" + ds);
    ContentLengthComplete("Content-Length: " + ds, 16);
    ContentLengthComplete("Content-Length: " + ("0" + ds), 16);
  }
}
