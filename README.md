# HTTP header parsers, modelled in Dafny

This project models `lib/index.js`, a library of four stateless parsers for HTTP header values:

- `type` parses Content-Type into `{mime, charset?, boundary?}`.
- `contentLength` parses a whole `Content-Length: <digits>` line into a number.
- `accept` parses Accept into an ordered list of `{mime, q}`.
- `disposition` parses a `form-data` Content-Disposition into a key-to-value object.

Each parser either returns its value or throws one "bad request" error. Here every parser returns
a `Result`. A failure carries a `ParseError` kind, and `Results.Message` gives the text that the
library attaches to that kind.

The parsers are defined by seven regular expressions (lib/index.js:10-18, 96-97). Two of them,
the charset and boundary parameter expressions, share one shape and one recogniser. No regex engine is
modelled. Each expression has a hand-written recogniser over `string` that makes the same choices
JavaScript's backtracking makes: the leftmost position, greedy runs, and the first alternative
that works. Each recogniser is paired with a declarative predicate saying when the expression
*can* match. Lemmas connect the two:

- sound: what the recogniser reports is a match;
- complete: whenever a match exists, the recogniser reports one;
- chosen: among all matches, the recogniser reports the one JavaScript picks.

Files and modules:

- `results.dfy` (`Results`): `Option`, `Result`, the error kinds and their messages.
- `lexical.dfy` (`Lexical`): regex character classes, greedy runs (`SpanFrom`), ASCII case, and
  `split`/`join` on one separator.
- `decimal.dfy` (`Decimal`): `parseInt` of a digit string, and `parseFloat` of an Accept weight
  as an exact `real`.
- `uri_decoding.dfy` (`UriDecoding`): `decodeURIComponent`, and an encoder that serves as its
  partner.
- `media_types.dfy` (`MediaTypes`): `type`.
- `lengths.dfy` (`Lengths`): `contentLength`.
- `accepts.dfy` (`Accepts`): `accept`, written as a loop over the segments.
- `dispositions.dfy` (`Dispositions`): `disposition`. It is written as a loop that runs the global
  parameter regex and applies the callback to each match. That loop is proved equal to a
  functional specification, `DispositionSpec`.

Behaviour of the code that the model keeps, and proves, where it departs from what a reader of
the standards might expect:

- `multipart/form-data` with no parameter tail is accepted without a boundary
  (`MediaTypes.ContentTypeWithoutParams`). Only a non-empty tail without a boundary fails.
- `text/html;q=0.8`, with no whitespace after `;`, gives the media range `text/html;q=0.8` with
  weight 1 (`Accepts.AcceptUnspacedWeight`).
- The weight `1.5` is accepted (`Accepts.AcceptWeightAboveOne`).
- A segment that starts with whitespace, as after `", "`, is rejected.
- A key without `*` whose value has the extended shape `a'b'c` stores `""`
  (`Dispositions.InterpretExtendedUnstarred`, `Dispositions.UnstarredExtendedName`).
- A decoding failure of an extended value carries the same message as a `__proto__` name
  (`Dispositions.UndecodableName`, `Results.DispositionMessages`).
- `form-data; name=x ` (trailing space) matches no parameter at all, so it fails for lack of a
  name (`Dispositions.TrailingSpace`).
- `form-data; ` has parameters: `.+` takes back the last space, so the header fails for lack of a
  name, not of parameters (`Dispositions.SpaceOnlyParameters`).

## Model

| member | source | states |
|---|---|---|
| Results.Message | lib/index.js:23-148 | Every message starts with the word "Missing" or the word "Invalid", and with "Missing" exactly for an absent header other than Content-Type. |
| Results.ContentTypeMessages | lib/index.js:22-49 | An empty Content-Type and a malformed one carry the same message; a missing boundary carries a different one. |
| Results.DispositionMessages | lib/index.js:105-141 | An unsafe name and an undecodable extended value share one message; a missing parameter list does not share the malformed-header message. |
| Lexical.Split | lib/index.js:78 | `split` on one character always gives at least one piece. |
| Lexical.SplitPieces | lib/index.js:78 | No piece holds the separator. |
| Lexical.JoinSplit | lib/index.js:78 | Joining the pieces with the separator gives back the text. |
| Lexical.SplitJoin | lib/index.js:78 | Splitting a join of separator-free pieces gives back the pieces. |
| Lexical.SplitTrailing | lib/index.js:78 | A trailing separator adds exactly one empty piece. |
| Lexical.SplitConcat | lib/index.js:130 | Splitting at a separator splits each side on its own and concatenates the results. |
| Lexical.LowerAll | lib/index.js:32 | `toLowerCase` keeps the length, lowers each character, and leaves no upper-case letter. |
| Decimal.NatValue | lib/index.js:68 | `parseInt` of a digit string is 0 exactly when every digit is `0`. |
| Decimal.NatValueOfDigits | lib/index.js:68 | `parseInt` of the decimal digits of `n` is `n`. |
| Decimal.NatValueLeadingZero | lib/index.js:68 | A leading zero does not change the value `parseInt` gives. |
| Decimal.WeightValue | lib/index.js:85 | `parseFloat` of a weight matched by `[0-1](\.\d*)?` lies in [0, 2), and is below 1 exactly when the weight starts with `0`. |
| Decimal.FractionBounds | lib/index.js:85 | The digits after the point contribute less than 1. |
| Decimal.NatValueFront | lib/index.js:68 | Read from the front, the first of n digits weighs 10^(n-1): the decimal reading is the same from either end. |
| Decimal.FractionDigits | lib/index.js:85 | The digits after the point, `0.d1...dn`, are worth the whole number `d1...dn` over 10^n. |
| Decimal.WeightDigits | lib/index.js:85 | `parseFloat` of a weight is its digits read as a whole number, without the point, over ten to the number of digits after the point (`1.5` is 15 over 10). |
| UriDecoding.PercentDecode | lib/index.js:130 | `decodeURIComponent` never gives a longer text than it reads. |
| UriDecoding.PercentDecodePlain | lib/index.js:130 | `decodeURIComponent` leaves text without `%` unchanged. |
| UriDecoding.PercentDecodeAppend | lib/index.js:130 | After text that decodes, the rest is decoded on its own: the whole throws exactly when the rest throws, and otherwise decodes to the two results joined. |
| UriDecoding.PercentDecodeStray | lib/index.js:129-134 | A `%` not followed by two hex digits makes the decoder throw, after any text that decodes. |
| UriDecoding.PercentDecodeBadLead | lib/index.js:129-134 | An escaped continuation byte, or a byte from 0xF8 up, where a character must start makes the decoder throw. |
| UriDecoding.PercentDecodeBadSequence | lib/index.js:129-134 | A complete escaped byte sequence that is not well-formed UTF-8 (a bad continuation, an overlong form, a surrogate, or a code point above U+10FFFF) makes the decoder throw. |
| UriDecoding.PercentDecodeOverlong | lib/index.js:129-134 | `%C0%80`, the overlong form of U+0000, is refused. |
| UriDecoding.Utf8Decode | lib/index.js:130 | A decoded multi-byte sequence gives a character no smaller than the least code point its length allows, so overlong forms are refused. |
| UriDecoding.Utf8RoundTrip | lib/index.js:130 | The UTF-8 bytes of a character decode back to that character. |
| UriDecoding.PercentDecodeEncode | lib/index.js:130 | Decoding the percent-encoded UTF-8 of any text gives that text back. |
| UriDecoding.PercentEncodeChars | lib/index.js:130 | Encoded text consists only of `%` and hex digits, so it holds no quote. |
| MediaTypes.ContentTypeMatch | lib/index.js:10 | When contentTypeRegex matches, the first group and the tail together are the whole header. |
| MediaTypes.ContentTypeMatchSound | lib/index.js:10 | What the recogniser returns is a match of contentTypeRegex, split at the end of its first group. |
| MediaTypes.ContentTypeMatchLongest | lib/index.js:10 | Whenever contentTypeRegex can match, the recogniser matches, and its first group is the longest possible one. |
| MediaTypes.ParamAt | lib/index.js:11-12 | A captured parameter value is never empty. |
| MediaTypes.ValueAt | lib/index.js:11-12 | A captured charset or boundary value is never empty. |
| MediaTypes.ValueAtSound | lib/index.js:11-12 | A captured value is a quoted value or a maximal bare run at that position. |
| MediaTypes.ValueAtComplete | lib/index.js:11-12 | Every quoted value or maximal bare run at a position is what is captured there. |
| MediaTypes.ParamAtSound | lib/index.js:11-12 | A value found at position `i` is a match of `;\s*<name>=value` there. |
| MediaTypes.ParamAtComplete | lib/index.js:11-12 | Every match of the parameter regex at `i` is found, with the same value. |
| MediaTypes.FindParam | lib/index.js:37 | A value the search finds is not empty. |
| MediaTypes.FindParamNone | lib/index.js:37-38 | The search finds nothing exactly when the parameter regex matches at no position. |
| MediaTypes.FindParamLeftmost | lib/index.js:37-39 | The search returns the value at the leftmost position where the regex matches. |
| MediaTypes.ContentType | lib/index.js:21-55 | An empty header fails as a missing header. Failures are only the three Content-Type kinds. `mime` and `charset` are lower case. A boundary only comes with a `multipart/` type and is never empty. |
| MediaTypes.ContentTypeMalformed | lib/index.js:26-29 | A non-empty header is rejected as malformed exactly when contentTypeRegex cannot match it. |
| MediaTypes.ContentTypeMatchIs | lib/index.js:26-35 | The first group is the longest prefix contentTypeRegex can match as `type/subtype`, and the tail is the rest. |
| MediaTypes.ContentTypeWithoutParams | lib/index.js:35-36 | With an empty tail the result is the lower-cased type, with no charset and no boundary, even for `multipart/`. |
| MediaTypes.ContentTypeCharset | lib/index.js:31-40 | `mime` is the first group lower-cased; `charset` is the first charset parameter of the tail, lower-cased, or absent. |
| MediaTypes.ContentTypeMultipart | lib/index.js:42-50 | A `multipart/` type with a tail fails exactly when no boundary parameter matches; otherwise the boundary is the first one, with its case kept. |
| MediaTypes.ContentTypeNotMultipart | lib/index.js:42 | Any other type is accepted without a boundary. |
| Lengths.ContentLength | lib/index.js:58-66 | An empty header fails as a missing header; every other failure is a malformed length. |
| Lengths.ContentLengthSound | lib/index.js:63-68 | An accepted line matches contentLengthRegex, and the result is the value of its digits. |
| Lengths.ContentLengthComplete | lib/index.js:15 | Every line contentLengthRegex matches is accepted, with the value of its digits. |
| Lengths.ContentLengthMalformed | lib/index.js:63-66 | A non-empty line is rejected exactly when contentLengthRegex cannot match it (signs, fractions, trailing text). |
| Lengths.ContentLengthRoundTrip | lib/index.js:68 | Parsing `Content-Length: ` followed by the digits of `n` gives `n`. |
| Lengths.ContentLengthLeadingZero | lib/index.js:15 | A leading zero is accepted and does not change the length. |
| Accepts.MatchAccept | lib/index.js:18 | A captured weight has the shape `[0-1](\.\d*)?`. |
| Accepts.MatchAcceptSound | lib/index.js:18 | What the recogniser captures is a match of acceptHeaderRegex, and the media range is a prefix of the segment. |
| Accepts.MatchAcceptLongest | lib/index.js:18 | Whenever acceptHeaderRegex can match, the recogniser matches, with the longest media range. |
| Accepts.MatchAcceptComplete | lib/index.js:81-89 | A segment is rejected exactly when acceptHeaderRegex cannot match it. |
| Accepts.EntryOf | lib/index.js:83-86 | The entry's `mime` is lower case and as long as the range, and `q` lies in [0, 2). |
| Accepts.Accept | lib/index.js:72-93 | An empty header fails as missing. Otherwise the call succeeds exactly when every segment matches, and it then gives one entry per segment, in order. Any failure is the malformed-entry kind. |
| Accepts.AcceptSpacedWeight | lib/index.js:18 | A range, `;`, whitespace, `q=` in either case and a weight give that range and weight. |
| Accepts.AcceptUnspacedWeight | lib/index.js:18 | Without whitespace after `;` the whole segment is the range and the weight is 1. |
| Accepts.AcceptLeadingSpace | lib/index.js:78-81 | A segment that starts with whitespace never matches. |
| Accepts.AcceptTrailingComma | lib/index.js:78-89 | A trailing comma leaves an empty segment, so the header is rejected. |
| Accepts.AcceptWeightAboveOne | lib/index.js:18 | The weight `1.5` passes the regex and is read as 1.5. |
| Dispositions.MatchOuter | lib/index.js:96-105 | A match either has no parameter group, or its group is a non-empty suffix of the header without line terminators. |
| Dispositions.MatchAfterFormData | lib/index.js:96 | After `form-data`, either only whitespace remains, or whitespace, `;` and a group that the group rule accepts. |
| Dispositions.MatchGroup | lib/index.js:96 | The group is a non-empty suffix without line terminators, and only whitespace comes before it. |
| Dispositions.MatchOuterSound | lib/index.js:96 | What the outer recogniser reports is a match of contentDispositionRegex of the same kind. |
| Dispositions.MatchOuterComplete | lib/index.js:96 | Whenever contentDispositionRegex can match, the recogniser reports a match of the same kind, with the shortest group (it starts at the first non-whitespace character after `;`, or is the last whitespace character when nothing else follows). |
| Dispositions.MatchOuterNone | lib/index.js:105-108 | The header is malformed exactly when contentDispositionRegex cannot match it. |
| Dispositions.MatchOuterGroup | lib/index.js:96 | When the parameters start with a character that is not whitespace, the group starts there. |
| Dispositions.FormDataParams | lib/index.js:105-110 | The parameter text of `form-data; <p>` is `p`. |
| Dispositions.TerminatorAt | lib/index.js:97 | The terminator ends within the text, and it is empty only at the end of the text. |
| Dispositions.TerminatorSound | lib/index.js:97 | The terminator read is one the regex can read, after the longest leading whitespace. |
| Dispositions.TerminatorComplete | lib/index.js:97 | Whenever the regex can read a terminator, one is read, and it reaches at least as far. |
| Dispositions.ExtendedBounds | lib/index.js:97 | The charset, language and rest of an extended value are non-empty where required, and are separated by quotes. |
| Dispositions.ExtendedAt | lib/index.js:97 | An extended value read by the first alternative takes at least one character, ends within the text and is of the extended kind. |
| Dispositions.QuotedAt | lib/index.js:97 | A quoted value read by the second alternative takes at least one character, ends within the text and is of the quoted kind. |
| Dispositions.BareAt | lib/index.js:97 | A bare value read by the third alternative ends within the text and is of the bare kind. |
| Dispositions.ValueAt | lib/index.js:97 | A value read by one of the three alternatives ends within the text. |
| Dispositions.ExtendedSound | lib/index.js:97 | An extended value read is one the first alternative can read, followed by its terminator. |
| Dispositions.QuotedSound | lib/index.js:97 | A quoted value read is one the second alternative can read, followed by its terminator. |
| Dispositions.BareSound | lib/index.js:97 | A bare value read is one the third alternative can read, followed by its terminator. |
| Dispositions.ValueSound | lib/index.js:97 | The value read is one of the three alternatives, followed by its terminator. |
| Dispositions.ExtendedComplete | lib/index.js:97 | Whenever the first alternative can read a value, it is read as it is, with the longest terminator. |
| Dispositions.QuotedComplete | lib/index.js:97 | Whenever the second alternative can read a value, it is read as it is, with the longest terminator. |
| Dispositions.ValueComplete | lib/index.js:97 | Whenever an alternative can read a value, a value is read; a quoted or extended one is read as it is. |
| Dispositions.ParamMatchAt | lib/index.js:97 | A match starts where it is tried and ends after it, within the text. |
| Dispositions.ParamSound | lib/index.js:97 | Every match reported is one contentDispositionParamRegex can make there. |
| Dispositions.ParamComplete | lib/index.js:97 | Whenever the regex can match at a position, a match is reported there with the same key and `*`. |
| Dispositions.NextMatch | lib/index.js:116 | The next match of the global search starts at or after the search position and ends within the text. |
| Dispositions.Matches | lib/index.js:116 | The global search finds matches that lie within the text, in order and without overlap. |
| Dispositions.NextMatchNone | lib/index.js:116 | When the search finds nothing, no match starts at or after the search position. |
| Dispositions.NextMatchAt | lib/index.js:116 | The match found is the match at its start position. |
| Dispositions.NextMatchLeftmost | lib/index.js:116 | No match starts between the search position and the match found. |
| Dispositions.Interpret | lib/index.js:118-142 | A `__proto__` key throws; a `*` key without an extended value throws; `name` never gets the value `__proto__`; the callback throws only the two parameter errors. |
| Dispositions.ExtendedParts | lib/index.js:130 | Splitting an extended value at its quotes gives at least three pieces. |
| Dispositions.ExtendedRest | lib/index.js:130 | The third piece is the text after the language, up to its first quote. |
| Dispositions.InterpretEncoded | lib/index.js:124-135 | A `*` parameter whose value part is percent-encoded text stores that text. |
| Dispositions.InterpretExtendedUnstarred | lib/index.js:137 | A key without `*` whose value has the extended shape stores the empty string. |
| Dispositions.InterpretUndecodable | lib/index.js:124-134 | A `*` parameter whose value part, up to its first quote, does not decode is refused as a malformed extended value. |
| Dispositions.ApplyAll | lib/index.js:116-145 | The callbacks fail only with the two parameter errors, and on success every key of the starting object is kept. |
| Dispositions.ApplyAllSucceeds | lib/index.js:116-145 | The callbacks complete exactly when none of them throws. |
| Dispositions.ApplyAllFirstError | lib/index.js:116-145 | A failure is the error of the first callback that throws. |
| Dispositions.ApplyAllAssigns | lib/index.js:144 | Each key holds the value of the last match with that key; no other key changes. |
| Dispositions.ApplyAllFailsAt | lib/index.js:116-145 | When callback `k` is the first to throw, the callbacks fail with its error. |
| Dispositions.Finish | lib/index.js:116-151 | The last stage fails only with the two parameter errors or the missing-name error. |
| Dispositions.FinishAccepted | lib/index.js:144-151 | The matches are accepted exactly when no callback throws and the last `name` is non-empty; the object then holds exactly the keys of the matches, each with its last value. |
| Dispositions.FinishSafe | lib/index.js:118-149 | An accepted result has a non-empty `name` that is not `__proto__`, and no `__proto__` key. |
| Dispositions.FinishErrors | lib/index.js:116-149 | The last stage fails with a parameter error exactly when some callback throws; the missing-name error comes only when every callback succeeds. |
| Dispositions.DispositionSpec | lib/index.js:100-152 | `disposition` fails only with its six error kinds, and an accepted header always has a non-empty `name`. |
| Dispositions.Disposition | lib/index.js:100-152 | The loop over the global search gives the same result as the functional specification `DispositionSpec`. |
| Dispositions.DispositionSafe | lib/index.js:118-149 | An accepted header has a non-empty `name` that is not `__proto__`, and no `__proto__` key. |
| Dispositions.DispositionErrors | lib/index.js:101-148 | Each failure kind comes from exactly one stage: an empty header, an outer mismatch, missing parameters, a callback that throws (exactly when some callback fails), or a missing name (only when the outer match has parameters and every callback succeeds). |
| Dispositions.DispositionFailsAt | lib/index.js:116-145 | When callback `k` is the first to throw, the whole header is rejected with its error. |
| Dispositions.DispositionUndecodable | lib/index.js:124-134 | A header whose first refused parameter is a `*` parameter with an undecodable value part is rejected as a malformed extended value. |
| Dispositions.QuotedName | lib/index.js:100-152 | `form-data; name="<n>"` gives the object holding just that name. |
| Dispositions.BareName | lib/index.js:100-152 | `form-data; name=<t>` gives the object holding just that name. |
| Dispositions.BareNameMatches | lib/index.js:97 | `name=<t>` is read as one bare parameter that runs to the end. |
| Dispositions.TrailingSpaceNoMatch | lib/index.js:97 | In `name=<t> ` no match starts at any position. |
| Dispositions.UnstarredExtendedName | lib/index.js:97-148 | `form-data; name=a'b'c` reads the value by the extended alternative, stores an empty `name`, and is rejected for lack of a name. |
| Dispositions.UndecodableName | lib/index.js:124-134 | `form-data; name*=<cs>''%` is rejected as a malformed extended value. |
| Dispositions.TrailingSpace | lib/index.js:100-149 | `form-data; name=<t> ` is rejected for lack of a name. |
| Dispositions.SpaceOnlyParameters | lib/index.js:96-148 | In `form-data; ` the group is the last space, so the parameters are present, and the header is rejected for lack of a name rather than of parameters. |

## Left out

- Boom error objects (status code, payload) are not modelled. A failure is a `ParseError` kind, and `Results.Message` gives the text.
- Non-string and absent headers are not modelled. A falsy header is the empty string.
- `toLowerCase` is modelled for ASCII letters only. Other letters are left unchanged.
- `\s` is the full ECMAScript whitespace and line-terminator set. `\w` and the `/i` flag, without `u`, are ASCII as in JavaScript.
- `parseFloat` of a weight is an exact `real`, not an IEEE double.
- `parseInt` of the length is an unbounded `nat`. Precision loss above 2^53 is not modelled.
- Strings are sequences of Unicode scalar values, not UTF-16 code units. A four-byte UTF-8 sequence decodes to one character rather than a surrogate pair, and lone surrogates cannot occur.
- `String.prototype.replace` gathers every match before it runs the first callback. The model interprets each match as soon as it is found. This gives the same result, because matching reads only the parameter text. The replaced string itself is discarded by the code and is not modelled.
- test/esm.js only checks the module's exports and is not part of this model.
- Where the code departs from what a reader of RFC 7231, RFC 7578 and RFC 5987 might expect, the model follows the code:
  - A `multipart/` type without a parameter tail is accepted without a boundary.
  - A weight above 1 such as `1.5` is accepted.
  - An undecodable extended value fails with the "invalid parameters" message, not the malformed-header one.
  - An empty `name`, as well as a missing one, fails with the missing-name error.
  - The extended alternative is chosen by the value's shape, not by the `*` on the key.
