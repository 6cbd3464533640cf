# mica `BaseController` download, modelled in Dafny

This project models the file-download helpers of mica's `BaseController`:
`download(Resource, String)`, its two `File` overloads and `redirect(String)`.
For a request, `download` answers with three things:

- a `ResourceRegion`, the bytes to stream;
- the response headers;
- an HTTP status.

The status comes from the User-Agent header. A header that contains `MSIE`,
`TRIDENT` or `EDGE`, in any letter case, gives 200 OK; any other header, or
none, gives 201 Created.

A `Range` header always forces 206 Partial Content. The region is then read as
follows:

- every `bytes=` is removed from the value;
- the rest is split on `-` by Java's `String.split` rules;
- the first piece is the position;
- a second piece, if there is one, is the inclusive end, and the count is
  `end - position + 1` in 64-bit `long` arithmetic.

The headers are always the same two:

- `Content-Type: application/octet-stream`;
- a `Content-Disposition` that carries the UTF-8 percent-encoded file name
  twice, once as `filename="…"` and once as `filename*=utf-8''…` (section 3.2
  of RFC 5987).

The model is in five modules:

- `Wrappers` (`wrappers.dfy`): the `Option` and `Result` types the other
  modules share.
- `JavaString` (`java_string.dfy`): the `String` operations the handler relies
  on. These are ASCII `toUpperCase`, `contains`, `replace`, and `split` with a
  one-character separator and limit 0.
- `JavaLong` (`java_long.dfy`): the `long` range, two's-complement
  wrap-around and `Long.parseLong`.
- `UriEncoding` (`uri_encoding.dfy`): UTF-8 (RFC 3629) and the percent-encoding
  of `UriUtils.encode`, which keeps the unreserved set of section 2.3 of
  RFC 3986. It also has the decoding side a client applies.
- `BaseController` (`base_controller.dfy`): the handler itself.

`download` changes local variables step by step, so it is modelled as the
method `BaseController.Download`, with the method `ReadBounds` for the reading
of the range pieces. Each method is proved equal to a specification function,
`DownloadSpec` or `RangeBounds`. The properties of the handler are then proved
as lemmas about those functions.

A thrown exception is a `Failure` of type `DownloadError`:

- `ArrayIndexOutOfBounds` when the split yields no piece;
- `NumberFormat(input)` when `Long.parseLong` rejects a piece.

Some consequences of this handler:

- It never answers 416 and never sets `Content-Range` or `Accept-Ranges`
  (`DownloadSpec`).
- An open-ended `bytes=A-` keeps the full content length as the count
  (`OpenRange`).
- A region past the end of the resource is answered with 206 like any other
  (`PastEndScenario`).
- Suffix ranges `bytes=-N` and multi-range lists are not supported; they fail
  with `NumberFormat` (`SuffixRangeFails`, `MultiRangeFails`).
- The User-Agent status only matters when there is no `Range` header
  (`RangeIgnoresUserAgent`).

## Model

| member | source | states |
|---|---|---|
| BaseController.Redirect | mica-boot/src/main/java/net/dreamlu/mica/support/BaseController.java:52-54 | the view name is `redirect:` followed by the URL, and stripping that prefix gives the URL back |
| BaseController.UserAgentStatus | mica-boot/src/main/java/net/dreamlu/mica/support/BaseController.java:166-175 | the status chosen from the User-Agent is always 200 OK or 201 Created |
| BaseController.UserAgentStatusMatchesTokens | mica-boot/src/main/java/net/dreamlu/mica/support/BaseController.java:167-175 | 200 OK exactly when the header is present and contains MSIE, TRIDENT or EDGE in any letter case; a missing header gives 201 Created |
| BaseController.UserAgentWithoutEIsCreated | mica-boot/src/main/java/net/dreamlu/mica/support/BaseController.java:171-174 | a User-Agent without the letter e in either case always gets 201 Created, since every token contains an E |
| BaseController.ParseRange | mica-boot/src/main/java/net/dreamlu/mica/support/BaseController.java:182-187 | a parsed region always belongs to the requested resource and starts at a non-negative position |
| BaseController.RangeBounds | mica-boot/src/main/java/net/dreamlu/mica/support/BaseController.java:183-187 | a successful parse needs at least one piece, and its position is what `Long.parseLong` reads from the first piece |
| BaseController.ReadBounds | mica-boot/src/main/java/net/dreamlu/mica/support/BaseController.java:177-187 | the imperative position/count updates and early exceptions give exactly `RangeBounds` |
| BaseController.ClosedRange | mica-boot/src/main/java/net/dreamlu/mica/support/BaseController.java:182-186 | `bytes=A-B` gives position A and count B - A + 1 wrapped to a `long`, with no check against the length or the order of A and B; the count overflows only when A is 0 and B is 9223372036854775807, however they are spelled (`bytes=0-9223372036854775807`, `bytes=+0-…`, `bytes=000-…`), and then it is -9223372036854775808 |
| BaseController.ClosedRangeRegion | mica-boot/src/main/java/net/dreamlu/mica/support/BaseController.java:182-186 | `bytes=A-B` gives position A and count B - A + 1 wrapped to a `long` |
| BaseController.ClosedRangeCount | mica-boot/src/main/java/net/dreamlu/mica/support/BaseController.java:186 | a range parsed to the wrapped count B - A + 1, with non-negative bounds, has the exact count unless A is 0 and B is the largest `long`, where it has the smallest `long` |
| BaseController.CountArithmetic | mica-boot/src/main/java/net/dreamlu/mica/support/BaseController.java:186 | for non-negative bounds `end - position + 1` wraps only when position is 0 and end is the largest `long` |
| BaseController.ExtraPiecesIgnored | mica-boot/src/main/java/net/dreamlu/mica/support/BaseController.java:182-186 | in `bytes=A-B-C` everything after the second piece is ignored |
| BaseController.ParsedBounds | mica-boot/src/main/java/net/dreamlu/mica/support/BaseController.java:183-186 | when the first two pieces parse as A and B, the region has position A and count B - A + 1 wrapped to a `long`, whatever follows |
| BaseController.UnparsedEnd | mica-boot/src/main/java/net/dreamlu/mica/support/BaseController.java:183-185 | when the first piece parses and the second does not, the exception names the second piece |
| BaseController.OpenRange | mica-boot/src/main/java/net/dreamlu/mica/support/BaseController.java:178-184 | `bytes=A-` and `bytes=A` both give position A and the full content length as the count |
| BaseController.SuffixRangeFails | mica-boot/src/main/java/net/dreamlu/mica/support/BaseController.java:182-183 | a suffix range `bytes=-N` throws `NumberFormatException` on the empty first piece |
| BaseController.DashOnlyFails | mica-boot/src/main/java/net/dreamlu/mica/support/BaseController.java:182-183 | `bytes=-` splits into no pieces, and reading the first one throws `ArrayIndexOutOfBoundsException` |
| BaseController.EmptyRangeFails | mica-boot/src/main/java/net/dreamlu/mica/support/BaseController.java:182-183 | an empty `Range` value or a bare `bytes=` throws `NumberFormatException` on "" |
| BaseController.BadEndFails | mica-boot/src/main/java/net/dreamlu/mica/support/BaseController.java:184-185 | a second piece that does not parse fails the request with `NumberFormatException` on that piece |
| BaseController.MultiRangeFails | mica-boot/src/main/java/net/dreamlu/mica/support/BaseController.java:182-185 | the multi-range `bytes=0-1,5-6` fails on the end piece "1,5" |
| BaseController.ParsableHasNoB | mica-boot/src/main/java/net/dreamlu/mica/support/BaseController.java:182-183 | a piece `Long.parseLong` accepts contains no `b`, so removing `bytes=` cannot cut into it |
| BaseController.ReplaceAfterPrefixWithoutB | mica-boot/src/main/java/net/dreamlu/mica/support/BaseController.java:182 | removing `bytes=` leaves a leading stretch without `b` unchanged |
| BaseController.DispositionValue | mica-boot/src/main/java/net/dreamlu/mica/support/BaseController.java:194-196 | the value starts with `attachment;filename="` and ends with `filename*=utf-8''` followed by the encoded name; `DispositionFields` and `DispositionRoundTrip` show how a client reads it back |
| BaseController.DownloadHeaders | mica-boot/src/main/java/net/dreamlu/mica/support/BaseController.java:189-197 | exactly two headers: `Content-Type` with the single value `application/octet-stream`, and `Content-Disposition` with the single disposition value |
| BaseController.DispositionRoundTrip | mica-boot/src/main/java/net/dreamlu/mica/support/BaseController.java:191-196 | the encoded name contains no `;` or `"`; `filename` holds the encoded name; decoding `filename*` or the quoted value gives back exactly the file name |
| BaseController.DispositionFields | mica-boot/src/main/java/net/dreamlu/mica/support/BaseController.java:194-196 | the disposition splits at `;` into exactly `attachment`, the quoted parameter and the extended parameter |
| BaseController.EncodedHasNoDelimiter | mica-boot/src/main/java/net/dreamlu/mica/support/BaseController.java:191 | the encoded file name never contains `;` or `"` |
| BaseController.DownloadSpec | mica-boot/src/main/java/net/dreamlu/mica/support/BaseController.java:165-199 | without `Range`: success, the whole resource and the User-Agent status. With `Range`: success exactly when the range parses. The status is 206 exactly when `Range` is present and is always 200, 201 or 206. The headers are always `DownloadHeaders`, with no `Content-Range` or `Accept-Ranges` |
| BaseController.RangeIgnoresUserAgent | mica-boot/src/main/java/net/dreamlu/mica/support/BaseController.java:171-181 | with a `Range` header the answer is the same whatever the User-Agent |
| BaseController.Download | mica-boot/src/main/java/net/dreamlu/mica/support/BaseController.java:165-199 | the step-by-step handler returns exactly `DownloadSpec`: the same region, headers, status and exceptions |
| BaseController.RangedDownload | mica-boot/src/main/java/net/dreamlu/mica/support/BaseController.java:180-198 | a `Range` value that parses yields 206, the parsed region and the two standard headers |
| BaseController.DownloadFileAs | mica-boot/src/main/java/net/dreamlu/mica/support/BaseController.java:152-155 | a file is downloaded as a resource of the file's length, under the given name |
| BaseController.FileName | mica-boot/src/main/java/net/dreamlu/mica/support/BaseController.java:140 | the name has no `/`, is a suffix of the path, and is preceded by `/` when it is shorter than the path |
| BaseController.DownloadFile | mica-boot/src/main/java/net/dreamlu/mica/support/BaseController.java:139-142 | a file is downloaded under its own last path component |
| BaseController.PartialScenario | mica-boot/src/main/java/net/dreamlu/mica/support/BaseController.java:177-198 | a 1000-byte resource with `bytes=500-699` gives 206 and the 200 bytes from 500 |
| BaseController.PartialRange | mica-boot/src/main/java/net/dreamlu/mica/support/BaseController.java:182-186 | `bytes=500-699` selects position 500 and count 200 for any resource |
| BaseController.PastEndScenario | mica-boot/src/main/java/net/dreamlu/mica/support/BaseController.java:177-198 | a 1000-byte resource with `bytes=1000-1010` gives 206 with position 1000 and count 11; nothing rejects it |
| BaseController.PastEndRange | mica-boot/src/main/java/net/dreamlu/mica/support/BaseController.java:182-186 | `bytes=1000-1010` selects position 1000 and count 11 whatever the length |
| BaseController.EdgeScenario | mica-boot/src/main/java/net/dreamlu/mica/support/BaseController.java:169-178 | an Edge User-Agent with no `Range` gives 200 OK and the whole resource |
| JavaString.ToUpperCase | mica-boot/src/main/java/net/dreamlu/mica/support/BaseController.java:169 | the result equals the input up to letter case and has no lower-case ASCII letter; `ContainsUpperCaseIgnoresCase` relates the search in it to a case-insensitive search |
| JavaString.Contains | mica-boot/src/main/java/net/dreamlu/mica/support/BaseController.java:171 | `contains` is true exactly when the word occurs at some index |
| JavaString.ContainsUpperCaseIgnoresCase | mica-boot/src/main/java/net/dreamlu/mica/support/BaseController.java:169-171 | for an upper-case word, searching the upper-cased header is the same as a case-insensitive search of the original |
| JavaString.AbsentCharacter | mica-boot/src/main/java/net/dreamlu/mica/support/BaseController.java:171 | a word with a character the string lacks does not occur in it |
| JavaString.Replace | mica-boot/src/main/java/net/dreamlu/mica/support/BaseController.java:182 | removing a non-empty target never lengthens the string and keeps only characters of the input; for a non-empty target, `ReplaceWithoutOccurrence` and `ReplaceFirstOccurrence` together fix the result of the left-to-right, non-overlapping scan |
| JavaString.ReplaceWithoutOccurrence | mica-boot/src/main/java/net/dreamlu/mica/support/BaseController.java:182 | `replace` leaves a string without the target unchanged |
| JavaString.ReplaceFirstOccurrence | mica-boot/src/main/java/net/dreamlu/mica/support/BaseController.java:182 | when the text `x` before an occurrence holds no occurrence, even one overlapping the target, the result is `x`, the replacement, then the replaced rest: the first occurrence from the left is replaced and the scan resumes after it (e.g. `bbytes=5-6` becomes `b5-6`) |
| JavaString.ReplaceSkip | mica-boot/src/main/java/net/dreamlu/mica/support/BaseController.java:182 | a first character that does not start an occurrence is kept, and the scan moves on by one |
| JavaString.ReplaceLeading | mica-boot/src/main/java/net/dreamlu/mica/support/BaseController.java:182 | a leading target is replaced, and the scan resumes right after it |
| JavaString.Fields | mica-boot/src/main/java/net/dreamlu/mica/support/BaseController.java:182 | there is always at least one field, and no field contains the separator |
| JavaString.JoinFields | mica-boot/src/main/java/net/dreamlu/mica/support/BaseController.java:182 | joining the fields with the separator gives the string back |
| JavaString.FieldsWithoutSeparator | mica-boot/src/main/java/net/dreamlu/mica/support/BaseController.java:182 | a string without the separator is a single field |
| JavaString.FieldsAfterSeparator | mica-boot/src/main/java/net/dreamlu/mica/support/BaseController.java:182 | a separator-free prefix followed by the separator is the first field |
| JavaString.FieldsOfThree | mica-boot/src/main/java/net/dreamlu/mica/support/BaseController.java:194-196 | three separator-free parts joined by the separator split back into exactly those parts |
| JavaString.DropTrailingEmpty | mica-boot/src/main/java/net/dreamlu/mica/support/BaseController.java:182 | the result is a prefix of the input, its last element is non-empty, and every element dropped is empty |
| JavaString.Split | mica-boot/src/main/java/net/dreamlu/mica/support/BaseController.java:182 | no piece contains the separator; when the separator occurs, the last piece is non-empty |
| JavaString.SplitJoin | mica-boot/src/main/java/net/dreamlu/mica/support/BaseController.java:182 | the string is the joined pieces followed by separators only, or only separators when no piece is returned |
| JavaString.JoinAppend | mica-boot/src/main/java/net/dreamlu/mica/support/BaseController.java:182 | joining two lists of pieces puts one separator between their joins |
| JavaString.JoinEmpties | mica-boot/src/main/java/net/dreamlu/mica/support/BaseController.java:182 | joining only empty pieces yields only separators |
| JavaString.JoinDroppedEmpties | mica-boot/src/main/java/net/dreamlu/mica/support/BaseController.java:182 | dropping trailing empty pieces removes only separators from the end of the join |
| JavaString.SplitTwo | mica-boot/src/main/java/net/dreamlu/mica/support/BaseController.java:182 | `a-b` with separator-free parts and non-empty `b` splits into exactly `[a, b]` |
| JavaString.SplitTrailingSeparator | mica-boot/src/main/java/net/dreamlu/mica/support/BaseController.java:182 | `a-` splits into `[a]`, or into nothing when `a` is empty |
| JavaString.SplitThree | mica-boot/src/main/java/net/dreamlu/mica/support/BaseController.java:182 | `a-b-c` splits into pieces that begin with `a` and `b`, whatever `c` is |
| JavaLong.Wrap64 | mica-boot/src/main/java/net/dreamlu/mica/support/BaseController.java:186 | the result is a `long` congruent to the exact value modulo 2^64, and equal to it when it is in range |
| JavaLong.ParseLong | mica-boot/src/main/java/net/dreamlu/mica/support/BaseController.java:183-185 | an accepted string is an optional sign followed by digits, and without `-` its value is non-negative |
| JavaLong.DecimalString | mica-boot/src/main/java/net/dreamlu/mica/support/BaseController.java:183-185 | the decimal form of a number is non-empty and made of digits only |
| JavaLong.DecimalStringValue | mica-boot/src/main/java/net/dreamlu/mica/support/BaseController.java:183-185 | the digits of the decimal form denote the number |
| JavaLong.ParseDecimalString | mica-boot/src/main/java/net/dreamlu/mica/support/BaseController.java:183-185 | a decimal string parses to its value exactly when that value fits in a `long`, and is rejected otherwise |
| JavaLong.ParsePlusDecimalString | mica-boot/src/main/java/net/dreamlu/mica/support/BaseController.java:183-185 | a leading `+` is accepted and changes nothing |
| JavaLong.ParseMinusDecimalString | mica-boot/src/main/java/net/dreamlu/mica/support/BaseController.java:183-185 | a leading `-` negates, and the negative range reaches one further than the positive one |
| JavaLong.ParseLongRejectsNoDigits | mica-boot/src/main/java/net/dreamlu/mica/support/BaseController.java:183-185 | the empty string and a lone `+` or `-` are rejected |
| UriEncoding.Utf8Char | mica-boot/src/main/java/net/dreamlu/mica/support/BaseController.java:191 | one character takes between one and four UTF-8 octets |
| UriEncoding.DecodeFirst | mica-boot/src/main/java/net/dreamlu/mica/support/BaseController.java:191 | a decoded character consumes at least one octet and no more than are available |
| UriEncoding.DecodeFirstUtf8Char | mica-boot/src/main/java/net/dreamlu/mica/support/BaseController.java:191 | the octets of a character decode back to that character and its length, whatever follows |
| UriEncoding.Utf8RoundTrip | mica-boot/src/main/java/net/dreamlu/mica/support/BaseController.java:191 | UTF-8 decoding undoes UTF-8 encoding |
| UriEncoding.HexValue | mica-boot/src/main/java/net/dreamlu/mica/support/BaseController.java:191 | a hexadecimal digit of either case has a value below 16 |
| UriEncoding.PercentEncode | mica-boot/src/main/java/net/dreamlu/mica/support/BaseController.java:191 | the output contains only unreserved characters and `%` |
| UriEncoding.DecodeEncodedByte | mica-boot/src/main/java/net/dreamlu/mica/support/BaseController.java:191 | decoding the encoding of one octet gives that octet back, whatever follows |
| UriEncoding.PercentRoundTrip | mica-boot/src/main/java/net/dreamlu/mica/support/BaseController.java:191 | percent-decoding undoes percent-encoding |
| UriEncoding.UriEncode | mica-boot/src/main/java/net/dreamlu/mica/support/BaseController.java:191 | the encoding holds only unreserved characters and `%`; `UriRoundTrip` recovers the name from it and `UriEncodeUnreserved` shows unreserved names are unchanged |
| UriEncoding.UriRoundTrip | mica-boot/src/main/java/net/dreamlu/mica/support/BaseController.java:191 | every file name, including spaces and non-ASCII characters, is recovered exactly from its encoding |
| UriEncoding.UriEncodeInjective | mica-boot/src/main/java/net/dreamlu/mica/support/BaseController.java:191 | distinct file names have distinct encodings |
| UriEncoding.UriEncodeUnreserved | mica-boot/src/main/java/net/dreamlu/mica/support/BaseController.java:191 | a name made only of unreserved characters is left unchanged |

## Left out

- `WebUtil.getRequest()` and `request.getHeader(…)` (lines 166-167, 179) are not modelled. The two headers the handler reads are passed in as a `Request` value, where `None` stands for a missing header.
- `Resource.contentLength()` is taken as a field of `Resource`. The `IOException` it may throw, and all streaming of the region's bytes, are I/O and are not modelled.
- The checks in the `ResourceRegion` constructor, which is Spring code and not part of this model, are left out. A negative position or count is carried in the `Region` as computed, e.g. the count of `bytes=5-2`, or the wrapped count of `bytes=0-9223372036854775807`.
- `FileSystemResource` is modelled only by its length (line 153). Path normalisation in `java.io.File` is not modelled; `FileName` takes the path as already normalised and uses `/` as the only separator.
- JavaString.ToUpperCase: maps `a`–`z` to `A`–`Z` and leaves every other character alone, which is Java's `toUpperCase` only under a default locale where `i` becomes `I`. Under a Turkish or Azerbaijani default locale `i` becomes `İ`, so a header such as `msie` or `trident` becomes `MSİE` or `TRİDENT`, misses the tokens, and Java answers 201 where the model answers 200; that locale is not modelled. The non-ASCII letters that upper-case to ASCII, such as the dotless `ı` and the long `ſ`, are not followed either.
- JavaLong.ParseLong: accepts ASCII digits only. `Character.digit` also accepts other Unicode decimal digits.
- UriEncoding.Utf8Encode: takes a string of Unicode scalar values. A Java string with an unpaired surrogate, which `getBytes(UTF_8)` replaces with `?`, cannot be expressed.
- Header names in `HttpHeaders` are case-insensitive; here they are exact map keys, which does not matter for the two fixed names set.
- The result helpers `success`, `status` and `fail` (lines 61-130) only delegate to the `R` type, which is not part of this model. `MicaConverter` and `AuthToken` are context files with no role in downloading.
