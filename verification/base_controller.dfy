/**
 * The file-download handler of mica's `BaseController`: it answers a request
 * for a resource with a `ResourceRegion` (the bytes to stream), the response
 * headers and a status. The status depends on the User-Agent (200 OK for
 * Internet Explorer and Edge, 201 Created otherwise) unless a `Range` header
 * is present, which forces 206 Partial Content and selects the region from a
 * loosely parsed `bytes=` range (section 2.1 of RFC 7233). The file name is
 * sent in `Content-Disposition` both as `filename="…"` and as the extended
 * `filename*=utf-8''…` parameter of section 3.2 of RFC 5987.
 */
module BaseController {
  import opened Wrappers
  import opened JavaString
  import opened JavaLong
  import opened UriEncoding

  /** The `HttpStatus` values the handler can answer with. */
  datatype HttpStatus = Ok | Created | PartialContent {
    function Code(): int {
      match this
      case Ok => 200
      case Created => 201
      case PartialContent => 206
    }
  }

  /** The request headers the handler reads; `None` is a header the request does not carry. */
  datatype Request = Request(userAgent: Option<string>, range: Option<string>)

  /** A resource as the handler sees it: its length in bytes (`Resource.contentLength()`). */
  datatype Resource = Resource(contentLength: Int64)

  /** A `java.io.File`: its (normalised) path and the length of the file it names. */
  datatype File = File(path: string, length: Int64)

  /** `ResourceRegion(resource, position, count)`: `count` bytes of `resource` from `position` on. */
  datatype Region = Region(resource: Resource, position: Int64, count: Int64)

  /** `HttpHeaders`: each header name with its list of values. */
  type Headers = map<string, seq<string>>

  /** `ResponseEntity<ResourceRegion>`: body, headers and status. */
  datatype Response = Response(body: Region, headers: Headers, status: HttpStatus)

  /** The exceptions the handler lets escape instead of answering. */
  datatype DownloadError =
    | ArrayIndexOutOfBounds        // `rangeRange[0]` when the split produced no piece
    | NumberFormat(input: string)  // `Long.parseLong(input)` rejected its input

  const ContentTypeHeader: string := "Content-Type"
  const ContentDispositionHeader: string := "Content-Disposition"
  const ApplicationOctetStream: string := "application/octet-stream"
  const BytesPrefix: string := "bytes="
  const ExtendedFileNamePrefix: string := "filename*=utf-8''"
  const RedirectPrefix: string := "redirect:"

  // ---------------------------------------------------------------- redirect

  /** Strips the `redirect:` prefix from a view name, if it has one. */
  function RedirectTarget(view: string): Option<string> {
    if |view| >= |RedirectPrefix| && view[..|RedirectPrefix|] == RedirectPrefix
    then Some(view[|RedirectPrefix|..])
    else None
  }

  /** `redirect(url)`: the view name that makes Spring MVC redirect to `url`. */
  function Redirect(url: string): (view: string)
    ensures RedirectTarget(view) == Some(url)
  {
    RedirectPrefix + url
  }

  // ---------------------------------------------------------------- User-Agent

  /**
   * The status for a response without `Range`: 200 OK when the upper-cased
   * User-Agent contains MSIE, TRIDENT or EDGE, 201 Created otherwise; an
   * absent header counts as the empty string.
   */
  function UserAgentStatus(userAgent: Option<string>): (s: HttpStatus)
    ensures s == Ok || s == Created
  {
    var header := if userAgent.None? then "" else ToUpperCase(userAgent.value);
    if Contains(header, "MSIE") || Contains(header, "TRIDENT") || Contains(header, "EDGE") then Ok else Created
  }

  /** The classification is a case-insensitive search for the three browser tokens. */
  lemma UserAgentStatusMatchesTokens(userAgent: Option<string>)
    ensures UserAgentStatus(userAgent) == Ok <==>
      userAgent.Some? &&
      (OccursIgnoringCase(userAgent.value, "MSIE") ||
       OccursIgnoringCase(userAgent.value, "TRIDENT") ||
       OccursIgnoringCase(userAgent.value, "EDGE"))
    ensures userAgent.None? ==> UserAgentStatus(userAgent) == Created
  {
    if userAgent.Some? {
      ContainsUpperCaseIgnoresCase(userAgent.value, "MSIE");
      ContainsUpperCaseIgnoresCase(userAgent.value, "TRIDENT");
      ContainsUpperCaseIgnoresCase(userAgent.value, "EDGE");
    } else {
      assert !Contains("", "MSIE") && !Contains("", "TRIDENT") && !Contains("", "EDGE");
    }
  }

  /** Every token contains an E, so a User-Agent without `e` or `E` always gets 201 Created. */
  lemma UserAgentWithoutEIsCreated(userAgent: string)
    requires 'e' !in userAgent && 'E' !in userAgent
    ensures UserAgentStatus(Some(userAgent)) == Created
  {
    var u := ToUpperCase(userAgent);
    assert 'E' !in u by {
      forall k | 0 <= k < |u| ensures u[k] != 'E' {
        assert u[k] == UpperChar(userAgent[k]);
        assert userAgent[k] in userAgent;
      }
    }
    AbsentCharacter(u, "MSIE", 3);
    AbsentCharacter(u, "TRIDENT", 4);
    AbsentCharacter(u, "EDGE", 0);
  }

  // ---------------------------------------------------------------- Range

  /**
   * The region a `Range` header selects, or the exception the parse throws:
   * every `bytes=` is removed, the rest is split on `-` (trailing empty pieces
   * dropped), the first piece is the position, and a second piece, if any, is
   * the inclusive end, giving `count = end - position + 1` in `long`
   * arithmetic; without a second piece the count stays the full length.
   * Nothing is checked against the resource length.
   */
  function ParseRange(range: string, resource: Resource): (r: Result<Region, DownloadError>)
    ensures r.Success? ==> r.value.resource == resource && r.value.position >= 0
  {
    RangeBounds(Split(Replace(range, BytesPrefix, ""), '-'), resource)
  }

  /** The region the pieces of a split `Range` value select: a start, and an end when there is a second piece. */
  function RangeBounds(pieces: seq<string>, resource: Resource): (r: Result<Region, DownloadError>)
    ensures r.Success? ==> r.value.resource == resource && |pieces| >= 1 && ParseLong(pieces[0]) == Some(r.value.position)
  {
    if |pieces| == 0 then Failure(ArrayIndexOutOfBounds)
    else match ParseLong(pieces[0])
      case None => Failure(NumberFormat(pieces[0]))
      case Some(position) =>
        if |pieces| == 1 then Success(Region(resource, position, resource.contentLength))
        else match ParseLong(pieces[1])
          case None => Failure(NumberFormat(pieces[1]))
          case Some(end) => Success(Region(resource, position, Wrap64(end - position + 1)))
  }

  /** A string `Long.parseLong` accepts has no `b`, so `bytes=` cannot start inside it. */
  lemma ParsableHasNoB(s: string)
    requires ParseLong(s).Some?
    ensures 'b' !in s
  {
    forall k | 0 <= k < |s| ensures s[k] != 'b' {
    }
  }

  /** Removing `bytes=` stops at nothing in front of a piece that contains no `b`. */
  lemma {:induction false} ReplaceAfterPrefixWithoutB(x: string, y: string)
    requires 'b' !in x
    ensures Replace(x + y, BytesPrefix, "") == x + Replace(y, BytesPrefix, "")
    decreases |x|
  {
    if x != [] {
      var s := x + y;
      assert x[0] != 'b' by { assert x[0] in x; }
      assert s[1..] == x[1..] + y;
      ReplaceAfterPrefixWithoutB(x[1..], y);
      if |s| >= |BytesPrefix| {
        assert s[..|BytesPrefix|] != BytesPrefix by { assert s[..|BytesPrefix|][0] == x[0]; }
        assert Replace(s, BytesPrefix, "") == [s[0]] + Replace(s[1..], BytesPrefix, "");
      } else {
        assert Replace(y, BytesPrefix, "") == y;
        assert Replace(x[1..] + y, BytesPrefix, "") == x[1..] + y;
      }
      assert [x[0]] + x[1..] == x;
    } else {
      assert x + y == y;
    }
  }

  /** The leading `bytes=` is removed, and a following piece without `b` is kept as it is. */
  lemma StripBytesPrefix(x: string, y: string)
    requires 'b' !in x
    ensures Replace(BytesPrefix + x + y, BytesPrefix, "") == x + Replace(y, BytesPrefix, "")
  {
    assert BytesPrefix + x + y == BytesPrefix + (x + y);
    ReplaceLeading(BytesPrefix, x + y, "");
    ReplaceAfterPrefixWithoutB(x, y);
  }

  /** After the leading `bytes=` a piece without `b` survives the removal as it is. */
  lemma ReplaceBytesPrefix(x: string)
    requires 'b' !in x
    ensures Replace(BytesPrefix + x, BytesPrefix, "") == x
  {
    StripBytesPrefix(x, "");
    assert BytesPrefix + x + "" == BytesPrefix + x;
    assert x + "" == x;
  }

  /** Two parsed `long`s without `-` are non-negative, so `end - start + 1` only overflows for `0-9223372036854775807`. */
  lemma CountArithmetic(start: Int64, end: Int64)
    requires start >= 0 && end >= 0
    ensures !(start == 0 && end == MaxLong) ==> Wrap64(end - start + 1) == end - start + 1
    ensures start == 0 && end == MaxLong ==> Wrap64(end - start + 1) == MinLong
  {
  }

  /** Two or more pieces whose first two parse: the first is the position, the second the inclusive end. */
  lemma ParsedBounds(pieces: seq<string>, resource: Resource, start: Int64, end: Int64)
    requires |pieces| >= 2 && ParseLong(pieces[0]) == Some(start) && ParseLong(pieces[1]) == Some(end)
    ensures RangeBounds(pieces, resource) == Success(Region(resource, start, Wrap64(end - start + 1)))
  {
  }

  /** Two or more pieces whose first parses and whose second does not: the exception names the second. */
  lemma UnparsedEnd(pieces: seq<string>, resource: Resource)
    requires |pieces| >= 2 && ParseLong(pieces[0]).Some? && ParseLong(pieces[1]).None?
    ensures RangeBounds(pieces, resource) == Failure(NumberFormat(pieces[1]))
  {
  }

  /**
   * `bytes=A-B`: the position is A and the count B - A + 1, in `long`
   * arithmetic, with no check against the resource length or the order of A
   * and B; the one pair of non-negative bounds whose count overflows, A = 0
   * and B = 9223372036854775807 in any spelling (`bytes=0-9223372036854775807`,
   * `bytes=+0-9223372036854775807`, `bytes=000-9223372036854775807`, …),
   * yields the most negative `long`.
   */
  lemma ClosedRange(a: string, b: string, resource: Resource, start: Int64, end: Int64)
    requires '-' !in a && '-' !in b
    requires ParseLong(a) == Some(start) && ParseLong(b) == Some(end)
    ensures ParseRange(BytesPrefix + a + "-" + b, resource)
         == Success(Region(resource, start, Wrap64(end - start + 1)))
    ensures !(start == 0 && end == MaxLong) ==>
      ParseRange(BytesPrefix + a + "-" + b, resource) == Success(Region(resource, start, end - start + 1))
    ensures start == 0 && end == MaxLong ==>
      ParseRange(BytesPrefix + a + "-" + b, resource) == Success(Region(resource, 0, MinLong))
  {
    ClosedRangeRegion(a, b, resource, start, end);
    ClosedRangeCount(BytesPrefix + a + "-" + b, resource, start, end);
  }

  /** A range parsed to the wrapped count B - A + 1 yields B - A + 1 itself unless it overflows. */
  lemma ClosedRangeCount(range: string, resource: Resource, start: Int64, end: Int64)
    requires start >= 0 && end >= 0
    requires ParseRange(range, resource) == Success(Region(resource, start, Wrap64(end - start + 1)))
    ensures !(start == 0 && end == MaxLong) ==>
      ParseRange(range, resource) == Success(Region(resource, start, end - start + 1))
    ensures start == 0 && end == MaxLong ==>
      ParseRange(range, resource) == Success(Region(resource, 0, MinLong))
  {
    CountArithmetic(start, end);
  }

  /** The region of `bytes=A-B` before the count is simplified. */
  lemma ClosedRangeRegion(a: string, b: string, resource: Resource, start: Int64, end: Int64)
    requires '-' !in a && '-' !in b
    requires ParseLong(a) == Some(start) && ParseLong(b) == Some(end)
    ensures ParseRange(BytesPrefix + a + "-" + b, resource)
         == Success(Region(resource, start, Wrap64(end - start + 1)))
  {
    var pieces := Split(Replace(BytesPrefix + a + "-" + b, BytesPrefix, ""), '-');
    ParsableHasNoB(a);
    ParsableHasNoB(b);
    TwoPieces(a, b);
    ParsedBounds(pieces, resource, start, end);
  }

  /** `bytes=A-B` splits into exactly A and B. */
  lemma TwoPieces(a: string, b: string)
    requires '-' !in a && '-' !in b && 'b' !in a && 'b' !in b && b != []
    ensures Split(Replace(BytesPrefix + a + "-" + b, BytesPrefix, ""), '-') == [a, b]
  {
    var rest := a + ['-'] + b;
    assert BytesPrefix + a + "-" + b == BytesPrefix + rest;
    ReplaceBytesPrefix(rest);
    SplitTwo(a, '-', b);
  }

  /** The pieces of `bytes=A-B-C` begin with A and B, whatever C is. */
  lemma {:induction false} ThreePieces(a: string, b: string, c: string)
    requires '-' !in a && '-' !in b && 'b' !in a && 'b' !in b && b != []
    ensures var pieces := Split(Replace(BytesPrefix + a + "-" + b + "-" + c, BytesPrefix, ""), '-');
      |pieces| >= 2 && pieces[0] == a && pieces[1] == b
  {
    var front := a + ['-'] + b + ['-'];
    assert 'b' !in front;
    assert BytesPrefix + a + "-" + b + "-" + c == BytesPrefix + front + c;
    StripBytesPrefix(front, c);
    var c' := Replace(c, BytesPrefix, "");
    assert front + c' == a + ['-'] + b + ['-'] + c';
    SplitThree(a, '-', b, c');
  }

  /**
   * `bytes=A-B-…`: whatever follows a second `-` is ignored, as is a
   * multi-range list after the second piece; only the first two pieces are read.
   */
  lemma ExtraPiecesIgnored(a: string, b: string, c: string, resource: Resource, start: Int64, end: Int64)
    requires '-' !in a && '-' !in b
    requires ParseLong(a) == Some(start) && ParseLong(b) == Some(end)
    ensures ParseRange(BytesPrefix + a + "-" + b + "-" + c, resource)
         == Success(Region(resource, start, Wrap64(end - start + 1)))
  {
    var pieces := Split(Replace(BytesPrefix + a + "-" + b + "-" + c, BytesPrefix, ""), '-');
    ParsableHasNoB(a);
    ParsableHasNoB(b);
    ThreePieces(a, b, c);
    ParsedBounds(pieces, resource, start, end);
  }

  /**
   * `bytes=A-` and `bytes=A`: an open-ended range keeps the full content
   * length as the count (not the length minus A).
   */
  lemma {:induction false} OpenRange(a: string, resource: Resource, start: Int64)
    requires '-' !in a
    requires ParseLong(a) == Some(start)
    ensures ParseRange(BytesPrefix + a + "-", resource) == Success(Region(resource, start, resource.contentLength))
    ensures ParseRange(BytesPrefix + a, resource) == Success(Region(resource, start, resource.contentLength))
  {
    ParsableHasNoB(a);
    ReplaceBytesPrefix(a + "-");
    assert BytesPrefix + a + "-" == BytesPrefix + (a + "-");
    SplitTrailingSeparator(a, '-');
    ReplaceBytesPrefix(a);
    assert a != [];
  }

  /** A suffix range `bytes=-N` leaves an empty first piece, which `Long.parseLong` rejects. */
  lemma {:induction false} SuffixRangeFails(b: string, resource: Resource)
    requires b != [] && '-' !in b && 'b' !in b
    ensures ParseRange(BytesPrefix + "-" + b, resource) == Failure(NumberFormat(""))
  {
    ReplaceBytesPrefix("-" + b);
    assert BytesPrefix + "-" + b == BytesPrefix + ("-" + b);
    SplitTwo("", '-', b);
    assert [] + ['-'] + b == "-" + b;
  }

  /** `bytes=-` splits into nothing at all, and reading the first piece throws. */
  lemma DashOnlyFails(resource: Resource)
    ensures ParseRange(BytesPrefix + "-", resource) == Failure(ArrayIndexOutOfBounds)
  {
    ReplaceBytesPrefix("-");
    SplitTrailingSeparator("", '-');
    assert [] + ['-'] == "-";
  }

  /** An empty header, or a bare `bytes=`, leaves the single piece "" and fails to parse. */
  lemma EmptyRangeFails(resource: Resource)
    ensures ParseRange("", resource) == Failure(NumberFormat(""))
    ensures ParseRange(BytesPrefix, resource) == Failure(NumberFormat(""))
  {
    ReplaceBytesPrefix("");
    assert BytesPrefix + "" == BytesPrefix;
  }

  /** A second piece `Long.parseLong` rejects fails the whole request, whatever follows it. */
  lemma BadEndFails(a: string, b: string, c: string, resource: Resource)
    requires '-' !in a && '-' !in b && 'b' !in b && b != []
    requires ParseLong(a).Some? && ParseLong(b).None?
    ensures ParseRange(BytesPrefix + a + "-" + b + "-" + c, resource) == Failure(NumberFormat(b))
  {
    var pieces := Split(Replace(BytesPrefix + a + "-" + b + "-" + c, BytesPrefix, ""), '-');
    ParsableHasNoB(a);
    ThreePieces(a, b, c);
    UnparsedEnd(pieces, resource);
  }

  /** The multi-range `bytes=0-1,5-6` is read as position 0 and end "1,5", which does not parse. */
  lemma MultiRangeFails(resource: Resource)
    ensures ParseRange("bytes=0-1,5-6", resource) == Failure(NumberFormat("1,5"))
  {
    assert ParseLong("0") == Some(0);
    assert !AllDigits("1,5") by { assert !IsDigit("1,5"[1]); }
    assert "bytes=0-1,5-6" == BytesPrefix + "0" + "-" + "1,5" + "-" + "6";
    BadEndFails("0", "1,5", "6", resource);
  }


  // ---------------------------------------------------------------- headers

  /**
   * The `Content-Disposition` value: the same encoded name as `filename` and as
   * `filename*`. It opens with `attachment;filename="` and closes with the
   * extended parameter.
   */
  function DispositionValue(fileName: string): (d: string)
    ensures var head := "attachment;" + "filename=\"";
      |d| >= |head| && d[..|head|] == head
    ensures var tail := ExtendedFileNamePrefix + UriEncode(fileName);
      |d| >= |tail| && d[|d| - |tail|..] == tail
  {
    var encoded := UriEncode(fileName);
    var d := "attachment;" + "filename=\"" + encoded + "\";" + ExtendedFileNamePrefix + encoded;
    HeadAndTail("attachment;" + "filename=\"", encoded + "\";", ExtendedFileNamePrefix + encoded);
    d
  }

  /** A concatenation of three strings begins with the first and ends with the last. */
  lemma HeadAndTail(x: string, y: string, z: string)
    ensures var s := x + y + z; |s| >= |x| + |z| && s[..|x|] == x && s[|s| - |z|..] == z
  {
  }

  /** The headers of every answer: the octet-stream content type and the disposition. */
  function DownloadHeaders(fileName: string): (h: Headers)
    ensures h.Keys == {ContentTypeHeader, ContentDispositionHeader}
    ensures h[ContentTypeHeader] == [ApplicationOctetStream]
    ensures h[ContentDispositionHeader] == [DispositionValue(fileName)]
  {
    map[ContentTypeHeader := [ApplicationOctetStream], ContentDispositionHeader := [DispositionValue(fileName)]]
  }

  /** What a client reads from the `filename*` parameter: the name after decoding. */
  function ExtendedFileName(disposition: string): Option<string> {
    var params := Fields(disposition, ';');
    if |params| == 3 && params[0] == "attachment"
       && |params[2]| >= |ExtendedFileNamePrefix|
       && params[2][..|ExtendedFileNamePrefix|] == ExtendedFileNamePrefix
    then UriDecode(params[2][|ExtendedFileNamePrefix|..])
    else None
  }

  /** What a client reads from the quoted `filename` parameter, taken literally. */
  function QuotedFileName(disposition: string): Option<string> {
    var params := Fields(disposition, ';');
    var p := if |params| == 3 then params[1] else "";
    if |p| >= 11 && p[..10] == "filename=\"" && p[|p| - 1] == '"'
    then Some(p[10..|p| - 1])
    else None
  }

  /**
   * The disposition is well formed and carries the name: the encoded name has
   * no `;` or `"` to break the parameters, the quoted parameter holds the same
   * encoded text, and decoding `filename*` gives back exactly the file name.
   */
  lemma DispositionRoundTrip(fileName: string)
    ensures var encoded := UriEncode(fileName);
      ';' !in encoded && '"' !in encoded
    ensures ExtendedFileName(DispositionValue(fileName)) == Some(fileName)
    ensures QuotedFileName(DispositionValue(fileName)) == Some(UriEncode(fileName))
    ensures UriDecode(QuotedFileName(DispositionValue(fileName)).value) == Some(fileName)
  {
    var e := UriEncode(fileName);
    EncodedHasNoDelimiter(fileName);
    DispositionFields(fileName);
    var p1 := "filename=\"" + e + "\"";
    var p2 := ExtendedFileNamePrefix + e;
    assert p2[..|ExtendedFileNamePrefix|] == ExtendedFileNamePrefix;
    assert p2[|ExtendedFileNamePrefix|..] == e;
    assert p1[..10] == "filename=\"";
    assert p1[10..|p1| - 1] == e;
    UriRoundTrip(fileName);
  }

  /** Percent-encoding leaves neither a `;` nor a `"` in the name. */
  lemma EncodedHasNoDelimiter(fileName: string)
    ensures ';' !in UriEncode(fileName) && '"' !in UriEncode(fileName)
  {
    var e := UriEncode(fileName);
    forall k | 0 <= k < |e| ensures e[k] != ';' && e[k] != '"' {
      assert IsUnreserved(e[k]) || e[k] == '%';
    }
  }

  /** The disposition splits at `;` into exactly its three parameters. */
  lemma DispositionFields(fileName: string)
    ensures Fields(DispositionValue(fileName), ';')
         == ["attachment", "filename=\"" + UriEncode(fileName) + "\"", ExtendedFileNamePrefix + UriEncode(fileName)]
  {
    var e := UriEncode(fileName);
    EncodedHasNoDelimiter(fileName);
    var p1 := "filename=\"" + e + "\"";
    var p2 := ExtendedFileNamePrefix + e;
    assert "attachment;" == "attachment" + [';'];
    assert "\";" == "\"" + [';'];
    Regroup("attachment", "filename=\"", e, "\"", ExtendedFileNamePrefix, ';');
    assert ';' !in p1;
    assert ';' !in p2;
    FieldsOfThree("attachment", p1, p2, ';');
  }

  /** The disposition's pieces regrouped around its two separators. */
  lemma Regroup(a: string, f: string, e: string, q: string, x: string, sep: char)
    ensures (a + [sep]) + f + e + (q + [sep]) + x + e == a + [sep] + (f + e + q) + [sep] + (x + e)
  {
  }

  // ---------------------------------------------------------------- download

  /**
   * The answer `download(resource, fileName)` gives to `request`: without
   * `Range` the whole resource with the User-Agent's status; with `Range` the
   * parsed region and 206, or the exception the parse throws. The headers are
   * always the same two.
   */
  function DownloadSpec(request: Request, resource: Resource, fileName: string): (r: Result<Response, DownloadError>)
    ensures request.range.None? ==>
      r.Success? && r.value.body == Region(resource, 0, resource.contentLength)
      && r.value.status == UserAgentStatus(request.userAgent)
    ensures request.range.Some? ==> (r.Success? <==> ParseRange(request.range.value, resource).Success?)
    ensures r.Success? ==> (r.value.status == PartialContent <==> request.range.Some?)
    ensures r.Success? ==> r.value.status.Code() in {200, 201, 206}
    ensures r.Success? ==> r.value.headers == DownloadHeaders(fileName)
    ensures r.Success? ==> "Content-Range" !in r.value.headers && "Accept-Ranges" !in r.value.headers
  {
    match request.range
    case None =>
      Success(Response(Region(resource, 0, resource.contentLength), DownloadHeaders(fileName), UserAgentStatus(request.userAgent)))
    case Some(range) =>
      match ParseRange(range, resource)
      case Success(region) => Success(Response(region, DownloadHeaders(fileName), PartialContent))
      case Failure(e) => Failure(e)
  }

  /** With a `Range` header the User-Agent makes no difference to the answer. */
  lemma RangeIgnoresUserAgent(userAgent1: Option<string>, userAgent2: Option<string>, range: string, resource: Resource, fileName: string)
    ensures DownloadSpec(Request(userAgent1, Some(range)), resource, fileName)
         == DownloadSpec(Request(userAgent2, Some(range)), resource, fileName)
  {
  }

  /**
   * The parsing steps of `download` after `bytes=` is stripped and the rest
   * split at `-`: read the start and, when there is one, the end; a missing
   * end leaves the count at the resource's length. Kept apart from
   * `Download` so that each of the two proofs stays small.
   */
  method ReadBounds(rangeRange: seq<string>, resource: Resource) returns (r: Result<Region, DownloadError>)
    ensures r == RangeBounds(rangeRange, resource)
  {
    var position: Int64;
    var count: Int64 := resource.contentLength;
    if |rangeRange| == 0 {
      return Failure(ArrayIndexOutOfBounds);
    }
    var first := ParseLong(rangeRange[0]);
    if first.None? {
      return Failure(NumberFormat(rangeRange[0]));
    }
    position := first.value;
    if |rangeRange| > 1 {
      var end := ParseLong(rangeRange[1]);
      if end.None? {
        return Failure(NumberFormat(rangeRange[1]));
      }
      count := Wrap64(end.value - position + 1);
    }
    r := Success(Region(resource, position, count));
  }

  /**
   * `download(Resource, String)`, step by step: classify the User-Agent,
   * default the region to the whole resource, let a `Range` header force 206
   * and narrow the region, then fill the headers.
   */
  method Download(request: Request, resource: Resource, fileName: string) returns (r: Result<Response, DownloadError>)
    ensures r == DownloadSpec(request, resource, fileName)
  {
    var header := if request.userAgent.None? then "" else ToUpperCase(request.userAgent.value);
    var status := Created;
    if Contains(header, "MSIE") || Contains(header, "TRIDENT") || Contains(header, "EDGE") {
      status := Ok;
    }
    var region := Region(resource, 0, resource.contentLength);
    if request.range.Some? {
      status := PartialContent;
      var rangeRange := Split(Replace(request.range.value, BytesPrefix, ""), '-');
      var parsed := ReadBounds(rangeRange, resource);
      if parsed.Failure? {
        return Failure(parsed.error);
      }
      region := parsed.value;
    }
    var headers: Headers := map[];
    headers := headers[ContentTypeHeader := [ApplicationOctetStream]];
    var encodeFileName := UriEncode(fileName);
    var disposition := "attachment;" + "filename=\"" + encodeFileName + "\";" + ExtendedFileNamePrefix + encodeFileName;
    headers := headers[ContentDispositionHeader := [disposition]];
    assert headers == DownloadHeaders(fileName);
    r := Success(Response(region, headers, status));
  }

  /** `download(File, String)`: the file becomes a `FileSystemResource` whose length is the file's. */
  method DownloadFileAs(request: Request, file: File, fileName: string) returns (r: Result<Response, DownloadError>)
    ensures r == DownloadSpec(request, Resource(file.length), fileName)
  {
    var resource := Resource(file.length);
    r := Download(request, resource, fileName);
  }

  /** `File.getName()`: the last component of the (normalised) path, after its last `/`. */
  function FileName(path: string): (name: string)
    ensures '/' !in name
    ensures |name| <= |path| && path[|path| - |name|..] == name
    ensures |name| < |path| ==> path[|path| - |name| - 1] == '/'
  {
    if path == [] || path[|path| - 1] == '/' then []
    else FileName(path[..|path| - 1]) + [path[|path| - 1]]
  }

  /** `download(File)`: the file is offered under its own name. */
  method DownloadFile(request: Request, file: File) returns (r: Result<Response, DownloadError>)
    ensures r == DownloadSpec(request, Resource(file.length), FileName(file.path))
  {
    var fileName := FileName(file.path);
    r := DownloadFileAs(request, file, fileName);
  }

  // ---------------------------------------------------------------- scenarios

  /** `Long.parseLong` reads "500" and "699" as those numbers. */
  lemma PartialNumbers()
    ensures ParseLong("500") == Some(500) && ParseLong("699") == Some(699)
  {
    assert DecimalString(500) == "500" by {
      assert DecimalString(5) == "5";
      assert DecimalString(50) == "50";
    }
    assert DecimalString(699) == "699" by {
      assert DecimalString(6) == "6";
      assert DecimalString(69) == "69";
    }
    ParseDecimalString(500);
    ParseDecimalString(699);
  }

  /** `Long.parseLong` reads "1000" and "1010" as those numbers. */
  lemma PastEndNumbers()
    ensures ParseLong("1000") == Some(1000) && ParseLong("1010") == Some(1010)
  {
    assert DecimalString(1000) == "1000" by {
      assert DecimalString(1) == "1";
      assert DecimalString(10) == "10";
      assert DecimalString(100) == "100";
    }
    assert DecimalString(1010) == "1010" by {
      assert DecimalString(10) == "10";
      assert DecimalString(101) == "101";
    }
    ParseDecimalString(1000);
    ParseDecimalString(1010);
  }

  /** A `Range` header that parses yields 206, the parsed region and the usual headers. */
  lemma RangedDownload(userAgent: Option<string>, range: string, resource: Resource, fileName: string, region: Region)
    requires ParseRange(range, resource) == Success(region)
    ensures DownloadSpec(Request(userAgent, Some(range)), resource, fileName)
         == Success(Response(region, DownloadHeaders(fileName), PartialContent))
  {
  }

  /** The two `Range` values of the scenarios below, as a prefix and two pieces. */
  lemma ScenarioHeaders()
    ensures BytesPrefix + "500" + "-" + "699" == "bytes=500-699"
    ensures BytesPrefix + "1000" + "-" + "1010" == "bytes=1000-1010"
  {
  }

  /** Length 1000 and `Range: bytes=500-699`: 206 with the 200 bytes from 500 on. */
  lemma PartialScenario(userAgent: Option<string>, fileName: string)
    ensures DownloadSpec(Request(userAgent, Some("bytes=500-699")), Resource(1000), fileName)
         == Success(Response(Region(Resource(1000), 500, 200), DownloadHeaders(fileName), PartialContent))
  {
    PartialRange(Resource(1000));
    RangedDownload(userAgent, "bytes=500-699", Resource(1000), fileName, Region(Resource(1000), 500, 200));
  }

  /** `bytes=500-699` is the 200 bytes from 500 on, whatever the resource. */
  lemma PartialRange(resource: Resource)
    ensures ParseRange("bytes=500-699", resource) == Success(Region(resource, 500, 200))
  {
    PartialNumbers();
    ClosedRange("500", "699", resource, 500, 699);
    ScenarioHeaders();
  }

  /** Length 1000 and `Range: bytes=1000-1010`: nothing rejects the region past the end; it is answered with 206. */
  lemma PastEndScenario(userAgent: Option<string>, fileName: string)
    ensures DownloadSpec(Request(userAgent, Some("bytes=1000-1010")), Resource(1000), fileName)
         == Success(Response(Region(Resource(1000), 1000, 11), DownloadHeaders(fileName), PartialContent))
  {
    PastEndRange(Resource(1000));
    RangedDownload(userAgent, "bytes=1000-1010", Resource(1000), fileName, Region(Resource(1000), 1000, 11));
  }

  /** `bytes=1000-1010` is 11 bytes from 1000 on, whatever the resource's length. */
  lemma PastEndRange(resource: Resource)
    ensures ParseRange("bytes=1000-1010", resource) == Success(Region(resource, 1000, 11))
  {
    PastEndNumbers();
    ClosedRange("1000", "1010", resource, 1000, 1010);
    ScenarioHeaders();
  }

  /** Length 1000, no `Range` and an Edge User-Agent: the whole file with 200 OK. */
  lemma EdgeScenario(fileName: string)
    ensures DownloadSpec(Request(Some("Mozilla/5.0 Edge/18"), None), Resource(1000), fileName)
         == Success(Response(Region(Resource(1000), 0, 1000), DownloadHeaders(fileName), Ok))
  {
    var u := ToUpperCase("Mozilla/5.0 Edge/18");
    assert u[12..16] == "EDGE";
    assert OccursAt(u, "EDGE", 12);
  }
}
