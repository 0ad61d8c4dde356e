/** What a presigned signature binds: requests with the same signature mean the same. */
module PresignBinding {
  import opened Base
  import opened Text
  import opened CanonicalQuery
  import opened Presign

  /** A request with the credentials that came with it. */
  datatype Request = Request(verb: Bytes, uri: Bytes, query: Bytes, headers: Headers, parsed: ParsedAuth, timestamp: Bytes)

  predicate Accepted(c: Crypto, r: Request, secret: Bytes) {
    Accepts(c, r.verb, r.uri, r.query, r.headers, r.parsed, r.timestamp, secret)
  }

  function Filtered(query: Bytes): Bytes {
    Join(Unsigned(Split(query, '&')), '&')
  }

  function RequestText(c: Crypto, r: Request): Bytes {
    CanonicalRequest(r.verb, CanonicalUri(c.lossy, r.uri), Canonical(c.lossy, Filtered(r.query)),
                     HeaderLines(r.headers, r.parsed.signedHeaders), Join(r.parsed.signedHeaders, ';'))
  }

  function SignedText(c: Crypto, r: Request): Bytes {
    StringToSign(c, RequestText(c, r), r.timestamp, r.parsed.date, r.parsed.region)
  }

  /**
   HTTP allows no line feed in a method, a header or a query string, of which the signed header names are a part;
   and those were separated by semicolons.
   */
  ghost predicate Transmissible(r: Request) {
    && Free(r.verb, '\n') && r.parsed.signedHeaders != []
    && AllFree(r.parsed.signedHeaders, '\n') && AllFree(r.parsed.signedHeaders, ';')
    && forall name :: name in r.headers ==> AllFree(r.headers[name], '\n')
  }

  // ---------------------------------------------------------------- what a path means

  function PathOf(uri: Bytes): Bytes {
    var path := Split(uri, '?')[0];
    if path == [] then SLASH else path
  }

  function DecodeSegments(lossy: Bytes -> Bytes, segments: seq<Bytes>): (r: seq<Bytes>)
    ensures |r| == |segments| && forall i :: 0 <= i < |r| ==> r[i] == lossy(Decode(segments[i]))
  {
    if segments == [] then [] else [lossy(Decode(segments[0]))] + DecodeSegments(lossy, segments[1..])
  }

  /** The segments of a path, decoded. */
  function DecodedPath(lossy: Bytes -> Bytes, uri: Bytes): (r: seq<Bytes>)
    ensures r != []
  {
    DecodeSegments(lossy, Split(PathOf(uri), '/'))
  }

  lemma RecodedIsEncoded(lossy: Bytes -> Bytes, segments: seq<Bytes>)
    ensures RecodeAll(lossy, segments) == EncodeSegments(DecodeSegments(lossy, segments))
  {
    hide Encode, Decode;
    var a, b := RecodeAll(lossy, segments), EncodeSegments(DecodeSegments(lossy, segments));
    assert forall i :: 0 <= i < |a| ==> a[i] == Recode(lossy, segments[i]) == b[i];
  }

  lemma RootPath(lossy: Bytes -> Bytes)
    requires IsLossy(lossy)
    ensures Join(EncodeSegments(DecodeSegments(lossy, Split(SLASH, '/'))), '/') == SLASH
  {
    var none: Bytes := [];
    assert IsAscii(none) && lossy(none) == none;
    FindAt(none, '/', none);
    assert none + ['/'] + none == SLASH;
    FindNone(none, '/');
    assert Split(none, '/') == [none];
    assert Split(SLASH, '/') == [none, none];
    assert DecodeSegments(lossy, [none, none]) == [none, none];
    assert EncodeSegments([none, none]) == [none, none];
    assert [none, none][1..] == [none];
  }

  lemma UriIsEncodedPath(lossy: Bytes -> Bytes, uri: Bytes)
    requires IsLossy(lossy)
    ensures CanonicalUri(lossy, uri) == Join(EncodeSegments(DecodedPath(lossy, uri)), '/')
  {
    hide Split, Join, EncodeSegments, DecodeSegments, RecodeAll, IsLossy;
    RecodedIsEncoded(lossy, Split(PathOf(uri), '/'));
    RootPath(lossy);
  }

  lemma EncodedFree(s: Bytes, other: Octet)
    requires !Clean(other)
    ensures Free(Encode(s), other)
  {
    hide Encode;
    EncodeIsClean(s);
  }

  lemma {:induction false} EncodedSegmentsFree(segments: seq<Bytes>, other: Octet)
    requires !Clean(other)
    ensures AllFree(EncodeSegments(segments), other)
  {
    hide Encode, Free;
    forall i | 0 <= i < |segments| ensures Free(EncodeSegments(segments)[i], other) {
      EncodedFree(segments[i], other);
    }
  }

  lemma EncodeSegmentsInjective(a: seq<Bytes>, b: seq<Bytes>)
    requires EncodeSegments(a) == EncodeSegments(b)
    ensures a == b
  {
    hide Encode;
    assert |a| == |b|;
    forall i | 0 <= i < |a| ensures a[i] == b[i] {
      assert EncodeSegments(a)[i] == EncodeSegments(b)[i];
      EncodeInjective(a[i], b[i]);
    }
  }

  /** Two paths are signed alike iff they decode to the same segments. */
  lemma SameUriIff(lossy: Bytes -> Bytes, u: Bytes, v: Bytes)
    requires IsLossy(lossy)
    ensures CanonicalUri(lossy, u) == CanonicalUri(lossy, v) <==> DecodedPath(lossy, u) == DecodedPath(lossy, v)
    ensures Free(CanonicalUri(lossy, u), '\n')
  {
    var a, b := DecodedPath(lossy, u), DecodedPath(lossy, v);
    UriIsEncodedPath(lossy, u);
    UriIsEncodedPath(lossy, v);
    hide CanonicalUri, DecodedPath, Join, Split, EncodeSegments, IsLossy, AllFree, Free;
    EncodedSegmentsFree(a, '/');
    EncodedSegmentsFree(b, '/');
    EncodedSegmentsFree(a, '\n');
    JoinFree(EncodeSegments(a), '/', '\n');
    if CanonicalUri(lossy, u) == CanonicalUri(lossy, v) {
      SplitJoin(EncodeSegments(a), '/');
      SplitJoin(EncodeSegments(b), '/');
      EncodeSegmentsInjective(a, b);
    }
  }

  lemma QueryFree(lossy: Bytes -> Bytes, query: Bytes)
    ensures Free(Canonical(lossy, query), '\n')
  {
    CanonicalIsRender(lossy, query);
    var ps := Sort(Pairs(lossy, query));
    hide Canonical, Sort, Pairs, Free, RenderPair;
    forall i | 0 <= i < |ps| ensures Free(RenderAll(ps)[i], '\n') {
      PairFree(ps[i]);
    }
    JoinFree(RenderAll(ps), '&', '\n');
  }

  lemma PairFree(p: Pair)
    ensures Free(RenderPair(p), '\n')
  {
    hide Encode;
    EncodedFree(p.key, '\n');
    EncodedFree(p.value, '\n');
  }

  // ---------------------------------------------------------------- taking the signed text apart

  lemma FirstField(a: Bytes, rest: Bytes, b: Bytes, other: Bytes)
    requires Free(a, '\n') && Free(b, '\n') && a + NEWLINE + rest == b + NEWLINE + other
    ensures a == b && rest == other
  {
    hide Find;
    FindAt(a, '\n', rest);
    FindAt(b, '\n', other);
  }

  lemma LastField(a: Bytes, rest: Bytes, b: Bytes, other: Bytes)
    requires Free(rest, '\n') && Free(other, '\n') && a + NEWLINE + rest == b + NEWLINE + other
    ensures a == b && rest == other
  {
    var s := a + NEWLINE + rest;
    assert s[|a|] == '\n' && s[|b|] == '\n';
    assert forall j {:trigger s[j]} :: |a| < j < |s| ==> s[j] == rest[j - |a| - 1];
    assert forall j {:trigger s[j]} :: |b| < j < |s| ==> s[j] == other[j - |b| - 1];
    assert a == s[..|a|] && rest == s[|a| + 1..];
    assert b == s[..|b|] && other == s[|b| + 1..];
  }

  lemma SameSuffix(a: Bytes, b: Bytes, suffix: Bytes, other: Bytes)
    requires a + suffix == b + other && |suffix| == |other|
    ensures a == b && suffix == other
  {
    assert a == (a + suffix)[..|a|] && b == (b + other)[..|b|];
    assert suffix == (a + suffix)[|a|..] && other == (b + other)[|b|..];
  }

  lemma RequestParts(verb: Bytes, uri: Bytes, query: Bytes, headers: Bytes, names: Bytes)
    ensures CanonicalRequest(verb, uri, query, headers, names) ==
            verb + NEWLINE + (uri + NEWLINE + (query + NEWLINE + (headers + NEWLINE + names + (NEWLINE + UNSIGNED_PAYLOAD))))
  {
    var tail := NEWLINE + UNSIGNED_PAYLOAD;
    hide NEWLINE, UNSIGNED_PAYLOAD;
    Regroup(verb + NEWLINE + uri + NEWLINE + query + NEWLINE, headers + NEWLINE + names, tail);
    Regroup(verb + NEWLINE + uri + NEWLINE + query + NEWLINE, headers, NEWLINE + names);
    Regroup(verb + NEWLINE + uri + NEWLINE, query + NEWLINE, headers + NEWLINE + names + tail);
    Regroup(verb + NEWLINE, uri + NEWLINE, query + NEWLINE + (headers + NEWLINE + names + tail));
    assert CanonicalRequest(verb, uri, query, headers, names) ==
           (verb + NEWLINE + uri + NEWLINE + query + NEWLINE) + (headers + NEWLINE + names) + tail;
  }

  lemma RequestInjective(v: Bytes, u: Bytes, q: Bytes, h: Bytes, n: Bytes, v': Bytes, u': Bytes, q': Bytes, h': Bytes, n': Bytes)
    requires CanonicalRequest(v, u, q, h, n) == CanonicalRequest(v', u', q', h', n')
    requires Free(v, '\n') && Free(u, '\n') && Free(q, '\n') && Free(n, '\n')
    requires Free(v', '\n') && Free(u', '\n') && Free(q', '\n') && Free(n', '\n')
    ensures v == v' && u == u' && q == q' && h == h' && n == n'
  {
    RequestParts(v, u, q, h, n);
    RequestParts(v', u', q', h', n');
    var tail := NEWLINE + UNSIGNED_PAYLOAD;
    var a, a' := h + NEWLINE + n, h' + NEWLINE + n';
    var b, b' := q + NEWLINE + (a + tail), q' + NEWLINE + (a' + tail);
    hide NEWLINE, UNSIGNED_PAYLOAD, CanonicalRequest, Free;
    FirstField(v, u + NEWLINE + b, v', u' + NEWLINE + b');
    FirstField(u, b, u', b');
    FirstField(q, a + tail, q', a' + tail);
    SameSuffix(a, a', tail, tail);
    LastField(h, n, h', n');
  }

  lemma {:induction false} HexInjective(a: Bytes, b: Bytes)
    requires Hex(a) == Hex(b)
    ensures a == b
  {
    HexLength(a);
    HexLength(b);
    if a != [] {
      var s, t := Hex(a), Hex(b);
      assert s[0] == t[0] && s[1] == t[1] && s[2..] == Hex(a[1..]) && t[2..] == Hex(b[1..]);
      assert a[0] as int / 16 == b[0] as int / 16 && a[0] as int % 16 == b[0] as int % 16;
      HexInjective(a[1..], b[1..]);
      SameCons(a, b);
    }
  }

  lemma {:induction false} HexLength(s: Bytes)
    ensures |Hex(s)| == 2 * |s|
  {
    if s != [] {
      HexLength(s[1..]);
    }
  }

  lemma {:induction false} HexFree(s: Bytes)
    ensures Free(Hex(s), '\n')
  {
    assert forall i :: 0 <= i < |Hex(s)| ==> Unreserved(Hex(s)[i]);
    hide Hex;
  }

  /** The string to sign determines the timestamp and the digest of the request. */
  lemma StringInjective(c: Crypto, r: Bytes, t: Bytes, r': Bytes, t': Bytes, date: Bytes, region: Bytes)
    ensures StringToSign(c, r, t, date, region) == StringToSign(c, r', t', date, region) <==> t == t' && c.sha(r) == c.sha(r')
  {
    var scope := NEWLINE + Scope(date, region);
    StringParts(c, r, t, date, region);
    StringParts(c, r', t', date, region);
    hide StringToSign, Hex, HMAC_SHA256, Scope, Free;
    if StringToSign(c, r, t, date, region) == StringToSign(c, r', t', date, region) {
      HexFree(c.sha(r));
      HexFree(c.sha(r'));
      LastField(HMAC_SHA256 + NEWLINE + t + scope, Hex(c.sha(r)), HMAC_SHA256 + NEWLINE + t' + scope, Hex(c.sha(r')));
      SameSuffix(HMAC_SHA256 + NEWLINE + t, HMAC_SHA256 + NEWLINE + t', scope, scope);
      SamePrefix(HMAC_SHA256 + NEWLINE, t, t');
      HexInjective(c.sha(r), c.sha(r'));
    }
  }

  lemma SamePrefix(front: Bytes, a: Bytes, b: Bytes)
    requires front + a == front + b
    ensures a == b
  {
    assert a == (front + a)[|front|..] && b == (front + b)[|front|..];
  }

  lemma StringParts(c: Crypto, r: Bytes, t: Bytes, date: Bytes, region: Bytes)
    ensures StringToSign(c, r, t, date, region) ==
            (HMAC_SHA256 + NEWLINE + t + (NEWLINE + Scope(date, region))) + NEWLINE + Hex(c.sha(r))
  {
    hide NEWLINE, HMAC_SHA256, Scope, Hex;
    Regroup(HMAC_SHA256 + NEWLINE + t, NEWLINE, Scope(date, region));
  }

  // ---------------------------------------------------------------- what is signed of headers and parameters

  /** The value under which a header is signed: what was sent under its name in lower case, joined and trimmed. */
  ghost function SignedValue(headers: Headers, name: Bytes): Bytes {
    var lower := seq(|name|, i requires 0 <= i < |name| => Lower(name[i]));
    Trim(Join(if lower in headers then headers[lower] else [], ','))
  }

  lemma TrimIsPart(s: Bytes, other: Octet)
    requires Free(s, other)
    ensures Free(Trim(s), other)
  {
    TrimIs(s);
  }

  lemma ValueFree(headers: Headers, name: Bytes)
    requires forall n :: n in headers ==> AllFree(headers[n], '\n')
    ensures Free(SignedValue(headers, name), '\n')
  {
    var lower := seq(|name|, i requires 0 <= i < |name| => Lower(name[i]));
    var values := if lower in headers then headers[lower] else [];
    JoinFree(values, ',', '\n');
    TrimIsPart(Join(values, ','), '\n');
  }

  /** The lines of some headers without the final line feed. */
  ghost function LinesBody(headers: Headers, names: seq<Bytes>): Bytes
    requires names != []
  {
    HeaderLines(headers, names[..|names| - 1]) + (names[|names| - 1] + COLON + SignedValue(headers, names[|names| - 1]))
  }

  lemma LinesEnd(headers: Headers, names: seq<Bytes>)
    requires names != []
    ensures HeaderLines(headers, names) == LinesBody(headers, names) + NEWLINE
  {
    var before, name := HeaderLines(headers, names[..|names| - 1]), names[|names| - 1];
    assert HeaderLine(headers, name) == name + COLON + SignedValue(headers, name) + NEWLINE;
    hide HeaderLine, SignedValue;
    Regroup(before, name + COLON + SignedValue(headers, name), NEWLINE);
  }

  /** The header lines of the same names are equal iff the signed values are. */
  lemma {:induction false} HeaderLinesInjective(h: Headers, h': Headers, names: seq<Bytes>)
    requires AllFree(names, '\n')
    requires forall n :: n in h ==> AllFree(h[n], '\n')
    requires forall n :: n in h' ==> AllFree(h'[n], '\n')
    ensures HeaderLines(h, names) == HeaderLines(h', names) <==> forall i :: 0 <= i < |names| ==> SignedValue(h, names[i]) == SignedValue(h', names[i])
  {
    hide SignedValue, HeaderLines, Free;
    if names == [] {
      NoLines(h);
      NoLines(h');
    } else {
      var front, name := names[..|names| - 1], names[|names| - 1];
      assert names == front + [name];
      HeaderLinesInjective(h, h', front);
      LinesEnd(h, names);
      LinesEnd(h', names);
      if HeaderLines(h, names) == HeaderLines(h', names) {
        SameSuffix(LinesBody(h, names), LinesBody(h', names), NEWLINE, NEWLINE);
        LastLine(h, h', front, name);
      }
    }
  }

  lemma NoLines(h: Headers)
    ensures HeaderLines(h, []) == []
  {
  }

  lemma LineFree(h: Headers, name: Bytes)
    requires Free(name, '\n') && forall n :: n in h ==> AllFree(h[n], '\n')
    ensures Free(name + COLON + SignedValue(h, name), '\n')
  {
    ValueFree(h, name);
    hide SignedValue;
  }

  lemma LastLine(h: Headers, h': Headers, front: seq<Bytes>, name: Bytes)
    requires Free(name, '\n')
    requires forall n :: n in h ==> AllFree(h[n], '\n')
    requires forall n :: n in h' ==> AllFree(h'[n], '\n')
    requires HeaderLines(h, front) + (name + COLON + SignedValue(h, name)) == HeaderLines(h', front) + (name + COLON + SignedValue(h', name))
    ensures HeaderLines(h, front) == HeaderLines(h', front) && SignedValue(h, name) == SignedValue(h', name)
  {
    hide *;
    var v, v' := name + COLON + SignedValue(h, name), name + COLON + SignedValue(h', name);
    LineFree(h, name);
    LineFree(h', name);
    if front == [] {
      NoLines(h);
      NoLines(h');
      assert [] + v == v && [] + v' == v';
    } else {
      LinesEnd(h, front);
      LinesEnd(h', front);
      LastField(LinesBody(h, front), v, LinesBody(h', front), v');
    }
    SamePrefix(name + COLON, SignedValue(h, name), SignedValue(h', name));
  }

  /** The decoded parameters that are signed, with their multiplicities: all but those named like the signature, in any casing. */
  ghost function SignedBag(lossy: Bytes -> Bytes, params: seq<Bytes>): multiset<Pair> {
    if params == [] then multiset{} else
    var last := params[|params| - 1];
    SignedBag(lossy, params[..|params| - 1]) +
      if last == [] || EqIgnoreCase(SplitOnce(last, '=').0, "X-Amz-Signature") then multiset{} else multiset{DecodePair(lossy, last)}
  }

  lemma {:induction false} BagOfUnsigned(lossy: Bytes -> Bytes, params: seq<Bytes>)
    ensures Bag(lossy, Unsigned(params)) == SignedBag(lossy, params)
  {
    hide EqIgnoreCase, SplitOnce, DecodePair, Bag;
    NothingInBag(lossy);
    if params != [] {
      var front, last := params[..|params| - 1], params[|params| - 1];
      BagOfUnsigned(lossy, front);
      BagPullOut(lossy, Unsigned(front), last, []);
      assert Unsigned(front) + [last] + [] == Unsigned(front) + [last] && Unsigned(front) + [] == Unsigned(front);
    }
  }

  lemma NothingInBag(lossy: Bytes -> Bytes)
    ensures Bag(lossy, []) == multiset{} && Bag(lossy, [[]]) == multiset{}
  {
  }

  /** What the verifier canonicalises is the signed parameters. */
  lemma FilteredBag(lossy: Bytes -> Bytes, query: Bytes)
    ensures multiset(Pairs(lossy, Filtered(query))) == SignedBag(lossy, Split(query, '&'))
  {
    var left := Unsigned(Split(query, '&'));
    hide EqIgnoreCase, Split, Join, Bag, DecodeAll, SignedBag;
    BagOfUnsigned(lossy, Split(query, '&'));
    BagOfDecoded(lossy, Split(Filtered(query), '&'));
    if left == [] {
      NothingInBag(lossy);
      NothingJoined();
    } else {
      UnsignedFree(Split(query, '&'));
      SplitJoin(left, '&');
    }
  }

  lemma NothingJoined()
    ensures Split(Join([], '&'), '&') == [[]]
  {
  }

  lemma {:induction false} UnsignedFree(params: seq<Bytes>)
    requires AllFree(params, '&')
    ensures AllFree(Unsigned(params), '&')
  {
    hide Free, EqIgnoreCase;
    if params != [] {
      UnsignedFree(params[..|params| - 1]);
    }
  }

  // ---------------------------------------------------------------- what a signature binds

  /** Two requests mean the same to the verifier. */
  ghost predicate SameMeaning(c: Crypto, r: Request, s: Request) {
    && r.verb == s.verb && r.timestamp == s.timestamp
    && DecodedPath(c.lossy, r.uri) == DecodedPath(c.lossy, s.uri)
    && SignedBag(c.lossy, Split(r.query, '&')) == SignedBag(c.lossy, Split(s.query, '&'))
    && r.parsed.signedHeaders == s.parsed.signedHeaders
    && forall i :: 0 <= i < |r.parsed.signedHeaders| ==>
         SignedValue(r.headers, r.parsed.signedHeaders[i]) == SignedValue(s.headers, r.parsed.signedHeaders[i])
  }

  /** Two requests of one moment whose different canonical texts have one SHA-256 digest. */
  predicate ShaCollision(c: Crypto, r: Request, s: Request) {
    r.timestamp == s.timestamp && RequestText(c, r) != RequestText(c, s) && c.sha(RequestText(c, r)) == c.sha(RequestText(c, s))
  }

  lemma SameTextIff(c: Crypto, r: Request, s: Request)
    requires IsLossy(c.lossy) && Transmissible(r) && Transmissible(s)
    ensures RequestText(c, r) == RequestText(c, s) && r.timestamp == s.timestamp <==> SameMeaning(c, r, s)
  {
    TextFields(c, r, s);
    hide CanonicalUri, Canonical, Filtered, HeaderLines, Join, DecodedPath, Pairs, Free, IsLossy, SignedBag, SignedValue, RequestText;
    SameUriIff(c.lossy, r.uri, s.uri);
    SameCanonicalIff(c.lossy, Filtered(r.query), Filtered(s.query));
    FilteredBag(c.lossy, r.query);
    FilteredBag(c.lossy, s.query);
    SplitJoin(r.parsed.signedHeaders, ';');
    SplitJoin(s.parsed.signedHeaders, ';');
    HeaderLinesInjective(r.headers, s.headers, r.parsed.signedHeaders);
  }

  lemma TextFields(c: Crypto, r: Request, s: Request)
    requires IsLossy(c.lossy) && Transmissible(r) && Transmissible(s)
    ensures RequestText(c, r) == RequestText(c, s) <==>
              && r.verb == s.verb
              && CanonicalUri(c.lossy, r.uri) == CanonicalUri(c.lossy, s.uri)
              && Canonical(c.lossy, Filtered(r.query)) == Canonical(c.lossy, Filtered(s.query))
              && HeaderLines(r.headers, r.parsed.signedHeaders) == HeaderLines(s.headers, s.parsed.signedHeaders)
              && Join(r.parsed.signedHeaders, ';') == Join(s.parsed.signedHeaders, ';')
  {
    hide CanonicalUri, Canonical, Filtered, HeaderLines, Join, DecodedPath, Pairs, Free, AllFree, CanonicalRequest, IsLossy;
    SameUriIff(c.lossy, r.uri, s.uri);
    SameUriIff(c.lossy, s.uri, r.uri);
    QueryFree(c.lossy, Filtered(r.query));
    QueryFree(c.lossy, Filtered(s.query));
    JoinFree(r.parsed.signedHeaders, ';', '\n');
    JoinFree(s.parsed.signedHeaders, ';', '\n');
    if RequestText(c, r) == RequestText(c, s) {
      RequestInjective(r.verb, CanonicalUri(c.lossy, r.uri), Canonical(c.lossy, Filtered(r.query)),
                       HeaderLines(r.headers, r.parsed.signedHeaders), Join(r.parsed.signedHeaders, ';'),
                       s.verb, CanonicalUri(c.lossy, s.uri), Canonical(c.lossy, Filtered(s.query)),
                       HeaderLines(s.headers, s.parsed.signedHeaders), Join(s.parsed.signedHeaders, ';'));
    }
  }

  /** The canonical request as `verify_presigned_signature` writes it out. */
  function CanonicalText(c: Crypto, r: Request): Bytes {
    var n: Bytes, unsigned: Bytes := "\n", "UNSIGNED-PAYLOAD";
    r.verb + n + CanonicalUri(c.lossy, r.uri) + n + Canonical(c.lossy, Filtered(r.query)) + n
    + HeaderLines(r.headers, r.parsed.signedHeaders) + n + Join(r.parsed.signedHeaders, ';') + n + unsigned
  }

  /** The text that is signed. */
  function TextToSign(c: Crypto, r: Request): Bytes {
    var n: Bytes, algorithm: Bytes, slash: Bytes, rest: Bytes := "\n", "AWS4-HMAC-SHA256", "/", "/s3/aws4_request";
    algorithm + n + r.timestamp + n + (r.parsed.date + slash + (r.parsed.region + rest)) + n + Hex(c.sha(CanonicalText(c, r)))
  }

  /** The five HMAC calls of a verification: key and message, each keyed by the result of the one before. */
  function HmacCalls(c: Crypto, r: Request, secret: Bytes): seq<(Bytes, Bytes)> {
    var first: Bytes, service: Bytes, terminator: Bytes := "AWS4" + secret, "s3", "aws4_request";
    var day := c.hmac(first, r.parsed.date);
    var region := c.hmac(day, r.parsed.region);
    var inner := c.hmac(region, service);
    var key := c.hmac(inner, terminator);
    [(first, r.parsed.date), (day, r.parsed.region), (region, service), (inner, terminator), (key, TextToSign(c, r))]
  }

  /** Two different calls have one result, and no later message differs. */
  ghost predicate CallsCollide(c: Crypto, a: seq<(Bytes, Bytes)>, b: seq<(Bytes, Bytes)>)
    requires |a| == |b|
  {
    exists i :: 0 <= i < |a| && a[i] != b[i] && c.hmac(a[i].0, a[i].1) == c.hmac(b[i].0, b[i].1)
             && forall j :: i < j < |a| ==> a[j].1 == b[j].1
  }

  lemma ScopeIs(date: Bytes, region: Bytes)
    ensures var slash: Bytes, rest: Bytes := "/", "/s3/aws4_request"; Scope(date, region) == date + slash + (region + rest)
  {
    assert SLASH + (SERVICE + SLASH + TERMINATOR) == "/s3/aws4_request";
    Regroup(region, SLASH, SERVICE + SLASH + TERMINATOR);
  }

  /** A request is accepted iff it carries the result of the last call. */
  lemma AcceptedIs(c: Crypto, r: Request, secret: Bytes)
    ensures var calls := HmacCalls(c, r, secret);
            && |calls| == 5 && calls[4].1 == SignedText(c, r)
            && (Accepted(c, r, secret) <==> r.parsed.signature == Hex(c.hmac(calls[4].0, calls[4].1)))
  {
    hide CanonicalUri, Canonical, HeaderLines, Hex, Join, Scope;
    ScopeIs(r.parsed.date, r.parsed.region);
  }

  lemma CallsChain(c: Crypto, r: Request, secret: Bytes)
    ensures var calls := HmacCalls(c, r, secret);
            && |calls| == 5 && calls[0] == ("AWS4" + secret, r.parsed.date) && calls[1].1 == r.parsed.region
            && forall i :: 1 <= i < 5 ==> calls[i].0 == c.hmac(calls[i - 1].0, calls[i - 1].1)
  {
    hide CanonicalUri, Canonical, HeaderLines, Hex, Join, Filtered, TextToSign;
  }

  lemma SameMessages(c: Crypto, r: Request, s: Request, secret: Bytes, other: Bytes)
    requires secret == other && r.parsed.date == s.parsed.date && r.parsed.region == s.parsed.region && SignedText(c, r) == SignedText(c, s)
    ensures HmacCalls(c, r, secret) == HmacCalls(c, s, other)
  {
    AcceptedIs(c, r, secret);
    AcceptedIs(c, s, other);
    hide CanonicalUri, Canonical, HeaderLines, Hex, Join, Filtered, SignedText, Accepted;
  }

  /** Two chains of calls end alike iff they are the same, or two of their calls collide with no later difference. */
  lemma ChainsEndAlikeIff(c: Crypto, a: seq<(Bytes, Bytes)>, b: seq<(Bytes, Bytes)>)
    requires |a| == |b| > 0
    requires forall i :: 1 <= i < |a| ==> a[i].0 == c.hmac(a[i - 1].0, a[i - 1].1)
    requires forall i :: 1 <= i < |b| ==> b[i].0 == c.hmac(b[i - 1].0, b[i - 1].1)
    ensures c.hmac(a[|a| - 1].0, a[|a| - 1].1) == c.hmac(b[|b| - 1].0, b[|b| - 1].1) <==> a == b || CallsCollide(c, a, b)
  {
    var n := |a|;
    if c.hmac(a[n - 1].0, a[n - 1].1) == c.hmac(b[n - 1].0, b[n - 1].1) && a != b {
      var i := LastDifference(a, b);
      assert i + 1 < n ==> a[i + 1].0 == c.hmac(a[i].0, a[i].1) && b[i + 1].0 == c.hmac(b[i].0, b[i].1);
    }
    if i :| 0 <= i < n && a[i] != b[i] && c.hmac(a[i].0, a[i].1) == c.hmac(b[i].0, b[i].1) && forall j :: i < j < n ==> a[j].1 == b[j].1 {
      SameFromThere(c, a, b, i, n - 1);
    }
  }

  lemma {:induction false} LastDifference(a: seq<(Bytes, Bytes)>, b: seq<(Bytes, Bytes)>) returns (i: nat)
    requires |a| == |b| && a != b
    ensures i < |a| && a[i] != b[i] && forall j :: i < j < |a| ==> a[j] == b[j]
  {
    i := |a| - 1;
    if a[i] == b[i] {
      assert a == a[..i] + [a[i]] && b == b[..i] + [b[i]];
      i := LastDifference(a[..i], b[..i]);
    }
  }

  lemma {:induction false} SameFromThere(c: Crypto, a: seq<(Bytes, Bytes)>, b: seq<(Bytes, Bytes)>, i: nat, k: nat)
    requires |a| == |b| && i <= k < |a|
    requires forall i :: 1 <= i < |a| ==> a[i].0 == c.hmac(a[i - 1].0, a[i - 1].1)
    requires forall i :: 1 <= i < |b| ==> b[i].0 == c.hmac(b[i - 1].0, b[i - 1].1)
    requires c.hmac(a[i].0, a[i].1) == c.hmac(b[i].0, b[i].1) && forall j :: i < j < |a| ==> a[j].1 == b[j].1
    ensures c.hmac(a[k].0, a[k].1) == c.hmac(b[k].0, b[k].1)
  {
    if i < k {
      SameFromThere(c, a, b, i, k - 1);
    }
  }

  /**
   A request that carries the signature of an accepted one is accepted, under whatever secret, if and only if
   secret, date, region, method, timestamp, decoded path, decoded parameters with multiplicities, and names and
   values of the signed headers are the same; or only the canonical texts differ and collide under SHA-256; or two
   of the HMAC calls collide.
   */
  lemma SignatureBindsRequest(c: Crypto, r: Request, s: Request, secret: Bytes, other: Bytes)
    requires IsLossy(c.lossy) && Transmissible(r) && Transmissible(s) && Accepted(c, r, secret)
    requires s.parsed.signature == r.parsed.signature
    ensures |HmacCalls(c, r, secret)| == |HmacCalls(c, s, other)|
    ensures Accepted(c, s, other) <==>
              || (secret == other && r.parsed.date == s.parsed.date && r.parsed.region == s.parsed.region
                  && (SameMeaning(c, r, s) || ShaCollision(c, r, s)))
              || CallsCollide(c, HmacCalls(c, r, secret), HmacCalls(c, s, other))
  {
    hide *;
    var a, b := HmacCalls(c, r, secret), HmacCalls(c, s, other);
    AcceptedIs(c, r, secret);
    AcceptedIs(c, s, other);
    CallsChain(c, r, secret);
    CallsChain(c, s, other);
    ChainsEndAlikeIff(c, a, b);
    if Hex(c.hmac(a[4].0, a[4].1)) == Hex(c.hmac(b[4].0, b[4].1)) {
      HexInjective(c.hmac(a[4].0, a[4].1), c.hmac(b[4].0, b[4].1));
    }
    SameCallsIff(c, r, s, secret, other);
  }

  lemma SameCallsIff(c: Crypto, r: Request, s: Request, secret: Bytes, other: Bytes)
    requires IsLossy(c.lossy) && Transmissible(r) && Transmissible(s)
    ensures HmacCalls(c, r, secret) == HmacCalls(c, s, other) <==>
              && secret == other && r.parsed.date == s.parsed.date && r.parsed.region == s.parsed.region
              && (SameMeaning(c, r, s) || ShaCollision(c, r, s))
  {
    AcceptedIs(c, r, secret);
    AcceptedIs(c, s, other);
    CallsChain(c, r, secret);
    CallsChain(c, s, other);
    SameTextIff(c, r, s);
    hide SameMeaning, RequestText, IsLossy, Transmissible, Accepted, StringToSign, Hex, HmacCalls;
    if HmacCalls(c, r, secret) == HmacCalls(c, s, other) {
      SamePrefix("AWS4", secret, other);
    }
    if r.parsed.date == s.parsed.date && r.parsed.region == s.parsed.region {
      StringInjective(c, RequestText(c, r), r.timestamp, RequestText(c, s), s.timestamp, r.parsed.date, r.parsed.region);
      if secret == other && SignedText(c, r) == SignedText(c, s) {
        SameMessages(c, r, s, secret, other);
      }
    }
  }
}
