/** Presigned URLs: what the console signs, and what the server accepts. */
module Presign {
  import opened Base
  import opened Text
  import opened CanonicalQuery

  /** Library code: lossy UTF-8 decoding, SHA-256 and HMAC-SHA-256. */
  datatype Crypto = Crypto(lossy: Bytes -> Bytes, sha: Bytes -> Bytes, hmac: (Bytes, Bytes) -> Bytes)

  datatype ParsedAuth = ParsedAuth(accessKey: Bytes, date: Bytes, region: Bytes, signedHeaders: seq<Bytes>, signature: Bytes)

  /** Request headers by lower-case name. */
  type Headers = map<Bytes, seq<Bytes>>

  const ALGORITHM: Bytes := "X-Amz-Algorithm"
  const CREDENTIAL: Bytes := "X-Amz-Credential"
  const DATE: Bytes := "X-Amz-Date"
  const EXPIRES: Bytes := "X-Amz-Expires"
  const SIGNED_HEADERS: Bytes := "X-Amz-SignedHeaders"
  const SIGNATURE: Bytes := "X-Amz-Signature"
  const MAX_EXPIRES: nat := 604800

  const GET: Bytes := "GET"
  const HOST: Bytes := "host"
  const AWS4: Bytes := "AWS4"
  const SERVICE: Bytes := "s3"
  const TERMINATOR: Bytes := "aws4_request"
  const HMAC_SHA256: Bytes := "AWS4-HMAC-SHA256"
  const UNSIGNED_PAYLOAD: Bytes := "UNSIGNED-PAYLOAD"
  const NEWLINE: Bytes := ['\n']
  const SLASH: Bytes := ['/']
  const COLON: Bytes := [':']
  const AMPERSAND: Bytes := ['&']
  const EQUALS: Bytes := ['=']

  function HexLowerDigit(n: nat): (c: Octet)
    requires n < 16
    ensures Unreserved(c) && c == "0123456789abcdef"[n]
  {
    if n < 10 then ('0' as int + n) as char else ('a' as int + (n - 10)) as char
  }

  /** `hex::encode` */
  function Hex(s: Bytes): (h: Bytes)
    ensures forall i :: 0 <= i < |h| ==> Unreserved(h[i])
  {
    if s == [] then []
    else [HexLowerDigit(s[0] as int / 16), HexLowerDigit(s[0] as int % 16)] + Hex(s[1..])
  }

  /** Two lower-case digits for each byte, in order. */
  lemma {:induction false} HexIs(s: Bytes)
    ensures |Hex(s)| == 2 * |s|
    ensures forall i :: 0 <= i < |s| ==>
              Hex(s)[2 * i] == "0123456789abcdef"[s[i] as int / 16] && Hex(s)[2 * i + 1] == "0123456789abcdef"[s[i] as int % 16]
  {
    if s != [] {
      HexIs(s[1..]);
      var h, t := Hex(s), Hex(s[1..]);
      assert h[2..] == t && |h| == 2 + |t|;
      forall i | 0 <= i < |s|
        ensures h[2 * i] == "0123456789abcdef"[s[i] as int / 16] && h[2 * i + 1] == "0123456789abcdef"[s[i] as int % 16]
      {
        if i > 0 {
          assert h[2 * i] == t[2 * (i - 1)] && h[2 * i + 1] == t[2 * (i - 1) + 1] && s[i] == s[1..][i - 1];
        }
      }
    }
  }

  // ---------------------------------------------------------------- shared by signer and verifier

  function Scope(date: Bytes, region: Bytes): Bytes {
    date + SLASH + (region + SLASH + (SERVICE + SLASH + TERMINATOR))
  }

  /** `build_string_to_sign` */
  function StringToSign(c: Crypto, request: Bytes, timestamp: Bytes, date: Bytes, region: Bytes): Bytes {
    HMAC_SHA256 + NEWLINE + timestamp + NEWLINE + Scope(date, region) + NEWLINE + Hex(c.sha(request))
  }

  /** `derive_signing_key` */
  function SigningKey(c: Crypto, secret: Bytes, date: Bytes, region: Bytes): Bytes {
    c.hmac(c.hmac(c.hmac(c.hmac(AWS4 + secret, date), region), SERVICE), TERMINATOR)
  }

  function CanonicalRequest(verb: Bytes, uri: Bytes, query: Bytes, headers: Bytes, signedHeaders: Bytes): Bytes {
    verb + NEWLINE + uri + NEWLINE + query + NEWLINE + headers + NEWLINE + signedHeaders + NEWLINE + UNSIGNED_PAYLOAD
  }

  function Sign(c: Crypto, secret: Bytes, request: Bytes, timestamp: Bytes, date: Bytes, region: Bytes): Bytes {
    Hex(c.hmac(SigningKey(c, secret, date, region), StringToSign(c, request, timestamp, date, region)))
  }

  // ---------------------------------------------------------------- the signer

  datatype Input = Input(
    bucket: Bytes, key: Bytes, host: Bytes, accessKey: Bytes, secret: Bytes, region: Bytes,
    dateStamp: Bytes, amzDate: Bytes, expires: nat)

  function EncodeSegments(segments: seq<Bytes>): (r: seq<Bytes>)
    ensures |r| == |segments| && forall i :: 0 <= i < |r| ==> r[i] == Encode(segments[i])
  {
    if segments == [] then [] else [Encode(segments[0])] + EncodeSegments(segments[1..])
  }

  function ObjectPath(i: Input): Bytes {
    SLASH + Encode(i.bucket) + SLASH + Join(EncodeSegments(Split(i.key, '/')), '/')
  }

  function CredentialOf(i: Input): Bytes {
    i.accessKey + SLASH + Scope(i.dateStamp, i.region)
  }

  function SignedParams(i: Input): seq<Pair> {
    [Pair(ALGORITHM, HMAC_SHA256), Pair(CREDENTIAL, CredentialOf(i)), Pair(DATE, i.amzDate),
     Pair(EXPIRES, DigitsOf(i.expires)), Pair(SIGNED_HEADERS, HOST)]
  }

  function SignatureOf(c: Crypto, i: Input): Bytes {
    var request := CanonicalRequest(GET, ObjectPath(i), Render(SignedParams(i)), HOST + COLON + i.host + NEWLINE, HOST);
    Sign(c, i.secret, request, i.amzDate, i.dateStamp, i.region)
  }

  /** The query part of the URL that `presign_object` returns. */
  function PresignedQuery(c: Crypto, i: Input): Bytes {
    Render(SignedParams(i)) + AMPERSAND + (SIGNATURE + EQUALS + SignatureOf(c, i))
  }

  // ---------------------------------------------------------------- the verifier

  function Recode(lossy: Bytes -> Bytes, s: Bytes): Bytes {
    Encode(lossy(Decode(s)))
  }

  function RecodeAll(lossy: Bytes -> Bytes, segments: seq<Bytes>): (r: seq<Bytes>)
    ensures |r| == |segments| && forall i :: 0 <= i < |r| ==> r[i] == Recode(lossy, segments[i])
  {
    if segments == [] then [] else [Recode(lossy, segments[0])] + RecodeAll(lossy, segments[1..])
  }

  /** `canonical_uri` */
  function CanonicalUri(lossy: Bytes -> Bytes, uri: Bytes): Bytes {
    var path := Split(uri, '?')[0];
    if path == [] || path == SLASH then SLASH else Join(RecodeAll(lossy, Split(path, '/')), '/')
  }

  function HeaderLine(headers: Headers, name: Bytes): Bytes {
    var lower := seq(|name|, i requires 0 <= i < |name| => Lower(name[i]));
    var values := if lower in headers then headers[lower] else [];
    name + COLON + Trim(Join(values, ',')) + NEWLINE
  }

  function HeaderLines(headers: Headers, names: seq<Bytes>): Bytes {
    if names == [] then [] else HeaderLines(headers, names[..|names| - 1]) + HeaderLine(headers, names[|names| - 1])
  }

  /** `canonical_headers` */
  method CanonicalHeaders(headers: Headers, names: seq<Bytes>) returns (r: Bytes)
    ensures r == HeaderLines(headers, names)
  {
    hide HeaderLine;
    r := [];
    for i := 0 to |names|
      invariant r == HeaderLines(headers, names[..i])
    {
      assert names[..i + 1][..i] == names[..i];
      r := r + HeaderLine(headers, names[i]);
    }
    assert names[..|names|] == names;
  }

  function KeyOf(param: Bytes): Bytes {
    SplitOnce(param, '=').0
  }

  /** The value of the last parameter with this name, in any casing. */
  function LastValue(params: seq<Bytes>, name: Bytes): Option<Bytes> {
    if params == [] then None
    else
      var last := params[|params| - 1];
      if EqIgnoreCase(KeyOf(last), name) then Some(SplitOnce(last, '=').1)
      else LastValue(params[..|params| - 1], name)
  }

  function Unsigned(params: seq<Bytes>): seq<Bytes> {
    if params == [] then []
    else Unsigned(params[..|params| - 1])
         + (if EqIgnoreCase(KeyOf(params[|params| - 1]), SIGNATURE) then [] else [params[|params| - 1]])
  }

  function SplitN(s: Bytes, sep: Octet, n: nat): seq<Bytes>
    requires n > 0
    decreases n
  {
    var i := Find(s, sep);
    if n == 1 || i == |s| then [s] else [s[..i]] + SplitN(s[i + 1..], sep, n - 1)
  }

  datatype ParseError = Missing | WrongAlgorithm | BadExpires | ExpiresTooLong | BadEncoding | BadCredential

  /** What the collected parameters mean. */
  function Interpret(lossy: Bytes -> Bytes, algorithm: Option<Bytes>, credential: Option<Bytes>, date: Option<Bytes>,
                     expires: Option<Bytes>, signedHeaders: Option<Bytes>, signature: Option<Bytes>)
    : Result<(ParsedAuth, Bytes, nat), ParseError>
  {
    if algorithm.None? then Err(Missing)
    else if algorithm.value != HMAC_SHA256 then Err(WrongAlgorithm)
    else if credential.None? || date.None? || expires.None? || signedHeaders.None? || signature.None? then Err(Missing)
    else
      var e := ParseU64(expires.value);
      if e.None? then Err(BadExpires)
      else if e.value > MAX_EXPIRES then Err(ExpiresTooLong)
      else
        var cred := Decode(credential.value);
        if lossy(cred) != cred then Err(BadEncoding)
        else
          var parts := SplitN(cred, '/', 5);
          if |parts| != 5 then Err(BadCredential)
          else Ok((ParsedAuth(parts[0], parts[1], parts[2], Split(signedHeaders.value, ';'), signature.value), date.value, e.value))
  }

  function Parse(lossy: Bytes -> Bytes, query: Bytes): Result<(ParsedAuth, Bytes, nat), ParseError> {
    var params := Split(query, '&');
    Interpret(lossy, LastValue(params, ALGORITHM), LastValue(params, CREDENTIAL), LastValue(params, DATE),
              LastValue(params, EXPIRES), LastValue(params, SIGNED_HEADERS), LastValue(params, SIGNATURE))
  }

  // ---------------------------------------------------------------- what parsing finds

  /** The value of the last parameter of a name, in any casing, or nothing if there is no such parameter. */
  ghost predicate IsLast(params: seq<Bytes>, name: string, v: Option<string>) {
    match v
    case None => forall i :: 0 <= i < |params| ==> !EqIgnoreCase(SplitOnce(params[i], '=').0, name)
    case Some(text) =>
      exists i :: 0 <= i < |params| && EqIgnoreCase(SplitOnce(params[i], '=').0, name) && SplitOnce(params[i], '=').1 == text
               && forall j :: i < j < |params| ==> !EqIgnoreCase(SplitOnce(params[j], '=').0, name)
  }

  lemma IsLastOneMore(front: seq<Bytes>, last: Bytes, name: Bytes, v: Option<Bytes>)
    ensures IsLast(front + [last], name, v) <==>
              if EqIgnoreCase(SplitOnce(last, '=').0, name) then v == Some(SplitOnce(last, '=').1) else IsLast(front, name, v)
  {
    hide EqIgnoreCase, SplitOnce;
    var all := front + [last];
    assert all[|front|] == last && forall i :: 0 <= i < |front| ==> all[i] == front[i];
    if v.Some? {
      assert forall i :: 0 <= i < |front| && EqIgnoreCase(SplitOnce(front[i], '=').0, name) ==> EqIgnoreCase(SplitOnce(all[i], '=').0, name);
    }
  }

  lemma {:induction false} LastValueIs(params: seq<Bytes>, name: Bytes, v: Option<Bytes>)
    ensures LastValue(params, name) == v <==> IsLast(params, name, v)
  {
    hide EqIgnoreCase, SplitOnce;
    if params != [] {
      var front, last := params[..|params| - 1], params[|params| - 1];
      assert params == front + [last];
      LastValueIs(front, name, v);
      IsLastOneMore(front, last, name, v);
      hide IsLast;
    }
  }

  /** Four fields without a slash, each followed by one, and a rest. */
  predicate FiveFields(s: Bytes, a: Bytes, b: Bytes, c: Bytes, d: Bytes, e: Bytes) {
    Free(a, '/') && Free(b, '/') && Free(c, '/') && Free(d, '/') && s == a + SLASH + (b + SLASH + (c + SLASH + (d + SLASH + e)))
  }

  lemma SplitNFirst(s: Bytes, n: nat) returns (a: Bytes, rest: Bytes)
    requires n > 1 && |SplitN(s, '/', n)| > 1
    ensures Free(a, '/') && s == a + SLASH + rest && SplitN(s, '/', n) == [a] + SplitN(rest, '/', n - 1)
  {
    var i := Find(s, '/');
    a, rest := s[..i], s[i + 1..];
  }

  lemma SplitNNext(a: Bytes, rest: Bytes, n: nat)
    requires n > 1 && Free(a, '/')
    ensures SplitN(a + SLASH + rest, '/', n) == [a] + SplitN(rest, '/', n - 1)
  {
    hide Find;
    FindAt(a, '/', rest);
  }

  lemma LastPart(s: Bytes)
    ensures SplitN(s, '/', 1) == [s]
  {
  }

  lemma FiveFieldsSplit(s: Bytes, a: Bytes, b: Bytes, c: Bytes, d: Bytes, e: Bytes)
    requires FiveFields(s, a, b, c, d, e)
    ensures SplitN(s, '/', 5) == [a, b, c, d, e]
  {
    hide SplitN, Free;
    SplitNNext(a, b + SLASH + (c + SLASH + (d + SLASH + e)), 5);
    SplitNNext(b, c + SLASH + (d + SLASH + e), 4);
    SplitNNext(c, d + SLASH + e, 3);
    SplitNNext(d, e, 2);
    LastPart(e);
  }

  lemma SplitsInFive(s: Bytes)
    ensures var parts := SplitN(s, '/', 5);
            |parts| == 5 ==> FiveFields(s, parts[0], parts[1], parts[2], parts[3], parts[4])
  {
    hide SplitN, Free;
    if |SplitN(s, '/', 5)| == 5 {
      var a, s1 := SplitNFirst(s, 5);
      var b, s2 := SplitNFirst(s1, 4);
      var c, s3 := SplitNFirst(s2, 3);
      var d, e := SplitNFirst(s3, 2);
      LastPart(e);
    }
  }

  /** The credential has been split where the parser splits it. */
  ghost predicate SaysWho(lossy: Bytes -> Bytes, cred: Bytes, auth: ParsedAuth) {
    && lossy(Decode(cred)) == Decode(cred)
    && exists d, e :: FiveFields(Decode(cred), auth.accessKey, auth.date, auth.region, d, e)
  }

  /** A query with all six parameters that are right, and what they say. */
  ghost predicate Says(lossy: Bytes -> Bytes, params: seq<Bytes>, auth: ParsedAuth, timestamp: Bytes, expires: nat) {
    && IsLast(params, ALGORITHM, Some(HMAC_SHA256))
    && IsLast(params, DATE, Some(timestamp))
    && IsLast(params, SIGNATURE, Some(auth.signature))
    && (exists e: Bytes :: IsLast(params, EXPIRES, Some(e)) && ParseU64(e) == Some(expires)) && expires <= MAX_EXPIRES
    && (exists h: Bytes :: IsLast(params, SIGNED_HEADERS, Some(h)) && auth.signedHeaders == Split(h, ';'))
    && exists cred: Bytes :: IsLast(params, CREDENTIAL, Some(cred)) && SaysWho(lossy, cred, auth)
  }

  lemma SaysWhoIff(lossy: Bytes -> Bytes, cred: Bytes, auth: ParsedAuth)
    ensures SaysWho(lossy, cred, auth) <==>
              && lossy(Decode(cred)) == Decode(cred)
              && var parts := SplitN(Decode(cred), '/', 5);
                 |parts| == 5 && parts[0] == auth.accessKey && parts[1] == auth.date && parts[2] == auth.region
  {
    hide SplitN, Decode, FiveFields;
    SplitsInFive(Decode(cred));
    if d, e :| FiveFields(Decode(cred), auth.accessKey, auth.date, auth.region, d, e) {
      FiveFieldsSplit(Decode(cred), auth.accessKey, auth.date, auth.region, d, e);
    }
  }

  /** The names and the limit, as clients know them. */
  lemma SixNames()
    ensures ALGORITHM == "X-Amz-Algorithm" && CREDENTIAL == "X-Amz-Credential" && DATE == "X-Amz-Date"
    ensures EXPIRES == "X-Amz-Expires" && SIGNED_HEADERS == "X-Amz-SignedHeaders" && SIGNATURE == "X-Amz-Signature"
    ensures HMAC_SHA256 == "AWS4-HMAC-SHA256" && MAX_EXPIRES == 604800
  {
  }

  lemma Lasts(params: seq<Bytes>, name: Bytes)
    ensures IsLast(params, name, LastValue(params, name)) && (IsLast(params, name, None) <==> LastValue(params, name).None?)
    ensures forall v: Bytes :: IsLast(params, name, Some(v)) <==> LastValue(params, name) == Some(v)
  {
    hide IsLast, LastValue;
    LastValueIs(params, name, LastValue(params, name));
    LastValueIs(params, name, None);
    forall v: Bytes
      ensures IsLast(params, name, Some(v)) <==> LastValue(params, name) == Some(v)
    {
      LastValueIs(params, name, Some(v));
    }
  }

  lemma SixLasts(params: seq<Bytes>)
    ensures forall name :: name in {ALGORITHM, CREDENTIAL, DATE, EXPIRES, SIGNED_HEADERS, SIGNATURE} ==>
              (IsLast(params, name, None) <==> LastValue(params, name).None?)
              && forall v: Bytes :: IsLast(params, name, Some(v)) <==> LastValue(params, name) == Some(v)
  {
    hide *;
    forall name | name in {ALGORITHM, CREDENTIAL, DATE, EXPIRES, SIGNED_HEADERS, SIGNATURE}
      ensures (IsLast(params, name, None) <==> LastValue(params, name).None?)
              && forall v: Bytes :: IsLast(params, name, Some(v)) <==> LastValue(params, name) == Some(v)
    {
      Lasts(params, name);
    }
  }

  /** What the collected values must be for a query to be taken. */
  lemma InterpretOkIff(lossy: Bytes -> Bytes, a: Option<Bytes>, cred: Option<Bytes>, d: Option<Bytes>, e: Option<Bytes>,
                       h: Option<Bytes>, g: Option<Bytes>, auth: ParsedAuth, timestamp: Bytes, expires: nat)
    ensures Interpret(lossy, a, cred, d, e, h, g) == Ok((auth, timestamp, expires)) <==>
              && a == Some(HMAC_SHA256) && d == Some(timestamp) && g == Some(auth.signature)
              && e.Some? && ParseU64(e.value) == Some(expires) && expires <= MAX_EXPIRES
              && h.Some? && auth.signedHeaders == Split(h.value, ';')
              && cred.Some? && SaysWho(lossy, cred.value, auth)
  {
    hide SplitN, Decode, ParseU64, SaysWho, Split, HMAC_SHA256;
    if cred.Some? {
      SaysWhoIff(lossy, cred.value, auth);
    }
  }

  /** A query is taken iff it has all six parameters and these are right, and what they say is what comes out. */
  lemma ParseOkIff(lossy: Bytes -> Bytes, query: Bytes, auth: ParsedAuth, timestamp: Bytes, expires: nat)
    ensures Parse(lossy, query) == Ok((auth, timestamp, expires)) <==> Says(lossy, Split(query, '&'), auth, timestamp, expires)
  {
    var params := Split(query, '&');
    hide Split, LastValue, IsLast, SplitN, Decode, ParseU64, SaysWho, Interpret;
    hide ALGORITHM, CREDENTIAL, DATE, EXPIRES, SIGNED_HEADERS, SIGNATURE, HMAC_SHA256, MAX_EXPIRES;
    SixLasts(params);
    InterpretOkIff(lossy, LastValue(params, ALGORITHM), LastValue(params, CREDENTIAL), LastValue(params, DATE), LastValue(params, EXPIRES),
                   LastValue(params, SIGNED_HEADERS), LastValue(params, SIGNATURE), auth, timestamp, expires);
  }

  /** The error that the collected values meet. */
  lemma InterpretErrorIs(lossy: Bytes -> Bytes, a: Option<Bytes>, cred: Option<Bytes>, d: Option<Bytes>, e: Option<Bytes>,
                         h: Option<Bytes>, g: Option<Bytes>)
    ensures var r, complete := Interpret(lossy, a, cred, d, e, h, g), cred.Some? && d.Some? && e.Some? && h.Some? && g.Some?;
            && (r == Err(WrongAlgorithm) <==> a.Some? && a.value != HMAC_SHA256)
            && (r == Err(Missing) <==> a.None? || (a.value == HMAC_SHA256 && !complete))
            && (a == Some(HMAC_SHA256) && complete ==>
                  var n := ParseU64(e.value);
                  && (r == Err(BadExpires) <==> n.None?)
                  && (r == Err(ExpiresTooLong) <==> n.Some? && n.value > MAX_EXPIRES)
                  && (r == Err(BadEncoding) <==> n.Some? && n.value <= MAX_EXPIRES && lossy(Decode(cred.value)) != Decode(cred.value))
                  && (r == Err(BadCredential) <==>
                        n.Some? && n.value <= MAX_EXPIRES && lossy(Decode(cred.value)) == Decode(cred.value)
                        && |Split(Decode(cred.value), '/')| < 5))
  {
    hide Split, SplitN, Decode, ParseU64, HMAC_SHA256, MAX_EXPIRES;
    if cred.Some? {
      FewParts(Decode(cred.value), 5);
    }
  }

  /** The first thing that is wrong: the algorithm, an absent parameter, the expiry, the credential. */
  lemma ParseErrorIs(lossy: Bytes -> Bytes, query: Bytes, a: Option<Bytes>, cred: Option<Bytes>, d: Option<Bytes>, e: Option<Bytes>,
                     h: Option<Bytes>, g: Option<Bytes>)
    requires var params := Split(query, '&');
             && IsLast(params, ALGORITHM, a) && IsLast(params, CREDENTIAL, cred) && IsLast(params, DATE, d)
             && IsLast(params, EXPIRES, e) && IsLast(params, SIGNED_HEADERS, h) && IsLast(params, SIGNATURE, g)
    ensures var r, complete := Parse(lossy, query), cred.Some? && d.Some? && e.Some? && h.Some? && g.Some?;
            && (r == Err(WrongAlgorithm) <==> a.Some? && a.value != HMAC_SHA256)
            && (r == Err(Missing) <==> a.None? || (a.value == HMAC_SHA256 && !complete))
            && (a == Some(HMAC_SHA256) && complete ==>
                  var n := ParseU64(e.value);
                  && (r == Err(BadExpires) <==> n.None?)
                  && (r == Err(ExpiresTooLong) <==> n.Some? && n.value > MAX_EXPIRES)
                  && (r == Err(BadEncoding) <==> n.Some? && n.value <= MAX_EXPIRES && lossy(Decode(cred.value)) != Decode(cred.value))
                  && (r == Err(BadCredential) <==>
                        n.Some? && n.value <= MAX_EXPIRES && lossy(Decode(cred.value)) == Decode(cred.value)
                        && |Split(Decode(cred.value), '/')| < 5))
  {
    hide *;
    var params := Split(query, '&');
    ParseIs(lossy, query);
    LastValueIs(params, ALGORITHM, a);
    LastValueIs(params, CREDENTIAL, cred);
    LastValueIs(params, DATE, d);
    LastValueIs(params, EXPIRES, e);
    LastValueIs(params, SIGNED_HEADERS, h);
    LastValueIs(params, SIGNATURE, g);
    InterpretErrorIs(lossy, a, cred, d, e, h, g);
  }

  lemma ParseIs(lossy: Bytes -> Bytes, query: Bytes)
    ensures var params := Split(query, '&');
            Parse(lossy, query) == Interpret(lossy, LastValue(params, ALGORITHM), LastValue(params, CREDENTIAL), LastValue(params, DATE),
                                             LastValue(params, EXPIRES), LastValue(params, SIGNED_HEADERS), LastValue(params, SIGNATURE))
  {
    hide Interpret, LastValue, Split;
  }

  lemma {:induction false} FewParts(s: Bytes, n: nat)
    requires n > 0
    ensures |SplitN(s, '/', n)| == if |Split(s, '/')| < n then |Split(s, '/')| else n
    decreases n
  {
    hide Find;
    var i := Find(s, '/');
    if n > 1 && i < |s| {
      FewParts(s[i + 1..], n - 1);
    }
  }

  /** No two of the six names are equal up to case, so each parameter sets at most one variable. */
  lemma NamesDiffer(key: Bytes)
    ensures EqIgnoreCase(key, ALGORITHM) ==>
              !EqIgnoreCase(key, CREDENTIAL) && !EqIgnoreCase(key, DATE) && !EqIgnoreCase(key, EXPIRES)
              && !EqIgnoreCase(key, SIGNED_HEADERS) && !EqIgnoreCase(key, SIGNATURE)
    ensures EqIgnoreCase(key, CREDENTIAL) ==>
              !EqIgnoreCase(key, DATE) && !EqIgnoreCase(key, EXPIRES) && !EqIgnoreCase(key, SIGNED_HEADERS) && !EqIgnoreCase(key, SIGNATURE)
    ensures EqIgnoreCase(key, DATE) ==>
              !EqIgnoreCase(key, EXPIRES) && !EqIgnoreCase(key, SIGNED_HEADERS) && !EqIgnoreCase(key, SIGNATURE)
    ensures EqIgnoreCase(key, EXPIRES) ==> !EqIgnoreCase(key, SIGNED_HEADERS) && !EqIgnoreCase(key, SIGNATURE)
    ensures EqIgnoreCase(key, SIGNED_HEADERS) ==> !EqIgnoreCase(key, SIGNATURE)
  {
    assert ALGORITHM[6] == 'A' && SIGNATURE[6] == 'S';
  }

  /** `parse_presigned_query`: one pass, in which later parameters override earlier ones. */
  method ParsePresignedQuery(lossy: Bytes -> Bytes, query: Bytes) returns (r: Result<(ParsedAuth, Bytes, nat), ParseError>)
    ensures r == Parse(lossy, query)
  {
    hide EqIgnoreCase, SplitOnce, Interpret;
    var algorithm, credential, date, expires, signedHeaders, signature := None, None, None, None, None, None;
    var params := Split(query, '&');
    for i := 0 to |params|
      invariant algorithm == LastValue(params[..i], ALGORITHM)
      invariant credential == LastValue(params[..i], CREDENTIAL)
      invariant date == LastValue(params[..i], DATE)
      invariant expires == LastValue(params[..i], EXPIRES)
      invariant signedHeaders == LastValue(params[..i], SIGNED_HEADERS)
      invariant signature == LastValue(params[..i], SIGNATURE)
    {
      assert params[..i + 1][..i] == params[..i];
      var (key, val) := SplitOnce(params[i], '=');
      NamesDiffer(key);
      if EqIgnoreCase(key, ALGORITHM) {
        algorithm := Some(val);
      } else if EqIgnoreCase(key, CREDENTIAL) {
        credential := Some(val);
      } else if EqIgnoreCase(key, DATE) {
        date := Some(val);
      } else if EqIgnoreCase(key, EXPIRES) {
        expires := Some(val);
      } else if EqIgnoreCase(key, SIGNED_HEADERS) {
        signedHeaders := Some(val);
      } else if EqIgnoreCase(key, SIGNATURE) {
        signature := Some(val);
      }
    }
    assert params[..|params|] == params;
    r := Interpret(lossy, algorithm, credential, date, expires, signedHeaders, signature);
  }

  /** Bitwise exclusive or and or of `bits`-bit numbers. */
  function Xor(x: nat, y: nat, bits: nat): nat {
    if bits == 0 then 0 else (x % 2 + y % 2) % 2 + 2 * Xor(x / 2, y / 2, bits - 1)
  }

  function Or(x: nat, y: nat, bits: nat): nat {
    if bits == 0 then 0 else (if x % 2 == 1 || y % 2 == 1 then 1 else 0) + 2 * Or(x / 2, y / 2, bits - 1)
  }

  function Pow2(bits: nat): nat {
    if bits == 0 then 1 else 2 * Pow2(bits - 1)
  }

  lemma {:induction false} XorIsZeroIff(x: nat, y: nat, bits: nat)
    requires x < Pow2(bits) && y < Pow2(bits)
    ensures Xor(x, y, bits) == 0 <==> x == y
    ensures Xor(x, y, bits) < Pow2(bits)
  {
    if bits > 0 {
      XorIsZeroIff(x / 2, y / 2, bits - 1);
    }
  }

  lemma {:induction false} OrIsZeroIff(x: nat, y: nat, bits: nat)
    requires x < Pow2(bits) && y < Pow2(bits)
    ensures Or(x, y, bits) == 0 <==> x == 0 && y == 0
    ensures Or(x, y, bits) < Pow2(bits)
  {
    if bits > 0 {
      OrIsZeroIff(x / 2, y / 2, bits - 1);
    }
  }

  lemma Pow2Of8()
    ensures Pow2(8) == 256
  {
    assert Pow2(4) == 16;
    assert Pow2(6) == 64;
  }

  /** `constant_time_eq`: the differences of all bytes are accumulated, and equality is decided at the end. */
  method ConstantTimeEq(a: Bytes, b: Bytes) returns (eq: bool)
    ensures eq <==> a == b
  {
    hide Xor, Or, Pow2;
    if |a| != |b| {
      return false;
    }
    Pow2Of8();
    var diff: nat := 0;
    for i := 0 to |a|
      invariant diff < 256
      invariant diff == 0 <==> a[..i] == b[..i]
    {
      var x, y := a[i] as int, b[i] as int;
      XorIsZeroIff(x, y, 8);
      OrIsZeroIff(diff, Xor(x, y, 8), 8);
      assert a[..i + 1] == a[..i] + [a[i]] && b[..i + 1] == b[..i] + [b[i]];
      diff := Or(diff, Xor(x, y, 8), 8);
    }
    assert a[..|a|] == a && b[..|b|] == b;
    eq := diff == 0;
  }

  function Accepts(c: Crypto, verb: Bytes, uri: Bytes, query: Bytes, headers: Headers, parsed: ParsedAuth, timestamp: Bytes, secret: Bytes): bool {
    var filtered := Join(Unsigned(Split(query, '&')), '&');
    var request := CanonicalRequest(verb, CanonicalUri(c.lossy, uri), Canonical(c.lossy, filtered),
                                    HeaderLines(headers, parsed.signedHeaders), Join(parsed.signedHeaders, ';'));
    Sign(c, secret, request, timestamp, parsed.date, parsed.region) == parsed.signature
  }

  /** `verify_presigned_signature` */
  method VerifyPresignedSignature(c: Crypto, verb: Bytes, uri: Bytes, query: Bytes, headers: Headers, parsed: ParsedAuth,
                                  timestamp: Bytes, secret: Bytes)
    returns (ok: bool)
    ensures ok == Accepts(c, verb, uri, query, headers, parsed, timestamp, secret)
  {
    var filtered := Join(Unsigned(Split(query, '&')), '&');
    var lines := CanonicalHeaders(headers, parsed.signedHeaders);
    var request := CanonicalRequest(verb, CanonicalUri(c.lossy, uri), Canonical(c.lossy, filtered), lines, Join(parsed.signedHeaders, ';'));
    var computed := Sign(c, secret, request, timestamp, parsed.date, parsed.region);
    ok := ConstantTimeEq(computed, parsed.signature);
  }
}
