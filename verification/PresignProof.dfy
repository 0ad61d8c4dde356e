/** A presigned URL parses back to what was signed, and the server accepts it. */
module PresignProof {
  import opened Base
  import opened Text
  import opened CanonicalQuery
  import opened Presign

  predicate AllUnreserved(s: Bytes) {
    forall i :: 0 <= i < |s| ==> Unreserved(s[i])
  }

  lemma EncodedAsIs(s: Bytes)
    requires AllUnreserved(s)
    ensures Encode(s) == s
  {
    EncodeUnreserved(s);
  }

  /** Well-formed input: UTF-8 text, identifiers without slashes, a host without surrounding blanks. */
  ghost predicate Presignable(c: Crypto, i: Input) {
    && IsLossy(c.lossy)
    && c.lossy(i.bucket) == i.bucket
    && (forall j :: 0 <= j < |Split(i.key, '/')| ==> c.lossy(Split(i.key, '/')[j]) == Split(i.key, '/')[j])
    && c.lossy(CredentialOf(i)) == CredentialOf(i)
    && Free(i.accessKey, '/') && Free(i.region, '/')
    && AllUnreserved(i.dateStamp) && AllUnreserved(i.amzDate)
    && Trim(i.host) == i.host
    && i.expires <= MAX_EXPIRES
  }

  // ---------------------------------------------------------------- the parameters

  function SignaturePair(c: Crypto, i: Input): Pair {
    Pair(SIGNATURE, SignatureOf(c, i))
  }

  function AllParams(c: Crypto, i: Input): seq<Pair> {
    SignedParams(i) + [SignaturePair(c, i)]
  }

  lemma NamesAreUnreserved()
    ensures AllUnreserved(ALGORITHM) && AllUnreserved(CREDENTIAL) && AllUnreserved(DATE) && AllUnreserved(EXPIRES)
    ensures AllUnreserved(SIGNED_HEADERS) && AllUnreserved(SIGNATURE) && AllUnreserved(HOST) && AllUnreserved(HMAC_SHA256)
  {
  }

  lemma {:induction false} JoinSnoc(parts: seq<Bytes>, x: Bytes, sep: Octet)
    requires parts != []
    ensures Join(parts + [x], sep) == Join(parts, sep) + [sep] + x
  {
    if |parts| == 1 {
      assert (parts + [x])[1..] == [x];
    } else {
      JoinSnoc(parts[1..], x, sep);
      assert (parts + [x])[1..] == parts[1..] + [x];
      assert parts[0] + [sep] + (Join(parts[1..], sep) + [sep] + x) == (parts[0] + [sep] + Join(parts[1..], sep)) + [sep] + x;
    }
  }

  lemma RenderAllSnoc(ps: seq<Pair>, p: Pair)
    ensures RenderAll(ps + [p]) == RenderAll(ps) + [RenderPair(p)]
  {
    hide RenderPair;
    forall i | 0 <= i < |ps| + 1
      ensures RenderAll(ps + [p])[i] == (RenderAll(ps) + [RenderPair(p)])[i]
    {
      if i < |ps| {
        assert (ps + [p])[i] == ps[i];
      }
    }
  }

  /** The query of the URL is the rendering of all six parameters. */
  lemma QueryIsRender(c: Crypto, i: Input)
    ensures PresignedQuery(c, i) == Render(AllParams(c, i))
  {
    hide SignatureOf, RenderPair, RenderAll, Join, SignedParams;
    RenderAllSnoc(SignedParams(i), SignaturePair(c, i));
    assert SignedParams(i) != [] by { FiveParams(i); }
    JoinSnoc(RenderAll(SignedParams(i)), RenderPair(SignaturePair(c, i)), '&');
    RenderSignature(c, i);
  }

  lemma FiveParams(i: Input)
    ensures |SignedParams(i)| == 5
  {
  }

  lemma RenderSignature(c: Crypto, i: Input)
    ensures RenderPair(SignaturePair(c, i)) == SIGNATURE + EQUALS + SignatureOf(c, i)
  {
    hide SignatureOf, Encode;
    NamesAreUnreserved();
    EncodeUnreserved(SIGNATURE);
    SignatureIsHex(c, i);
    EncodeUnreserved(SignatureOf(c, i));
  }

  lemma SignatureIsHex(c: Crypto, i: Input)
    ensures AllUnreserved(SignatureOf(c, i))
  {
    hide CanonicalRequest, Render, SignedParams, ObjectPath, StringToSign, SigningKey;
  }

  // ---------------------------------------------------------------- reading the parameters back

  ghost predicate PlainKeys(ps: seq<Pair>) {
    forall j :: 0 <= j < |ps| ==> AllUnreserved(ps[j].key)
  }

  lemma RenderedParam(p: Pair)
    requires AllUnreserved(p.key)
    ensures KeyOf(RenderPair(p)) == p.key && SplitOnce(RenderPair(p), '=').1 == Encode(p.value)
  {
    hide RenderPair, SplitOnce, Encode;
    RenderedPair(p);
    EncodeUnreserved(p.key);
  }

  lemma {:induction false} FieldIs(ps: seq<Pair>, j: nat, name: Bytes)
    requires PlainKeys(ps) && j < |ps| && EqIgnoreCase(ps[j].key, name)
    requires forall k :: j < k < |ps| ==> !EqIgnoreCase(ps[k].key, name)
    ensures LastValue(RenderAll(ps), name) == Some(Encode(ps[j].value))
    decreases |ps|
  {
    hide EqIgnoreCase, AllUnreserved, RenderPair, RenderAll, SplitOnce, KeyOf, Encode;
    var init, last := ps[..|ps| - 1], ps[|ps| - 1];
    assert ps == init + [last];
    RenderAllSnoc(init, last);
    RenderedParam(last);
    assert RenderAll(ps)[..|ps| - 1] == RenderAll(init);
    if j < |ps| - 1 {
      FieldIs(init, j, name);
    }
  }

  lemma {:induction false} UnsignedKeeps(ps: seq<Pair>)
    requires PlainKeys(ps)
    requires forall k :: 0 <= k < |ps| ==> !EqIgnoreCase(ps[k].key, SIGNATURE)
    ensures Unsigned(RenderAll(ps)) == RenderAll(ps)
    decreases |ps|
  {
    hide EqIgnoreCase, AllUnreserved, RenderPair, SplitOnce, KeyOf;
    if ps != [] {
      var init, last := ps[..|ps| - 1], ps[|ps| - 1];
      assert ps == init + [last];
      RenderAllSnoc(init, last);
      RenderedParam(last);
      assert RenderAll(ps)[..|ps| - 1] == RenderAll(init);
      UnsignedKeeps(init);
    }
  }

  lemma UnsignedDropsSignature(c: Crypto, i: Input)
    ensures Unsigned(RenderAll(AllParams(c, i))) == RenderAll(SignedParams(i))
  {
    NamesAreUnreserved();
    NamesDifferAll();
    hide RenderPair, SignatureOf, AllUnreserved, EqIgnoreCase, KeyOf;
    var five, last := SignedParams(i), SignaturePair(c, i);
    RenderAllSnoc(five, last);
    RenderedParam(last);
    UnsignedKeeps(five);
    assert RenderAll(AllParams(c, i))[..5] == RenderAll(five);
  }

  lemma NamesDifferAll()
    ensures !EqIgnoreCase(ALGORITHM, SIGNATURE) && !EqIgnoreCase(CREDENTIAL, SIGNATURE) && !EqIgnoreCase(DATE, SIGNATURE)
    ensures !EqIgnoreCase(EXPIRES, SIGNATURE) && !EqIgnoreCase(SIGNED_HEADERS, SIGNATURE) && EqIgnoreCase(SIGNATURE, SIGNATURE)
    ensures !EqIgnoreCase(CREDENTIAL, ALGORITHM) && !EqIgnoreCase(DATE, ALGORITHM) && !EqIgnoreCase(EXPIRES, ALGORITHM)
    ensures !EqIgnoreCase(SIGNED_HEADERS, ALGORITHM) && !EqIgnoreCase(SIGNATURE, ALGORITHM) && EqIgnoreCase(ALGORITHM, ALGORITHM)
    ensures !EqIgnoreCase(DATE, CREDENTIAL) && !EqIgnoreCase(EXPIRES, CREDENTIAL) && !EqIgnoreCase(SIGNED_HEADERS, CREDENTIAL)
    ensures !EqIgnoreCase(SIGNATURE, CREDENTIAL) && EqIgnoreCase(CREDENTIAL, CREDENTIAL)
    ensures !EqIgnoreCase(EXPIRES, DATE) && !EqIgnoreCase(SIGNED_HEADERS, DATE) && !EqIgnoreCase(SIGNATURE, DATE) && EqIgnoreCase(DATE, DATE)
    ensures !EqIgnoreCase(SIGNED_HEADERS, EXPIRES) && !EqIgnoreCase(SIGNATURE, EXPIRES) && EqIgnoreCase(EXPIRES, EXPIRES)
    ensures !EqIgnoreCase(SIGNATURE, SIGNED_HEADERS) && EqIgnoreCase(SIGNED_HEADERS, SIGNED_HEADERS)
  {
    assert ALGORITHM[6] == 'A' && SIGNATURE[6] == 'S';
  }

  /** Every field of the query is found again. */
  lemma Fields(c: Crypto, i: Input)
    ensures var ps := RenderAll(AllParams(c, i));
            && LastValue(ps, ALGORITHM) == Some(Encode(HMAC_SHA256))
            && LastValue(ps, CREDENTIAL) == Some(Encode(CredentialOf(i)))
            && LastValue(ps, DATE) == Some(Encode(i.amzDate))
            && LastValue(ps, EXPIRES) == Some(Encode(DigitsOf(i.expires)))
            && LastValue(ps, SIGNED_HEADERS) == Some(Encode(HOST))
            && LastValue(ps, SIGNATURE) == Some(Encode(SignatureOf(c, i)))
  {
    NamesAreUnreserved();
    NamesDifferAll();
    hide RenderAll, SignatureOf, AllUnreserved, EqIgnoreCase, Encode, CredentialOf, LastValue;
    var ps := AllParams(c, i);
    assert PlainKeys(ps);
    FieldIs(ps, 0, ALGORITHM);
    FieldIs(ps, 1, CREDENTIAL);
    FieldIs(ps, 2, DATE);
    FieldIs(ps, 3, EXPIRES);
    FieldIs(ps, 4, SIGNED_HEADERS);
    FieldIs(ps, 5, SIGNATURE);
  }

  lemma SplitNStep(a: Bytes, rest: Bytes, n: nat)
    requires Free(a, '/') && n > 1
    ensures SplitN(a + SLASH + rest, '/', n) == [a] + SplitN(rest, '/', n - 1)
  {
    hide Find;
    FindAt(a, '/', rest);
  }

  lemma ScopeSplits(i: Input)
    requires Free(i.accessKey, '/') && Free(i.region, '/') && AllUnreserved(i.dateStamp)
    ensures SplitN(CredentialOf(i), '/', 5) == [i.accessKey, i.dateStamp, i.region, SERVICE, TERMINATOR]
  {
    ScopeParts(i);
    hide *;
    var tail2 := SERVICE + SLASH + TERMINATOR;
    var tail1 := i.region + SLASH + tail2;
    var tail0 := i.dateStamp + SLASH + tail1;
    SplitNStep(SERVICE, TERMINATOR, 2);
    SplitNStep(i.region, tail2, 3);
    SplitNStep(i.dateStamp, tail1, 4);
    SplitNStep(i.accessKey, tail0, 5);
    FiveParts(i.accessKey, i.dateStamp, i.region, SERVICE, TERMINATOR);
  }

  lemma ScopeParts(i: Input)
    requires AllUnreserved(i.dateStamp)
    ensures Free(i.dateStamp, '/') && Free(SERVICE, '/') && SplitN(TERMINATOR, '/', 1) == [TERMINATOR]
    ensures CredentialOf(i) == i.accessKey + SLASH + (i.dateStamp + SLASH + (i.region + SLASH + (SERVICE + SLASH + TERMINATOR)))
  {
  }

  lemma FiveParts(a: Bytes, b: Bytes, c: Bytes, d: Bytes, e: Bytes)
    ensures [a] + ([b] + ([c] + ([d] + [e]))) == [a, b, c, d, e]
  {
  }

  lemma HostAlone()
    ensures Split(HOST, ';') == [HOST] && Join([HOST], ';') == HOST
  {
    FindNone(HOST, ';');
  }

  lemma InterpretIs(lossy: Bytes -> Bytes, credential: Bytes, parts: seq<Bytes>, date: Bytes, expires: Bytes, n: nat,
                    signedHeaders: Bytes, signature: Bytes)
    requires lossy(Decode(credential)) == Decode(credential) && SplitN(Decode(credential), '/', 5) == parts && |parts| == 5
    requires ParseU64(expires) == Some(n) && n <= MAX_EXPIRES
    ensures Interpret(lossy, Some(HMAC_SHA256), Some(credential), Some(date), Some(expires), Some(signedHeaders), Some(signature))
            == Ok((ParsedAuth(parts[0], parts[1], parts[2], Split(signedHeaders, ';'), signature), date, n))
  {
    hide Decode, SplitN, ParseU64, Split;
  }

  lemma InterpretFields(lossy: Bytes -> Bytes, cred: Bytes, i: Input, signature: Bytes)
    requires Decode(cred) == CredentialOf(i) && lossy(CredentialOf(i)) == CredentialOf(i)
    requires Free(i.accessKey, '/') && Free(i.region, '/') && AllUnreserved(i.dateStamp) && i.expires <= MAX_EXPIRES
    ensures Interpret(lossy, Some(HMAC_SHA256), Some(cred), Some(i.amzDate), Some(DigitsOf(i.expires)), Some(HOST), Some(signature))
            == Ok((ParsedAuth(i.accessKey, i.dateStamp, i.region, [HOST], signature), i.amzDate, i.expires))
  {
    ParseDigits(i.expires);
    hide *;
    ScopeSplits(i);
    HostAlone();
    InterpretIs(lossy, cred, [i.accessKey, i.dateStamp, i.region, SERVICE, TERMINATOR], i.amzDate, DigitsOf(i.expires), i.expires,
                HOST, signature);
  }

  /** Parsing the query gives back the credential, the date and the expiry that were signed. */
  lemma ParsesBack(c: Crypto, i: Input)
    requires Presignable(c, i)
    ensures Parse(c.lossy, PresignedQuery(c, i))
            == Ok((ParsedAuth(i.accessKey, i.dateStamp, i.region, [HOST], SignatureOf(c, i)), i.amzDate, i.expires))
  {
    QueryIsRender(c, i);
    SplitRender(AllParams(c, i));
    Fields(c, i);
    NamesAreUnreserved();
    SignatureIsHex(c, i);
    DigitsAreUnreserved(i.expires);
    hide PresignedQuery, Render, RenderAll, LastValue, CredentialOf, Encode, Decode, DigitsOf, SignatureOf, Trim, Split, Interpret;
    hide IsLossy, Free, AllUnreserved, AllParams;
    EncodedAsIs(HMAC_SHA256);
    EncodedAsIs(i.amzDate);
    EncodedAsIs(DigitsOf(i.expires));
    EncodedAsIs(HOST);
    EncodedAsIs(SignatureOf(c, i));
    DecodeEncode(CredentialOf(i));
    InterpretFields(c.lossy, Encode(CredentialOf(i)), i, SignatureOf(c, i));
  }

  // ---------------------------------------------------------------- the verifier builds the same strings

  lemma {:induction false} LePrefix(prefix: Bytes, a: Bytes, b: Bytes)
    requires Le(a, b)
    ensures Le(prefix + a, prefix + b)
  {
    if prefix == [] {
      assert prefix + a == a && prefix + b == b;
    } else {
      LePrefix(prefix[1..], a, b);
      assert (prefix + a)[1..] == prefix[1..] + a && (prefix + b)[1..] == prefix[1..] + b;
    }
  }

  const X_AMZ: Bytes := "X-Amz-"

  lemma PairBefore(p: Pair, q: Pair, tail: Bytes, other: Bytes)
    requires p.key == X_AMZ + tail && q.key == X_AMZ + other
    requires tail != [] && other != [] && tail[0] < other[0]
    ensures PairLe(p, q)
  {
    LePrefix(X_AMZ, tail, other);
    assert p.key[6] == tail[0] && q.key[6] == other[0];
  }

  lemma SortedFive(a: Pair, b: Pair, c: Pair, d: Pair, e: Pair)
    requires PairLe(a, b) && PairLe(b, c) && PairLe(c, d) && PairLe(d, e)
    ensures Sorted([a, b, c, d, e])
  {
    hide PairLe;
    PairLeTransitive(a, b, c);
    PairLeTransitive(b, c, d);
    PairLeTransitive(c, d, e);
    PairLeTransitive(a, b, d);
    PairLeTransitive(b, c, e);
    PairLeTransitive(a, b, e);
  }

  lemma NameTails()
    ensures ALGORITHM == X_AMZ + "Algorithm" && CREDENTIAL == X_AMZ + "Credential" && DATE == X_AMZ + "Date"
    ensures EXPIRES == X_AMZ + "Expires" && SIGNED_HEADERS == X_AMZ + "SignedHeaders"
  {
  }

  /** The signer lists its parameters in the order the verifier sorts them into. */
  lemma SignedParamsAreSorted(i: Input)
    ensures Sorted(SignedParams(i))
  {
    NameTails();
    hide Le, CredentialOf, DigitsOf, Sorted, PairLe, ALGORITHM, CREDENTIAL, DATE, EXPIRES, SIGNED_HEADERS, X_AMZ;
    var ps := SignedParams(i);
    PairBefore(ps[0], ps[1], "Algorithm", "Credential");
    PairBefore(ps[1], ps[2], "Credential", "Date");
    PairBefore(ps[2], ps[3], "Date", "Expires");
    PairBefore(ps[3], ps[4], "Expires", "SignedHeaders");
    SortedFive(ps[0], ps[1], ps[2], ps[3], ps[4]);
  }

  lemma UnreservedIsAscii(s: Bytes)
    requires AllUnreserved(s)
    ensures IsAscii(s)
  {
  }

  lemma SignedParamsAreFixed(c: Crypto, i: Input)
    requires Presignable(c, i)
    ensures forall j :: 0 <= j < |SignedParams(i)| ==> Fixed(c.lossy, SignedParams(i)[j])
  {
    NamesAreUnreserved();
    hide AllUnreserved, IsAscii, CredentialOf, DigitsOf, Trim, Split, Free;
    UnreservedIsAscii(ALGORITHM);
    UnreservedIsAscii(CREDENTIAL);
    UnreservedIsAscii(DATE);
    UnreservedIsAscii(EXPIRES);
    UnreservedIsAscii(SIGNED_HEADERS);
    UnreservedIsAscii(HMAC_SHA256);
    UnreservedIsAscii(HOST);
    UnreservedIsAscii(i.amzDate);
    DigitsAreUnreserved(i.expires);
    UnreservedIsAscii(DigitsOf(i.expires));
  }

  lemma DigitsAreUnreserved(n: nat)
    ensures AllUnreserved(DigitsOf(n))
  {
  }

  /** The verifier's canonical query, computed from the received query, is the one that was signed. */
  lemma SameQuery(c: Crypto, i: Input)
    requires Presignable(c, i)
    ensures Canonical(c.lossy, Join(Unsigned(Split(PresignedQuery(c, i), '&')), '&')) == Render(SignedParams(i))
  {
    var ps := SignedParams(i);
    QueryIsRender(c, i);
    SplitRender(AllParams(c, i));
    UnsignedDropsSignature(c, i);
    SignedParamsAreFixed(c, i);
    SignedParamsAreSorted(i);
    hide PresignedQuery, RenderAll, Unsigned, Split, Sort, Sorted, Pairs, Canonical, Join, Fixed, SignedParams;
    PairsOfRender(c.lossy, ps);
    CanonicalIsRender(c.lossy, Render(ps));
    SortSorts(ps);
    SortedUnique(Sort(ps), ps);
  }

  lemma CleanIsFree(s: Bytes)
    requires AllClean(s)
    ensures Free(s, '/') && Free(s, '?')
  {
  }

  function PathParts(i: Input): seq<Bytes> {
    [[], Encode(i.bucket)] + EncodeSegments(Split(i.key, '/'))
  }

  lemma PathIsJoin(i: Input)
    ensures ObjectPath(i) == Join(PathParts(i), '/')
  {
    hide Encode, Split, EncodeSegments;
    var segments := EncodeSegments(Split(i.key, '/'));
    var parts := PathParts(i);
    assert parts[1..] == [Encode(i.bucket)] + segments;
    assert parts[1..][1..] == segments;
    var empty: Bytes := [];
    assert empty + ['/'] == SLASH;
    assert SLASH + (Encode(i.bucket) + SLASH + Join(segments, '/')) == ObjectPath(i);
  }

  lemma PathPartsFree(i: Input)
    ensures AllFree(PathParts(i), '/') && AllFree(PathParts(i), '?')
  {
    hide Encode, Split, AllClean, Free;
    var none: Bytes := [];
    CleanNothing();
    CleanIsFree(none);
    EncodeIsClean(i.bucket);
    CleanIsFree(Encode(i.bucket));
    var segments := Split(i.key, '/');
    forall j | 0 <= j < |segments|
      ensures Free(EncodeSegments(segments)[j], '/') && Free(EncodeSegments(segments)[j], '?')
    {
      EncodeIsClean(segments[j]);
      CleanIsFree(Encode(segments[j]));
    }
  }

  lemma CleanNothing()
    ensures AllClean([])
  {
  }

  lemma RecodeEncoded(lossy: Bytes -> Bytes, s: Bytes)
    requires lossy(s) == s
    ensures Recode(lossy, Encode(s)) == Encode(s)
  {
    hide Encode, Decode;
    DecodeEncode(s);
  }

  lemma RecodeParts(c: Crypto, i: Input)
    requires Presignable(c, i)
    ensures RecodeAll(c.lossy, PathParts(i)) == PathParts(i)
  {
    hide Encode, Split, Recode, AllUnreserved, Trim, CredentialOf, Free;
    var parts := PathParts(i);
    var segments := Split(i.key, '/');
    var none: Bytes := [];
    EmptyIsFixed(c);
    forall j | 0 <= j < |parts|
      ensures Recode(c.lossy, parts[j]) == parts[j]
    {
      if j == 0 {
        RecodeEncoded(c.lossy, none);
      } else if j == 1 {
        RecodeEncoded(c.lossy, i.bucket);
      } else {
        assert parts[j] == EncodeSegments(segments)[j - 2] == Encode(segments[j - 2]);
        RecodeEncoded(c.lossy, segments[j - 2]);
      }
    }
  }

  lemma EmptyIsFixed(c: Crypto)
    requires IsLossy(c.lossy)
    ensures c.lossy([]) == [] && Encode([]) == []
  {
    assert IsAscii([]);
  }

  /** Decoding and re-encoding the path of the URL changes nothing. */
  lemma SamePath(c: Crypto, i: Input)
    requires Presignable(c, i)
    ensures CanonicalUri(c.lossy, ObjectPath(i)) == ObjectPath(i)
  {
    var path := ObjectPath(i);
    PathIsJoin(i);
    PathPartsFree(i);
    RecodeParts(c, i);
    assert |path| >= 2;
    hide ObjectPath, PathParts, RecodeAll, AllFree, Join, Presignable, Find, Free;
    JoinFree(PathParts(i), '/', '?');
    assert Split(path, '?') == [path] by { FindNone(path, '?'); }
    assert |PathParts(i)| > 0 by { PathHasParts(i); }
    SplitJoin(PathParts(i), '/');
  }

  lemma PathHasParts(i: Input)
    ensures |PathParts(i)| > 0
  {
  }

  lemma SameHeaders(i: Input, headers: Headers)
    requires HOST in headers && headers[HOST] == [i.host] && Trim(i.host) == i.host
    ensures HeaderLines(headers, [HOST]) == HOST + COLON + i.host + NEWLINE
  {
    hide Trim;
    assert [HOST][..0] == [];
    assert seq(|HOST|, k requires 0 <= k < |HOST| => Lower(HOST[k])) == HOST;
    assert Join([i.host], ',') == i.host;
  }

  /**
   For every well-formed object, host, credential and moment: the URL that the console hands out parses
   back to what was signed, and the server accepts it under the same secret.
   */
  lemma PresignedUrlIsAccepted(c: Crypto, i: Input, headers: Headers)
    requires Presignable(c, i)
    requires HOST in headers && headers[HOST] == [i.host]
    ensures var r := Parse(c.lossy, PresignedQuery(c, i));
            && r.Ok?
            && r.value.0.accessKey == i.accessKey && r.value.0.date == i.dateStamp && r.value.0.region == i.region
            && r.value.1 == i.amzDate && r.value.2 == i.expires
            && Accepts(c, GET, ObjectPath(i), PresignedQuery(c, i), headers, r.value.0, r.value.1, i.secret)
  {
    ParsesBack(c, i);
    SameQuery(c, i);
    SamePath(c, i);
    SameHeaders(i, headers);
    HostAlone();
    hide Parse, PresignedQuery, Canonical, CanonicalUri, HeaderLines, Sign, CanonicalRequest, Render, ObjectPath, Join, Split, Unsigned, Presignable;
  }

  /** The two halves run against each other. */
  method PresignThenVerify(c: Crypto, i: Input, headers: Headers) returns (parsed: ParsedAuth, timestamp: Bytes, expires: nat, ok: bool)
    requires Presignable(c, i)
    requires HOST in headers && headers[HOST] == [i.host]
    ensures ok && parsed.accessKey == i.accessKey && parsed.date == i.dateStamp && parsed.region == i.region
    ensures timestamp == i.amzDate && expires == i.expires
  {
    PresignedUrlIsAccepted(c, i, headers);
    hide *;
    var query := PresignedQuery(c, i);
    var r := ParsePresignedQuery(c.lossy, query);
    parsed, timestamp, expires := r.value.0, r.value.1, r.value.2;
    ok := VerifyPresignedSignature(c, GET, ObjectPath(i), query, headers, parsed, timestamp, i.secret);
  }
}
