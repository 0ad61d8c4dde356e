/** Listing a bucket page by page: `ListObjects` with markers and `ListObjectsV2` with continuation tokens. */
module Pagination {
  import opened Base
  import opened Text

  /** An object as listed; `info` stands for size, entity tag and date. */
  datatype Entry = Entry(key: Bytes, info: Bytes)

  predicate Less(a: Bytes, b: Bytes) {
    !Le(b, a)
  }

  lemma LessTransitive(a: Bytes, b: Bytes, c: Bytes)
    requires Less(a, b) && Less(b, c)
    ensures Less(a, c)
  {
    LeTotal(b, c);
    if Le(c, a) {
      LeTransitive(b, c, a);
    }
  }

  lemma LessIrreflexive(a: Bytes)
    ensures !Less(a, a)
  {
    LeTotal(a, a);
  }

  ghost predicate StrictlySorted(os: seq<Entry>) {
    forall i, j :: 0 <= i < j < |os| ==> Less(os[i].key, os[j].key)
  }

  predicate After(start: Option<Bytes>, o: Entry) {
    start.Some? ==> Less(start.value, o.key)
  }

  /** The objects whose key comes after `start`. */
  function Beyond(os: seq<Entry>, start: Option<Bytes>): seq<Entry> {
    if os == [] then [] else (if After(start, os[0]) then [os[0]] else []) + Beyond(os[1..], start)
  }

  // ---- folding keys at a delimiter ----

  predicate OccursAt(s: Bytes, pattern: Bytes, i: nat) {
    i + |pattern| <= |s| && s[i..i + |pattern|] == pattern
  }

  /** `str::find`: where a pattern first occurs. */
  function FindPattern(s: Bytes, pattern: Bytes, i: nat): (r: Option<nat>)
    requires i <= |s|
    ensures r.Some? ==> i <= r.value && OccursAt(s, pattern, r.value)
    ensures forall j :: i <= j < (if r.Some? then r.value else |s| + 1) ==> !OccursAt(s, pattern, j)
    decreases |s| - i
  {
    if OccursAt(s, pattern, i) then Some(i) else if i == |s| then None else FindPattern(s, pattern, i + 1)
  }

  /** The common prefix that a key is folded into, if it is. */
  function Folded(key: Bytes, prefix: Bytes, delimiter: Option<Bytes>): Option<Bytes> {
    if delimiter.None? || |key| < |prefix| then None else
    var suffix := key[|prefix|..];
    var pos := FindPattern(suffix, delimiter.value, 0);
    if pos.None? then None else Some(prefix + suffix[..pos.value + |delimiter.value|])
  }

  /** The pattern, letter by letter, from place `i` on. */
  predicate Stands(s: Bytes, i: nat, pattern: Bytes) {
    i + |pattern| <= |s| && forall k :: 0 <= k < |pattern| ==> s[i + k] == pattern[k]
  }

  /** The key has the delimiter somewhere behind the prefix, and `c` is the key up to the end of its first occurrence there. */
  ghost predicate FoldsInto(key: Bytes, prefix: Bytes, delimiter: Option<Bytes>, c: Bytes) {
    && delimiter.Some?
    && exists i: nat :: |prefix| <= i && Stands(key, i, delimiter.value)
                     && (forall j: nat :: |prefix| <= j < i ==> !Stands(key, j, delimiter.value))
                     && c == prefix + key[|prefix|..i + |delimiter.value|]
  }

  lemma OccursBehind(key: Bytes, n: nat, pattern: Bytes, j: nat)
    requires n <= |key|
    ensures OccursAt(key[n..], pattern, j) <==> Stands(key, n + j, pattern)
  {
    if n + j + |pattern| <= |key| {
      var t := key[n..][j..j + |pattern|];
      assert |t| == |pattern| && forall k :: 0 <= k < |pattern| ==> t[k] == key[n + j + k];
    }
  }

  lemma FoldedIff(key: Bytes, prefix: Bytes, delimiter: Option<Bytes>, c: Bytes)
    requires |prefix| <= |key|
    ensures Folded(key, prefix, delimiter) == Some(c) <==> FoldsInto(key, prefix, delimiter, c)
  {
    if delimiter.Some? {
      var d, n := delimiter.value, |prefix|;
      var r := FindPattern(key[n..], d, 0);
      hide OccursAt, FindPattern, Stands;
      forall j: nat | n <= j
        ensures Stands(key, j, d) <==> OccursAt(key[n..], d, j - n)
      {
        OccursBehind(key, n, d, j - n);
      }
      BoundOfPlaces(key, d);
      if r.Some? {
        assert key[n..][..r.value + |d|] == key[n..n + r.value + |d|];
        assert Stands(key, n + r.value, d);
        forall i: nat | n <= i && Stands(key, i, d) && (forall j: nat :: n <= j < i ==> !Stands(key, j, d))
          ensures i == n + r.value
        {
          assert OccursAt(key[n..], d, i - n);
        }
      }
    }
  }

  lemma BoundOfPlaces(key: Bytes, d: Bytes)
    ensures forall j: nat :: Stands(key, j, d) ==> j + |d| <= |key|
  {
  }

  lemma {:induction false} WhatIsListed(os: seq<Entry>, prefix: Bytes, delimiter: Option<Bytes>)
    requires LongEnough(os, prefix)
    ensures forall o :: o in Contents(os, prefix, delimiter) <==> o in os && forall c :: !FoldsInto(o.key, prefix, delimiter, c)
    ensures forall c :: c in Prefixes(os, prefix, delimiter) <==> exists o :: o in os && FoldsInto(o.key, prefix, delimiter, c)
  {
    hide FoldsInto, Folded;
    if os != [] {
      var front, last := os[..|os| - 1], os[|os| - 1];
      assert os == front + [last];
      WhatIsListed(front, prefix, delimiter);
      forall c
        ensures Folded(last.key, prefix, delimiter) == Some(c) <==> FoldsInto(last.key, prefix, delimiter, c)
      {
        FoldedIff(last.key, prefix, delimiter, c);
      }
    }
  }

  lemma {:induction false} ContentsSorted(os: seq<Entry>, prefix: Bytes, delimiter: Option<Bytes>)
    requires StrictlySorted(os)
    ensures StrictlySorted(Contents(os, prefix, delimiter))
    ensures forall o :: o in Contents(os, prefix, delimiter) ==> o in os
  {
    hide Less, Folded;
    if os != [] {
      var front := os[..|os| - 1];
      ContentsSorted(front, prefix, delimiter);
      var c := Contents(front, prefix, delimiter);
      forall i | 0 <= i < |c| ensures Less(c[i].key, os[|os| - 1].key) {
        assert c[i] in front;
        var j :| 0 <= j < |front| && front[j] == c[i];
        assert os[j] == c[i];
      }
    }
  }

  /** Every key is at least as long as the prefix that was asked for. */
  ghost predicate LongEnough(os: seq<Entry>, prefix: Bytes) {
    forall o :: o in os ==> |prefix| <= |o.key|
  }

  /** The objects that are listed themselves. */
  function Contents(os: seq<Entry>, prefix: Bytes, delimiter: Option<Bytes>): (r: seq<Entry>)
    ensures |r| <= |os|
  {
    if os == [] then [] else
    var n := |os| - 1;
    Contents(os[..n], prefix, delimiter) + if Folded(os[n].key, prefix, delimiter).None? then [os[n]] else []
  }

  /** The common prefixes that stand for the others. */
  function Prefixes(os: seq<Entry>, prefix: Bytes, delimiter: Option<Bytes>): set<Bytes> {
    if os == [] then {} else
    var n := |os| - 1;
    var folded := Folded(os[n].key, prefix, delimiter);
    Prefixes(os[..n], prefix, delimiter) + if folded.Some? then {folded.value} else {}
  }

  lemma NothingToSplit(prefix: Bytes, delimiter: Option<Bytes>)
    ensures Contents([], prefix, delimiter) == [] && Prefixes([], prefix, delimiter) == {}
  {
  }

  lemma SplitOneMore(os: seq<Entry>, o: Entry, prefix: Bytes, delimiter: Option<Bytes>)
    ensures var folded := Folded(o.key, prefix, delimiter);
            && Contents(os + [o], prefix, delimiter) == Contents(os, prefix, delimiter) + (if folded.None? then [o] else [])
            && Prefixes(os + [o], prefix, delimiter) == Prefixes(os, prefix, delimiter) + if folded.Some? then {folded.value} else {}
  {
    hide Folded;
    assert (os + [o])[..|os|] == os;
  }

  /** `split_by_delimiter`. Slicing at the prefix needs keys that are long enough. */
  method SplitByDelimiter(page: seq<Entry>, prefix: Bytes, delimiter: Option<Bytes>)
    returns (contents: seq<Entry>, prefixes: set<Bytes>)
    requires LongEnough(page, prefix)
    ensures contents == Contents(page, prefix, delimiter) && prefixes == Prefixes(page, prefix, delimiter)
    ensures |contents| + |prefixes| <= |page|
    // an object is listed or folded, as the text of its key says
    ensures forall o :: o in contents <==> o in page && forall c :: !FoldsInto(o.key, prefix, delimiter, c)
    ensures forall c :: c in prefixes <==> exists o :: o in page && FoldsInto(o.key, prefix, delimiter, c)
    ensures StrictlySorted(page) ==> StrictlySorted(contents)
  {
    hide Folded, Contents, Prefixes, FoldsInto, StrictlySorted;
    NothingToSplit(prefix, delimiter);
    WhatIsListed(page, prefix, delimiter);
    if StrictlySorted(page) {
      ContentsSorted(page, prefix, delimiter);
    }
    contents, prefixes := [], {};
    for i := 0 to |page|
      invariant contents == Contents(page[..i], prefix, delimiter) && prefixes == Prefixes(page[..i], prefix, delimiter)
      invariant |contents| + |prefixes| <= i
    {
      SplitOneMore(page[..i], page[i], prefix, delimiter);
      assert page[..i + 1] == page[..i] + [page[i]];
      var folded := Folded(page[i].key, prefix, delimiter);
      if folded.Some? {
        prefixes := prefixes + {folded.value};
      } else {
        contents := contents + [page[i]];
      }
    }
    assert page[..|page|] == page;
  }

  // ---- one page ----

  /** The objects of the page from `start` on, and the key to go on from. */
  function PageOf(os: seq<Entry>, start: Option<Bytes>, maxKeys: nat): seq<Entry> {
    Take(Beyond(os, start), maxKeys)
  }

  function Truncated(os: seq<Entry>, start: Option<Bytes>, maxKeys: nat): bool {
    |Beyond(os, start)| > maxKeys
  }

  function NextStart(os: seq<Entry>, start: Option<Bytes>, maxKeys: nat): Option<Bytes> {
    var page := PageOf(os, start, maxKeys);
    if Truncated(os, start, maxKeys) && page != [] then Some(page[|page| - 1].key) else None
  }

  datatype Listing = Listing(contents: seq<Entry>, prefixes: set<Bytes>, truncated: bool, next: Option<Bytes>)

  ghost predicate IsPage(r: Listing, os: seq<Entry>, prefix: Bytes, delimiter: Option<Bytes>, maxKeys: nat, start: Option<Bytes>) {
    var all := Beyond(os, start);
    var page := if |all| <= maxKeys then all else all[..maxKeys];
    && r.contents == Contents(page, prefix, delimiter) && r.prefixes == Prefixes(page, prefix, delimiter)
    && (r.truncated <==> |all| > maxKeys)
    && r.next == (if |all| > maxKeys > 0 then Some(page[maxKeys - 1].key) else None)
    && |r.contents| + |r.prefixes| <= maxKeys
  }

  /** What a page is, in the terms of the pages that follow each other. */
  lemma IsPageOf(r: Listing, os: seq<Entry>, prefix: Bytes, delimiter: Option<Bytes>, maxKeys: nat, start: Option<Bytes>)
    ensures IsPage(r, os, prefix, delimiter, maxKeys, start) <==>
              var page := PageOf(os, start, maxKeys);
              && r.contents == Contents(page, prefix, delimiter) && r.prefixes == Prefixes(page, prefix, delimiter)
              && r.truncated == Truncated(os, start, maxKeys) && r.next == NextStart(os, start, maxKeys)
              && |r.contents| + |r.prefixes| <= maxKeys
  {
    hide Beyond, Contents, Prefixes;
    var all := Beyond(os, start);
    assert PageOf(os, start, maxKeys) == if |all| <= maxKeys then all else all[..maxKeys];
  }

  /** `list_objects_v1`. */
  method ListObjectsV1(os: seq<Entry>, prefix: Bytes, delimiter: Option<Bytes>, maxKeys: nat, marker: Option<Bytes>) returns (r: Listing)
    requires LongEnough(os, prefix)
    ensures IsPage(r, os, prefix, delimiter, maxKeys, marker)
  {
    var filtered := Beyond(os, marker);
    BeyondIsWithin(os, marker);
    hide Beyond, Contents, Prefixes;
    var page := Take(filtered, maxKeys);
    assert forall o :: o in page ==> o in filtered;
    var contents, prefixes := SplitByDelimiter(page, prefix, delimiter);
    var truncated := |filtered| > maxKeys;
    var next := if truncated && page != [] then Some(page[|page| - 1].key) else None;
    r := Listing(contents, prefixes, truncated, next);
    IsPageOf(r, os, prefix, delimiter, maxKeys, marker);
  }

  /** Base64 and UTF-8, both library code; decoding may fail. */
  datatype Codec = Codec(encode: Bytes -> Bytes, decode: Bytes -> Option<Bytes>)

  ghost predicate RoundTrips(c: Codec) {
    forall s :: c.decode(c.encode(s)) == Some(s)
  }

  function EffectiveStart(c: Codec, token: Option<Bytes>, startAfter: Option<Bytes>): Option<Bytes> {
    if token.Some? && c.decode(token.value).Some? then c.decode(token.value) else startAfter
  }

  /** `list_objects_v2`. A token that cannot be decoded is as good as none. */
  method ListObjectsV2(c: Codec, os: seq<Entry>, prefix: Bytes, delimiter: Option<Bytes>, maxKeys: nat,
                       startAfter: Option<Bytes>, token: Option<Bytes>) returns (r: Listing)
    requires LongEnough(os, prefix)
    ensures var start := if token.Some? && c.decode(token.value).Some? then c.decode(token.value) else startAfter;
            var next := NextStart(os, start, maxKeys);
            && IsPage(r.(next := next), os, prefix, delimiter, maxKeys, start)
            && r.next == (if next.Some? then Some(c.encode(next.value)) else None)
            // handing the token back goes on where the page ended, whatever was given as `start-after`
            && (RoundTrips(c) && r.next.Some? ==> EffectiveStart(c, r.next, startAfter) == next)
  {
    hide Beyond, Contents, Prefixes, IsPage;
    r := ListObjectsV1(os, prefix, delimiter, maxKeys, EffectiveStart(c, token, startAfter));
    assert r == r.(next := r.next);
    IsPageOf(r, os, prefix, delimiter, maxKeys, EffectiveStart(c, token, startAfter));
    r := r.(next := if r.next.Some? then Some(c.encode(r.next.value)) else None);
  }

  lemma {:induction false} BeyondIsWithin(os: seq<Entry>, start: Option<Bytes>)
    ensures forall o :: o in Beyond(os, start) <==> o in os && After(start, o)
    ensures |Beyond(os, start)| <= |os|
  {
    hide After;
    if os != [] {
      BeyondIsWithin(os[1..], start);
      assert os == [os[0]] + os[1..];
    }
  }

  // ---- following the pages ----

  /** A listing without duplicates stays one when its beginning is left out. */
  lemma {:induction false} BeyondSorted(os: seq<Entry>, start: Option<Bytes>)
    requires StrictlySorted(os)
    ensures StrictlySorted(Beyond(os, start))
  {
    hide Less, After;
    if os != [] {
      BeyondSorted(os[1..], start);
      BeyondIsWithin(os[1..], start);
      var rest := Beyond(os[1..], start);
      forall o | o in rest ensures Less(os[0].key, o.key) {
        var i :| 0 <= i < |os[1..]| && os[1..][i] == o;
        assert os[i + 1] == o;
      }
      forall j | 0 <= j < |rest| ensures Less(os[0].key, rest[j].key) {
        assert rest[j] in rest;
      }
    }
  }

  /** What lies beyond a later start lies beyond the earlier one. */
  lemma {:induction false} BeyondTwice(os: seq<Entry>, start: Option<Bytes>, later: Bytes)
    requires start.Some? ==> Less(start.value, later)
    ensures Beyond(Beyond(os, start), Some(later)) == Beyond(os, Some(later))
  {
    if os != [] {
      BeyondTwice(os[1..], start, later);
      if After(Some(later), os[0]) && start.Some? {
        LessTransitive(start.value, later, os[0].key);
      }
      hide After, Less;
      if After(start, os[0]) {
        assert ([os[0]] + Beyond(os[1..], start))[1..] == Beyond(os[1..], start);
      } else {
        assert Beyond(os, start) == Beyond(os[1..], start);
      }
    }
  }

  /** Beyond the key of one of its objects, a listing goes on with the next object. */
  lemma {:induction false} BeyondOwnKey(os: seq<Entry>, i: nat)
    requires StrictlySorted(os) && i < |os|
    ensures Beyond(os, Some(os[i].key)) == os[i + 1..]
  {
    hide Less;
    if i == 0 {
      LessIrreflexive(os[0].key);
      BeyondAll(os[1..], os[0].key);
    } else {
      BeyondOwnKey(os[1..], i - 1);
      NotBoth(os[0].key, os[i].key);
    }
  }

  lemma NotBoth(a: Bytes, b: Bytes)
    requires Less(a, b)
    ensures !Less(b, a)
  {
    LeTotal(a, b);
  }

  lemma {:induction false} BeyondAll(os: seq<Entry>, start: Bytes)
    requires forall i :: 0 <= i < |os| ==> Less(start, os[i].key)
    ensures Beyond(os, Some(start)) == os
  {
    hide Less;
    if os != [] {
      BeyondAll(os[1..], start);
    }
  }

  /** The key handed out with a page starts the next page right after it. */
  lemma NextPageContinues(os: seq<Entry>, start: Option<Bytes>, maxKeys: nat)
    requires StrictlySorted(os) && maxKeys > 0 && Truncated(os, start, maxKeys)
    ensures NextStart(os, start, maxKeys).Some?
    ensures Beyond(os, NextStart(os, start, maxKeys)) == Beyond(os, start)[maxKeys..]
  {
    var all := Beyond(os, start);
    var last := all[maxKeys - 1];
    BeyondSorted(os, start);
    BeyondIsWithin(os, start);
    assert last in all;
    BeyondTwice(os, start, last.key);
    BeyondOwnKey(all, maxKeys - 1);
  }

  /** The pages that a client gets by following the listing from `start` to its end. */
  ghost function Pages(os: seq<Entry>, start: Option<Bytes>, maxKeys: nat): seq<seq<Entry>>
    requires StrictlySorted(os) && maxKeys > 0
    decreases |Beyond(os, start)|
  {
    if Truncated(os, start, maxKeys) then
      NextPageContinues(os, start, maxKeys);
      [PageOf(os, start, maxKeys)] + Pages(os, NextStart(os, start, maxKeys), maxKeys)
    else
      [PageOf(os, start, maxKeys)]
  }

  ghost function Joined(pages: seq<seq<Entry>>): seq<Entry> {
    if pages == [] then [] else pages[0] + Joined(pages[1..])
  }

  /** Following the pages gives every object after `start` once and in order; no page but the last is short. */
  lemma {:induction false} PagesCoverListing(os: seq<Entry>, start: Option<Bytes>, maxKeys: nat)
    requires StrictlySorted(os) && maxKeys > 0
    ensures Joined(Pages(os, start, maxKeys)) == Beyond(os, start)
    ensures forall i :: 0 <= i < |Pages(os, start, maxKeys)| - 1 ==> |Pages(os, start, maxKeys)[i]| == maxKeys
    decreases |Beyond(os, start)|
  {
    hide Beyond, StrictlySorted;
    if Truncated(os, start, maxKeys) {
      NextPageContinues(os, start, maxKeys);
      PagesCoverListing(os, NextStart(os, start, maxKeys), maxKeys);
      JoinedStep(PageOf(os, start, maxKeys), Pages(os, NextStart(os, start, maxKeys), maxKeys));
    } else {
      JoinedStep(PageOf(os, start, maxKeys), []);
    }
  }

  lemma JoinedStep(page: seq<Entry>, rest: seq<seq<Entry>>)
    ensures Joined([page] + rest) == page + Joined(rest)
    ensures Joined([]) == []
  {
    assert ([page] + rest)[1..] == rest;
  }

  // ---- what the pages list ----

  lemma {:induction false} SplitConcat(a: seq<Entry>, b: seq<Entry>, prefix: Bytes, delimiter: Option<Bytes>)
    ensures Contents(a + b, prefix, delimiter) == Contents(a, prefix, delimiter) + Contents(b, prefix, delimiter)
    ensures Prefixes(a + b, prefix, delimiter) == Prefixes(a, prefix, delimiter) + Prefixes(b, prefix, delimiter)
    decreases |b|
  {
    hide Contents, Prefixes, Folded;
    NothingToSplit(prefix, delimiter);
    if b == [] {
      assert a + b == a;
    } else {
      var n := |b| - 1;
      SplitConcat(a, b[..n], prefix, delimiter);
      SplitOneMore(b[..n], b[n], prefix, delimiter);
      SplitOneMore(a + b[..n], b[n], prefix, delimiter);
      assert b[..n] + [b[n]] == b && a + b[..n] + [b[n]] == a + b;
    }
  }

  ghost function JoinedContents(pages: seq<seq<Entry>>, prefix: Bytes, delimiter: Option<Bytes>): seq<Entry> {
    if pages == [] then [] else Contents(pages[0], prefix, delimiter) + JoinedContents(pages[1..], prefix, delimiter)
  }

  ghost function JoinedPrefixes(pages: seq<seq<Entry>>, prefix: Bytes, delimiter: Option<Bytes>): set<Bytes> {
    if pages == [] then {} else Prefixes(pages[0], prefix, delimiter) + JoinedPrefixes(pages[1..], prefix, delimiter)
  }

  lemma {:induction false} JoinedIsSplitOfJoined(pages: seq<seq<Entry>>, prefix: Bytes, delimiter: Option<Bytes>)
    ensures JoinedContents(pages, prefix, delimiter) == Contents(Joined(pages), prefix, delimiter)
    ensures JoinedPrefixes(pages, prefix, delimiter) == Prefixes(Joined(pages), prefix, delimiter)
  {
    hide Contents, Prefixes;
    NothingToSplit(prefix, delimiter);
    if pages != [] {
      JoinedIsSplitOfJoined(pages[1..], prefix, delimiter);
      SplitConcat(pages[0], Joined(pages[1..]), prefix, delimiter);
    }
  }

  /** The pages together list what one endless page would: the same objects in order, the same common prefixes. */
  lemma PagesListEverything(os: seq<Entry>, start: Option<Bytes>, maxKeys: nat, prefix: Bytes, delimiter: Option<Bytes>)
    requires StrictlySorted(os) && maxKeys > 0
    ensures JoinedContents(Pages(os, start, maxKeys), prefix, delimiter) == Contents(Beyond(os, start), prefix, delimiter)
    ensures JoinedPrefixes(Pages(os, start, maxKeys), prefix, delimiter) == Prefixes(Beyond(os, start), prefix, delimiter)
  {
    hide Beyond, Pages, Contents, Prefixes, Joined, JoinedContents, JoinedPrefixes;
    PagesCoverListing(os, start, maxKeys);
    JoinedIsSplitOfJoined(Pages(os, start, maxKeys), prefix, delimiter);
  }

  /** A truncated page comes with a key to go on from, in every listing, iff pages may hold anything. */
  lemma CanGoOnIff(maxKeys: nat)
    ensures (forall os: seq<Entry>, start: Option<Bytes> :: Truncated(os, start, maxKeys) ==> NextStart(os, start, maxKeys).Some?)
            <==> maxKeys > 0
  {
    hide Beyond;
    if maxKeys == 0 {
      var os := [Entry([], [])];
      OneObject(os[0]);
      assert Truncated(os, None, maxKeys) && NextStart(os, None, maxKeys).None?;
    }
  }

  lemma OneObject(o: Entry)
    ensures Beyond([o], None) == [o]
  {
    assert [o][1..] == [];
  }

  // ---- common prefixes on several pages ----

  /** Strings between two that start alike start so too. */
  lemma {:induction false} BetweenStartsWith(a: Bytes, b: Bytes, c: Bytes, p: Bytes)
    requires Le(a, b) && Le(b, c) && StartsWith(a, p) && StartsWith(c, p)
    ensures StartsWith(b, p)
  {
    if p != [] {
      assert a[0] == p[0] == c[0];
      assert a[1..][..|p| - 1] == p[1..] && c[1..][..|p| - 1] == p[1..];
      BetweenStartsWith(a[1..], b[1..], c[1..], p[1..]);
      assert b[..|p|] == [b[0]] + b[1..][..|p| - 1];
    }
  }

  lemma OccursAlike(s: Bytes, t: Bytes, n: nat, pattern: Bytes, j: nat)
    requires n <= |s| && n <= |t| && s[..n] == t[..n] && j + |pattern| <= n
    ensures OccursAt(s, pattern, j) <==> OccursAt(t, pattern, j)
  {
    assert s[j..j + |pattern|] == s[..n][j..j + |pattern|];
    assert t[j..j + |pattern|] == t[..n][j..j + |pattern|];
  }

  lemma FoundAlike(s: Bytes, t: Bytes, pattern: Bytes, pos: nat)
    requires FindPattern(s, pattern, 0) == Some(pos)
    requires pos + |pattern| <= |t| && s[..pos + |pattern|] == t[..pos + |pattern|]
    ensures FindPattern(t, pattern, 0) == Some(pos)
  {
    hide FindPattern, OccursAt;
    Fits(s, pattern);
    FirstOccurrence(s, pattern, pos);
    forall j | 0 <= j <= pos ensures OccursAt(t, pattern, j) <==> OccursAt(s, pattern, j) {
      OccursAlike(s, t, pos + |pattern|, pattern, j);
    }
    FirstOccurrence(t, pattern, pos);
  }

  /** The first occurrence is the one before which there is none. */
  lemma FirstOccurrence(s: Bytes, pattern: Bytes, pos: nat)
    ensures FindPattern(s, pattern, 0) == Some(pos) <==> OccursAt(s, pattern, pos) && forall j :: 0 <= j < pos ==> !OccursAt(s, pattern, j)
  {
    assert OccursAt(s, pattern, pos) ==> pos <= |s|;
    ghost var r := FindPattern(s, pattern, 0);
    hide OccursAt;
  }

  /** A key that starts with a common prefix is folded into it. */
  lemma FoldedByStart(key: Bytes, other: Bytes, prefix: Bytes, delimiter: Option<Bytes>)
    requires StartsWith(key, prefix) && StartsWith(other, prefix) && Folded(key, prefix, delimiter).Some?
    ensures StartsWith(key, Folded(key, prefix, delimiter).value)
    ensures StartsWith(other, Folded(key, prefix, delimiter).value) ==> Folded(other, prefix, delimiter) == Folded(key, prefix, delimiter)
  {
    hide FindPattern, OccursAt;
    var d, suffix := delimiter.value, key[|prefix|..];
    var pos, c := FindPattern(suffix, d, 0).value, Folded(key, prefix, delimiter).value;
    var n := pos + |d|;
    assert n <= |suffix| by { Fits(suffix, d); }
    StartAndRest(key, prefix, n);
    if StartsWith(other, c) {
      StartAndRest(other, prefix, n);
      FoundAlike(suffix, other[|prefix|..], d, pos);
    }
  }

  lemma Fits(s: Bytes, pattern: Bytes)
    requires FindPattern(s, pattern, 0).Some?
    ensures FindPattern(s, pattern, 0).value + |pattern| <= |s|
  {
  }

  lemma StartAndRest(s: Bytes, p: Bytes, n: nat)
    requires StartsWith(s, p) && |p| + n <= |s|
    ensures s[..|p| + n] == p + s[|p|..][..n]
    ensures s[..|p| + n][|p|..] == s[|p|..][..n]
  {
  }

  lemma {:induction false} PrefixesAre(os: seq<Entry>, prefix: Bytes, delimiter: Option<Bytes>, c: Bytes)
    ensures c in Prefixes(os, prefix, delimiter) <==> exists o :: o in os && Folded(o.key, prefix, delimiter) == Some(c)
  {
    hide Folded;
    if os != [] {
      PrefixesAre(os[..|os| - 1], prefix, delimiter, c);
      assert os == os[..|os| - 1] + [os[|os| - 1]];
    }
  }

  /** What is folded alike lies together. */
  lemma FoldedBetween(a: Bytes, b: Bytes, c: Bytes, prefix: Bytes, delimiter: Option<Bytes>)
    requires Less(a, b) && (b == c || Less(b, c))
    requires StartsWith(a, prefix) && StartsWith(b, prefix) && StartsWith(c, prefix)
    requires Folded(a, prefix, delimiter).Some? && Folded(a, prefix, delimiter) == Folded(c, prefix, delimiter)
    ensures Folded(b, prefix, delimiter) == Folded(a, prefix, delimiter)
  {
    hide Folded, FindPattern, Le;
    LeTotal(a, b);
    LeTotal(b, c);
    FoldedByStart(a, b, prefix, delimiter);
    FoldedByStart(c, b, prefix, delimiter);
    BetweenStartsWith(a, b, c, Folded(a, prefix, delimiter).value);
  }

  /** A common prefix is reported both before and after a page boundary iff both objects at the boundary fold into it. */
  lemma RepeatedPrefixIff(os: seq<Entry>, n: nat, prefix: Bytes, delimiter: Option<Bytes>, c: Bytes)
    requires StrictlySorted(os) && 0 < n < |os|
    requires forall o :: o in os ==> StartsWith(o.key, prefix)
    ensures c in Prefixes(os[..n], prefix, delimiter) && c in Prefixes(os[n..], prefix, delimiter)
            <==> Folded(os[n - 1].key, prefix, delimiter) == Folded(os[n].key, prefix, delimiter) == Some(c)
  {
    hide Folded, StartsWith, Less, Prefixes;
    PrefixesAre(os[..n], prefix, delimiter, c);
    PrefixesAre(os[n..], prefix, delimiter, c);
    assert os[n - 1] == os[..n][n - 1] && os[n] == os[n..][0];
    if c in Prefixes(os[..n], prefix, delimiter) && c in Prefixes(os[n..], prefix, delimiter) {
      var o :| o in os[..n] && Folded(o.key, prefix, delimiter) == Some(c);
      var o' :| o' in os[n..] && Folded(o'.key, prefix, delimiter) == Some(c);
      Boundary(os, n, o, o', prefix, delimiter);
    }
  }

  lemma Boundary(os: seq<Entry>, n: nat, o: Entry, o': Entry, prefix: Bytes, delimiter: Option<Bytes>)
    requires StrictlySorted(os) && 0 < n < |os| && o in os[..n] && o' in os[n..]
    requires forall o :: o in os ==> StartsWith(o.key, prefix)
    requires o in os && o' in os && Folded(o.key, prefix, delimiter).Some?
    requires Folded(o.key, prefix, delimiter) == Folded(o'.key, prefix, delimiter)
    ensures Folded(os[n - 1].key, prefix, delimiter) == Folded(o.key, prefix, delimiter) == Folded(os[n].key, prefix, delimiter)
  {
    hide Folded, Less;
    var i :| 0 <= i < n && os[..n][i] == o;
    var j :| 0 <= j < |os| - n && os[n..][j] == o';
    assert os[i] == o && os[n + j] == o';
    if i < n - 1 {
      FoldedBetween(o.key, os[n - 1].key, o'.key, prefix, delimiter);
    }
    FoldedBetween(o.key, os[n].key, o'.key, prefix, delimiter);
  }
}
