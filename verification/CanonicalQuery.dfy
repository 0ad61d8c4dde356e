/** The canonical query string of an AWS signature: decode, sort, re-encode. */
module CanonicalQuery {
  import opened Base
  import opened Text

  /** A decoded parameter. */
  datatype Pair = Pair(key: Bytes, value: Bytes)

  /**
   `decode_utf8_lossy` replaces malformed UTF-8 and leaves well-formed text alone, so doing it twice
   is doing it once. The replacement itself is library code.
   */
  ghost predicate IsLossy(lossy: Bytes -> Bytes) {
    && (forall s :: IsAscii(s) ==> lossy(s) == s)
    && (forall s :: lossy(lossy(s)) == lossy(s))
  }

  function DecodePair(lossy: Bytes -> Bytes, param: Bytes): Pair {
    var (k, v) := SplitOnce(param, '=');
    Pair(lossy(Decode(k)), lossy(Decode(v)))
  }

  function DecodeOne(lossy: Bytes -> Bytes, param: Bytes): seq<Pair> {
    if param == [] then [] else [DecodePair(lossy, param)]
  }

  /** The decoded parameters of a query, in order; empty ones are skipped. */
  function DecodeAll(lossy: Bytes -> Bytes, params: seq<Bytes>): seq<Pair> {
    if params == [] then [] else DecodeOne(lossy, params[0]) + DecodeAll(lossy, params[1..])
  }

  function Pairs(lossy: Bytes -> Bytes, query: Bytes): seq<Pair> {
    DecodeAll(lossy, Split(query, '&'))
  }

  // ---------------------------------------------------------------- sorting

  /** The order of `(String, String)`: by key, then by value. */
  predicate PairLe(a: Pair, b: Pair) {
    if a.key == b.key then Le(a.value, b.value) else Le(a.key, b.key)
  }

  lemma PairLeTotal(a: Pair, b: Pair)
    ensures PairLe(a, b) || PairLe(b, a)
  {
    LeTotal(a.key, b.key);
    LeTotal(a.value, b.value);
  }

  lemma PairLeReflexive(a: Pair)
    ensures PairLe(a, a)
  {
    PairLeTotal(a, a);
  }

  lemma PairLeAntisymmetric(a: Pair, b: Pair)
    requires PairLe(a, b) && PairLe(b, a)
    ensures a == b
  {
    if a.key == b.key {
      LeAntisymmetric(a.value, b.value);
    } else {
      LeAntisymmetric(a.key, b.key);
    }
  }

  lemma PairLeTransitive(a: Pair, b: Pair, c: Pair)
    requires PairLe(a, b) && PairLe(b, c)
    ensures PairLe(a, c)
  {
    if a.key == b.key == c.key {
      LeTransitive(a.value, b.value, c.value);
    } else {
      if a.key != b.key && b.key != c.key {
        LeTransitive(a.key, b.key, c.key);
      }
      if a.key == c.key && a.key != b.key {
        LeAntisymmetric(a.key, b.key);
      }
    }
  }

  predicate Sorted(ps: seq<Pair>) {
    forall i, j :: 0 <= i < j < |ps| ==> PairLe(ps[i], ps[j])
  }

  function Insert(p: Pair, ps: seq<Pair>): seq<Pair> {
    if ps == [] then [p] else if PairLe(p, ps[0]) then [p] + ps else [ps[0]] + Insert(p, ps[1..])
  }

  function Sort(ps: seq<Pair>): seq<Pair> {
    if ps == [] then [] else Insert(ps[0], Sort(ps[1..]))
  }

  lemma {:induction false} InsertAdds(p: Pair, ps: seq<Pair>)
    ensures multiset(Insert(p, ps)) == multiset{p} + multiset(ps)
  {
    hide PairLe;
    if ps != [] && !PairLe(p, ps[0]) {
      InsertAdds(p, ps[1..]);
      MultisetOfTail(ps);
    }
  }

  lemma SortedCons(p: Pair, ps: seq<Pair>)
    requires Sorted(ps) && forall q :: q in ps ==> PairLe(p, q)
    ensures Sorted([p] + ps)
  {
    hide PairLe;
  }

  lemma HeadIsLeast(ps: seq<Pair>, p: Pair)
    requires Sorted(ps) && ps != [] && PairLe(p, ps[0])
    ensures forall q :: q in ps ==> PairLe(p, q)
  {
    hide PairLe;
    forall q | q in ps
      ensures PairLe(p, q)
    {
      var j :| 0 <= j < |ps| && ps[j] == q;
      if j > 0 {
        PairLeTransitive(p, ps[0], q);
      }
    }
  }

  lemma {:induction false} InsertSorted(p: Pair, ps: seq<Pair>)
    requires Sorted(ps)
    ensures Sorted(Insert(p, ps))
  {
    hide PairLe, Sorted;
    if ps == [] {
      SortedEmpty();
      SortedCons(p, []);
      assert [p] + [] == [p];
    } else if PairLe(p, ps[0]) {
      HeadIsLeast(ps, p);
      SortedCons(p, ps);
    } else {
      SortedTail(ps);
      InsertSorted(p, ps[1..]);
      var tail := Insert(p, ps[1..]);
      forall q | q in tail
        ensures PairLe(ps[0], q)
      {
        InsertAdds(p, ps[1..]);
        assert q in multiset(tail);
        if q == p {
          PairLeTotal(p, ps[0]);
        } else {
          PairLeReflexive(ps[0]);
          HeadIsLeast(ps, ps[0]);
        }
      }
      SortedCons(ps[0], tail);
    }
  }

  lemma {:induction false} SortSorts(ps: seq<Pair>)
    ensures Sorted(Sort(ps)) && multiset(Sort(ps)) == multiset(ps)
  {
    hide PairLe, Sorted;
    if ps == [] {
      SortedEmpty();
    } else {
      SortSorts(ps[1..]);
      InsertSorted(ps[0], Sort(ps[1..]));
      InsertAdds(ps[0], Sort(ps[1..]));
      MultisetOfTail(ps);
    }
  }

  lemma SortedEmpty()
    ensures Sorted([])
  {
  }

  /** Two sorted sequences with the same elements are the same sequence. */
  lemma {:induction false} SortedUnique(a: seq<Pair>, b: seq<Pair>)
    requires Sorted(a) && Sorted(b) && multiset(a) == multiset(b)
    ensures a == b
  {
    hide PairLe, Sorted;
    assert |a| == |multiset(a)| == |multiset(b)| == |b|;
    if a != [] {
      assert a[0] in multiset(b) && b[0] in multiset(a);
      SameLeast(a, b);
      MultisetOfTail(a);
      MultisetOfTail(b);
      SortedTail(a);
      SortedTail(b);
      SortedUnique(a[1..], b[1..]);
      SameCons(a, b);
    }
  }

  lemma SortedTail(a: seq<Pair>)
    requires Sorted(a) && a != []
    ensures Sorted(a[1..])
  {
  }

  lemma SameLeast(a: seq<Pair>, b: seq<Pair>)
    requires Sorted(a) && Sorted(b) && |a| > 0 && |b| > 0 && a[0] in b && b[0] in a
    ensures a[0] == b[0]
  {
    hide PairLe;
    var i :| 0 <= i < |b| && b[i] == a[0];
    var j :| 0 <= j < |a| && a[j] == b[0];
    if i > 0 && j > 0 {
      PairLeAntisymmetric(a[0], b[0]);
    }
  }

  // ---------------------------------------------------------------- rendering

  function RenderPair(p: Pair): Bytes {
    Encode(p.key) + ['='] + Encode(p.value)
  }

  function RenderAll(ps: seq<Pair>): (r: seq<Bytes>)
    ensures |r| == |ps| && forall i :: 0 <= i < |ps| ==> r[i] == RenderPair(ps[i])
  {
    if ps == [] then [] else [RenderPair(ps[0])] + RenderAll(ps[1..])
  }

  function Render(ps: seq<Pair>): Bytes {
    Join(RenderAll(ps), '&')
  }

  /** `canonical_query_string` */
  function Canonical(lossy: Bytes -> Bytes, query: Bytes): Bytes {
    if query == [] then [] else Render(Sort(Pairs(lossy, query)))
  }

  lemma RenderedPair(p: Pair)
    ensures Free(RenderPair(p), '&') && RenderPair(p) != []
    ensures SplitOnce(RenderPair(p), '=') == (Encode(p.key), Encode(p.value))
  {
    hide Find, Encode;
    EncodeIsClean(p.key);
    EncodeIsClean(p.value);
    FindAt(Encode(p.key), '=', Encode(p.value));
  }

  lemma RenderedAllFree(ps: seq<Pair>)
    ensures AllFree(RenderAll(ps), '&')
  {
    hide Free, RenderPair;
    forall i | 0 <= i < |ps|
      ensures Free(RenderAll(ps)[i], '&')
    {
      RenderedPair(ps[i]);
    }
  }

  /** A rendered query splits back into its rendered parameters. */
  lemma SplitRender(ps: seq<Pair>)
    requires ps != []
    ensures Split(Render(ps), '&') == RenderAll(ps)
  {
    hide AllFree, Split, Join;
    RenderedAllFree(ps);
    SplitJoin(RenderAll(ps), '&');
  }

  lemma NonEmptyRender(ps: seq<Pair>)
    requires ps != []
    ensures Render(ps) != []
  {
    hide RenderPair;
    RenderedPair(ps[0]);
  }

  lemma RenderPairInjective(a: Pair, b: Pair)
    requires RenderPair(a) == RenderPair(b)
    ensures a == b
  {
    hide RenderPair, SplitOnce, Encode;
    RenderedPair(a);
    RenderedPair(b);
    EncodeInjective(a.key, b.key);
    EncodeInjective(a.value, b.value);
  }

  /** Different parameter lists never render to the same string. */
  lemma RenderInjective(a: seq<Pair>, b: seq<Pair>)
    requires Render(a) == Render(b)
    ensures a == b
  {
    hide RenderPair, Render;
    RenderOfNothing();
    if a == [] || b == [] {
      if a != [] {
        NonEmptyRender(a);
      }
      if b != [] {
        NonEmptyRender(b);
      }
    } else {
      SplitRender(a);
      SplitRender(b);
      forall i | 0 <= i < |a|
        ensures a[i] == b[i]
      {
        assert RenderAll(a)[i] == RenderAll(b)[i];
        RenderPairInjective(a[i], b[i]);
      }
    }
  }

  lemma RenderOfNothing()
    ensures Render([]) == []
  {
  }

  lemma CanonicalIsRender(lossy: Bytes -> Bytes, query: Bytes)
    ensures Canonical(lossy, query) == Render(Sort(Pairs(lossy, query)))
  {
    if query == [] {
      assert Split(query, '&') == [[]];
      assert Pairs(lossy, query) == [];
    }
  }

  /**
   Two queries have the same canonical form if and only if they carry the same decoded parameters,
   each the same number of times.
   */
  lemma SameCanonicalIff(lossy: Bytes -> Bytes, q: Bytes, r: Bytes)
    ensures Canonical(lossy, q) == Canonical(lossy, r) <==> multiset(Pairs(lossy, q)) == multiset(Pairs(lossy, r))
  {
    hide Canonical, Render, Sort, Pairs, Sorted;
    var a, b := Pairs(lossy, q), Pairs(lossy, r);
    CanonicalIsRender(lossy, q);
    CanonicalIsRender(lossy, r);
    SortSorts(a);
    SortSorts(b);
    if multiset(a) == multiset(b) {
      SortedUnique(Sort(a), Sort(b));
    }
    if Canonical(lossy, q) == Canonical(lossy, r) {
      RenderInjective(Sort(a), Sort(b));
    }
  }

  // ---------------------------------------------------------------- idempotence and parameter order

  predicate Fixed(lossy: Bytes -> Bytes, p: Pair) {
    lossy(p.key) == p.key && lossy(p.value) == p.value
  }

  lemma DecodeRendered(lossy: Bytes -> Bytes, p: Pair)
    requires Fixed(lossy, p)
    ensures DecodePair(lossy, RenderPair(p)) == p
  {
    hide RenderPair, SplitOnce, Encode, Decode;
    RenderedPair(p);
    DecodeEncode(p.key);
    DecodeEncode(p.value);
  }

  lemma {:induction false} DecodeAllRendered(lossy: Bytes -> Bytes, ps: seq<Pair>)
    requires forall i :: 0 <= i < |ps| ==> Fixed(lossy, ps[i])
    ensures DecodeAll(lossy, RenderAll(ps)) == ps
  {
    hide Fixed, DecodePair, RenderPair;
    if ps != [] {
      RenderedPair(ps[0]);
      DecodeRendered(lossy, ps[0]);
      DecodeAllRendered(lossy, ps[1..]);
      assert RenderAll(ps)[1..] == RenderAll(ps[1..]);
    }
  }

  /** Rendering decoded parameters and parsing the result gives them back. */
  lemma PairsOfRender(lossy: Bytes -> Bytes, ps: seq<Pair>)
    requires forall i :: 0 <= i < |ps| ==> Fixed(lossy, ps[i])
    ensures Pairs(lossy, Render(ps)) == ps
  {
    hide Fixed, Render, RenderAll;
    if ps == [] {
      RenderOfNothing();
      assert Split([], '&') == [[]];
    } else {
      SplitRender(ps);
      DecodeAllRendered(lossy, ps);
    }
  }

  lemma {:induction false} DecodedAreFixed(lossy: Bytes -> Bytes, params: seq<Bytes>)
    requires IsLossy(lossy)
    ensures forall i :: 0 <= i < |DecodeAll(lossy, params)| ==> Fixed(lossy, DecodeAll(lossy, params)[i])
  {
    hide SplitOnce, Decode;
    if params != [] {
      DecodedAreFixed(lossy, params[1..]);
    }
  }

  lemma SortKeepsFixed(lossy: Bytes -> Bytes, ps: seq<Pair>)
    requires forall i :: 0 <= i < |ps| ==> Fixed(lossy, ps[i])
    ensures forall i :: 0 <= i < |Sort(ps)| ==> Fixed(lossy, Sort(ps)[i])
  {
    hide Sort, Fixed, Sorted;
    SortSorts(ps);
    forall i | 0 <= i < |Sort(ps)|
      ensures Fixed(lossy, Sort(ps)[i])
    {
      assert Sort(ps)[i] in multiset(ps);
    }
  }

  /** A canonical query is its own canonical form. */
  lemma CanonicalIdempotent(lossy: Bytes -> Bytes, query: Bytes)
    requires IsLossy(lossy)
    ensures Canonical(lossy, Canonical(lossy, query)) == Canonical(lossy, query)
  {
    var ps := Pairs(lossy, query);
    DecodedAreFixed(lossy, Split(query, '&'));
    hide Canonical, Render, Sort, Pairs, Sorted, Fixed, IsLossy;
    CanonicalIsRender(lossy, query);
    CanonicalIsRender(lossy, Canonical(lossy, query));
    SortKeepsFixed(lossy, ps);
    PairsOfRender(lossy, Sort(ps));
    SortSorts(ps);
    SortSorts(Sort(ps));
    SortedUnique(Sort(Sort(ps)), Sort(ps));
  }

  /** The decoded parameters with their multiplicities. */
  ghost function Bag(lossy: Bytes -> Bytes, params: seq<Bytes>): multiset<Pair> {
    if params == [] then multiset{} else multiset(DecodeOne(lossy, params[0])) + Bag(lossy, params[1..])
  }

  lemma {:induction false} BagOfDecoded(lossy: Bytes -> Bytes, params: seq<Bytes>)
    ensures multiset(DecodeAll(lossy, params)) == Bag(lossy, params)
  {
    hide DecodeOne;
    if params != [] {
      BagOfDecoded(lossy, params[1..]);
    }
  }

  lemma {:induction false} BagPullOut(lossy: Bytes -> Bytes, left: seq<Bytes>, x: Bytes, right: seq<Bytes>)
    ensures Bag(lossy, left + [x] + right) == multiset(DecodeOne(lossy, x)) + Bag(lossy, left + right)
  {
    hide DecodeOne;
    var all := left + [x] + right;
    if left == [] {
      assert all[1..] == right && left + right == right;
    } else {
      BagPullOut(lossy, left[1..], x, right);
      assert all[1..] == left[1..] + [x] + right;
      assert (left + right)[1..] == left[1..] + right;
    }
  }

  lemma {:induction false} BagPermuted(lossy: Bytes -> Bytes, a: seq<Bytes>, b: seq<Bytes>)
    requires multiset(a) == multiset(b)
    ensures Bag(lossy, a) == Bag(lossy, b)
    decreases |a|
  {
    hide DecodeOne;
    assert |a| == |multiset(a)| == |multiset(b)| == |b|;
    if a != [] {
      assert a[0] in multiset(b);
      var left, right := TakeOut(b, a[0]);
      MultisetOfTail(a);
      BagPermuted(lossy, a[1..], left + right);
      BagPullOut(lossy, left, a[0], right);
    }
  }

  /** The order in which a client writes the parameters does not matter. */
  lemma ParameterOrderIsIrrelevant(lossy: Bytes -> Bytes, q: Bytes, r: Bytes)
    requires multiset(Split(q, '&')) == multiset(Split(r, '&'))
    ensures Canonical(lossy, q) == Canonical(lossy, r)
  {
    hide Canonical, Split;
    BagPermuted(lossy, Split(q, '&'), Split(r, '&'));
    BagOfDecoded(lossy, Split(q, '&'));
    BagOfDecoded(lossy, Split(r, '&'));
    SameCanonicalIff(lossy, q, r);
  }
}
