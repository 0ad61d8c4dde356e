/** Vocabulary shared by every component: bytes, options, results and saturating slices. */
module Base {
  type Byte = x: int | 0 <= x < 256

  datatype Option<+T> = None | Some(value: T)

  datatype Result<+T, +E> = Ok(value: T) | Err(error: E)

  function Min(a: nat, b: nat): nat {
    if a <= b then a else b
  }

  /** `saturating_sub` */
  function Minus(a: nat, b: nat): nat {
    if a <= b then 0 else a - b
  }

  /** The first `n` elements, or all of them when there are fewer. */
  function Take<T>(s: seq<T>, n: nat): seq<T> {
    s[..Min(n, |s|)]
  }

  /** Everything after the first `n` elements. */
  function Drop<T>(s: seq<T>, n: nat): seq<T> {
    s[Min(n, |s|)..]
  }

  /** The window of `s` that starts at `offset` and is at most `length` long. */
  function Slice<T>(s: seq<T>, offset: nat, length: nat): seq<T> {
    s[Min(offset, |s|)..Min(offset + length, |s|)]
  }

  function Zeros(n: nat): (z: seq<Byte>)
    ensures |z| == n
  {
    seq(n, _ => 0)
  }

  /** `Vec::resize(size, 0)`: truncates or pads with zero bytes. */
  function Resize(s: seq<Byte>, size: nat): (r: seq<Byte>)
    ensures |r| == size
    ensures |s| <= size ==> r[..|s|] == s
  {
    if size <= |s| then s[..size] else s + Zeros(size - |s|)
  }

  /** ASCII lower case. */
  function Lower(c: char): (l: char)
    ensures c as int < 256 ==> l as int < 256
  {
    if 'A' <= c <= 'Z' then (c as int + 32) as char else c
  }

  predicate EqIgnoreCase(a: string, b: string) {
    |a| == |b| && forall i :: 0 <= i < |a| ==> Lower(a[i]) == Lower(b[i])
  }

  /** Texts of one length whose characters are equal, or the same letter in both cases. */
  lemma EqIgnoreCaseIff(a: string, b: string)
    ensures EqIgnoreCase(a, b) <==>
              |a| == |b| && forall i :: 0 <= i < |a| ==>
                || a[i] == b[i]
                || ('A' <= a[i] <= 'Z' && b[i] as int == a[i] as int + 32)
                || ('A' <= b[i] <= 'Z' && a[i] as int == b[i] as int + 32)
  {
  }

  predicate StartsWith(s: string, p: string) {
    |p| <= |s| && s[..|p|] == p
  }

  lemma DropDrop<T>(s: seq<T>, a: nat, b: nat)
    ensures Drop(Drop(s, a), b) == Drop(s, a + b)
  {
  }

  lemma DropNone<T>(s: seq<T>)
    ensures Drop(s, 0) == s
  {
  }

  lemma TakeLength<T>(s: seq<T>, n: nat)
    ensures |Take(s, n)| == Min(n, |s|)
  {
  }

  lemma SliceLength<T>(s: seq<T>, offset: nat, length: nat)
    ensures |Slice(s, offset, length)| == Min(offset + length, |s|) - Min(offset, |s|)
  {
  }

  lemma TakeDropSplit<T>(s: seq<T>, n: nat)
    ensures Take(s, n) + Drop(s, n) == s
  {
  }

  lemma SliceIsTakeOfDrop<T>(s: seq<T>, offset: nat, length: nat)
    ensures Slice(s, offset, length) == Take(Drop(s, offset), length)
  {
  }

  lemma TakeAppend<T>(a: seq<T>, b: seq<T>, n: nat)
    requires |a| <= n
    ensures Take(a + b, n) == a + Take(b, n - |a|)
    ensures Take(b, 0) == []
  {
  }

  lemma SubSequence<T>(s: seq<T>, from: nat, upto: nat, a: nat, b: nat)
    requires from <= upto <= |s| && a <= b <= upto - from
    ensures s[from..upto][a..b] == s[from + a..from + b]
  {
    var left, right := s[from..upto][a..b], s[from + a..from + b];
    assert |left| == |right|;
    assert forall i :: 0 <= i < |left| ==> left[i] == s[from..upto][a + i] == s[from + (a + i)] == right[i];
  }

  /** A window that fits into a longer window is a window of the whole. */
  lemma SliceOfSlice<T>(s: seq<T>, start: nat, n: nat, offset: nat, length: nat)
    requires offset + length <= n
    ensures Slice(Slice(s, start, n), offset, length) == Slice(s, start + offset, length)
  {
    var from, upto := Min(start, |s|), Min(start + n, |s|);
    var a, b := Min(offset, upto - from), Min(offset + length, upto - from);
    SubSequence(s, from, upto, a, b);
    assert a < b ==> from + a == Min(start + offset, |s|) && from + b == Min(start + offset + length, |s|);
  }

  lemma SliceOfDrop<T>(s: seq<T>, start: nat, offset: nat, length: nat)
    ensures Slice(Drop(s, start), offset, length) == Slice(s, start + offset, length)
  {
  }

  lemma SliceSplit<T>(s: seq<T>, start: nat, a: nat, b: nat)
    ensures Slice(s, start, a + b) == Slice(s, start, a) + Slice(s, start + a, b)
  {
  }

  lemma Regroup<T>(a: seq<T>, b: seq<T>, c: seq<T>)
    ensures a + b + c == a + (b + c)
  {
  }

  lemma SplitUnique<T>(a: seq<T>, b: seq<T>, c: seq<T>, d: seq<T>)
    requires a + b == c + d && |a| == |c|
    ensures a == c && b == d
  {
    assert a == (a + b)[..|a|] == (c + d)[..|a|] == c;
    assert b == (a + b)[|a|..] == (c + d)[|a|..] == d;
  }

  lemma MultisetOfTail<T>(s: seq<T>)
    requires s != []
    ensures multiset(s) == multiset{s[0]} + multiset(s[1..])
    ensures multiset(s[1..]) == multiset(s) - multiset{s[0]}
  {
    assert s == [s[0]] + s[1..];
  }

  lemma TakeOut<T>(s: seq<T>, x: T) returns (left: seq<T>, right: seq<T>)
    requires x in s
    ensures s == left + [x] + right
    ensures multiset(left + right) == multiset(s) - multiset{x}
  {
    var i :| 0 <= i < |s| && s[i] == x;
    left, right := s[..i], s[i + 1..];
    assert s == left + [x] + right;
    assert multiset(left + right) == multiset(left) + multiset(right);
  }

  lemma SameCons<T>(a: seq<T>, b: seq<T>)
    requires a != [] && b != [] && a[0] == b[0] && a[1..] == b[1..]
    ensures a == b
  {
    assert a == [a[0]] + a[1..];
    assert b == [b[0]] + b[1..];
  }
}
