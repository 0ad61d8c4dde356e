/**
 The optional index that answers listings: a table with a row per object, kept in key order, and prefix
 queries that are put as `LIKE` patterns.
 */
module MetadataIndex {
  import opened Base
  import opened Text
  import opened Pagination

  // ---- prefix patterns ----

  /** `LIKE` with the escape character `\`, parametric in how it compares characters. */
  predicate Like(same: (Octet, Octet) -> bool, pattern: Bytes, s: Bytes)
    decreases |pattern|, |s|
  {
    if pattern == [] then s == []
    else if pattern[0] == '%' then Like(same, pattern[1..], s) || (s != [] && Like(same, pattern, s[1..]))
    else if pattern[0] == '_' then s != [] && Like(same, pattern[1..], s[1..])
    else if pattern[0] == '\\' then
      |pattern| >= 2 && s != [] && same(pattern[1], s[0]) && Like(same, pattern[2..], s[1..])
    else s != [] && same(pattern[0], s[0]) && Like(same, pattern[1..], s[1..])
  }

  /** A percent sign stands for any run of characters, an underscore for one. */
  lemma {:induction false} WildcardsAre(same: (Octet, Octet) -> bool, rest: Bytes, s: Bytes)
    ensures Like(same, ['%'] + rest, s) <==> exists k :: 0 <= k <= |s| && Like(same, rest, s[k..])
    ensures Like(same, ['_'] + rest, s) <==> s != [] && Like(same, rest, s[1..])
    decreases |s|
  {
    assert (['%'] + rest)[1..] == rest && (['_'] + rest)[1..] == rest;
    assert s[0..] == s;
    if s != [] {
      WildcardsAre(same, rest, s[1..]);
      if k :| 0 <= k <= |s[1..]| && Like(same, rest, s[1..][k..]) {
        assert s[1..][k..] == s[k + 1..];
      }
      if k :| 0 <= k <= |s| && Like(same, rest, s[k..]) {
        assert k > 0 ==> s[1..][k - 1..] == s[k..];
      }
    }
  }

  predicate Special(c: Octet) {
    c == '%' || c == '_' || c == '\\'
  }

  function EscapedChar(c: Octet): Bytes {
    if Special(c) then ['\\', c] else [c]
  }

  function Escaped(prefix: Bytes): Bytes {
    if prefix == [] then [] else EscapedChar(prefix[0]) + Escaped(prefix[1..])
  }

  lemma {:induction false} EscapedSnoc(prefix: Bytes, c: Octet)
    ensures Escaped(prefix + [c]) == Escaped(prefix) + EscapedChar(c)
  {
    hide EscapedChar;
    if prefix == [] {
      assert [c][1..] == [];
      assert Escaped([c]) == EscapedChar(c) + Escaped([]);
      assert [] + [c] == [c];
    } else {
      EscapedSnoc(prefix[1..], c);
      assert (prefix + [c])[1..] == prefix[1..] + [c];
    }
  }

  /** `escape_like_prefix`. */
  method EscapeLikePrefix(prefix: Bytes) returns (pattern: Bytes)
    ensures pattern == Escaped(prefix) + ['%']
    // the pattern matches a key iff its beginning is the prefix as `LIKE` compares characters
    ensures forall same: (Octet, Octet) -> bool, key: Bytes :: Like(same, pattern, key) <==> Begins(same, prefix, key)
  {
    pattern := [];
    for i := 0 to |prefix|
      invariant pattern == Escaped(prefix[..i])
    {
      EscapedSnoc(prefix[..i], prefix[i]);
      assert prefix[..i + 1] == prefix[..i] + [prefix[i]];
      if Special(prefix[i]) {
        pattern := pattern + ['\\'];
      }
      pattern := pattern + [prefix[i]];
    }
    assert prefix[..|prefix|] == prefix;
    pattern := pattern + ['%'];
    hide Like, Escaped, Begins;
    forall same: (Octet, Octet) -> bool, key: Bytes ensures Like(same, pattern, key) <==> Begins(same, prefix, key) {
      LikeIsBegins(same, prefix, key);
    }
  }

  predicate Begins(same: (Octet, Octet) -> bool, prefix: Bytes, key: Bytes) {
    |prefix| <= |key| && forall i :: 0 <= i < |prefix| ==> same(prefix[i], key[i])
  }

  lemma {:induction false} PercentMatchesAll(same: (Octet, Octet) -> bool, s: Bytes)
    ensures Like(same, ['%'], s)
  {
    if s != [] {
      PercentMatchesAll(same, s[1..]);
    }
  }

  lemma {:induction false} LikeIsBegins(same: (Octet, Octet) -> bool, prefix: Bytes, key: Bytes)
    ensures Like(same, Escaped(prefix) + ['%'], key) <==> Begins(same, prefix, key)
  {
    if prefix == [] {
      assert Escaped(prefix) + ['%'] == ['%'];
      PercentMatchesAll(same, key);
    } else {
      LikeOneChar(same, prefix[0], Escaped(prefix[1..]) + ['%'], key);
      assert Escaped(prefix) + ['%'] == EscapedChar(prefix[0]) + (Escaped(prefix[1..]) + ['%']);
      hide Like, Escaped;
      if key != [] {
        LikeIsBegins(same, prefix[1..], key[1..]);
        BeginsStep(same, prefix, key);
      }
    }
  }

  lemma LikeOneChar(same: (Octet, Octet) -> bool, c: Octet, rest: Bytes, key: Bytes)
    ensures Like(same, EscapedChar(c) + rest, key) <==> key != [] && same(c, key[0]) && Like(same, rest, key[1..])
  {
    var pattern := EscapedChar(c) + rest;
    if Special(c) {
      assert pattern[0] == '\\' && pattern[1] == c && pattern[2..] == rest;
    } else {
      assert pattern[0] == c && pattern[1..] == rest;
    }
  }

  lemma BeginsStep(same: (Octet, Octet) -> bool, prefix: Bytes, key: Bytes)
    requires prefix != [] && key != []
    ensures Begins(same, prefix, key) <==> same(prefix[0], key[0]) && Begins(same, prefix[1..], key[1..])
  {
    var p, k := prefix[1..], key[1..];
    assert forall i :: 0 <= i < |p| ==> p[i] == prefix[i + 1];
    assert |p| <= |k| ==> forall i :: 0 <= i < |p| ==> k[i] == key[i + 1];
    if same(prefix[0], key[0]) && Begins(same, p, k) {
      forall i | 0 <= i < |prefix| ensures same(prefix[i], key[i]) {
        if i > 0 {
          assert same(p[i - 1], k[i - 1]);
        }
      }
    }
    if Begins(same, prefix, key) {
      forall i | 0 <= i < |p| ensures same(p[i], k[i]) {
        assert same(prefix[i + 1], key[i + 1]);
      }
    }
  }

  // ---- the table ----

  datatype ObjectMeta = ObjectMeta(entry: Entry, isDeleteMarker: bool)

  /** A bucket's rows with one row put in, in place of any that has its key. */
  function Put(rows: seq<Entry>, e: Entry): seq<Entry> {
    if rows == [] || Less(e.key, rows[0].key) then [e] + rows
    else if rows[0].key == e.key then [e] + rows[1..]
    else [rows[0]] + Put(rows[1..], e)
  }

  function Without(rows: seq<Entry>, key: Bytes): seq<Entry> {
    if rows == [] then []
    else if rows[0].key == key then Without(rows[1..], key)
    else [rows[0]] + Without(rows[1..], key)
  }

  function Selected(rows: seq<Entry>, same: (Octet, Octet) -> bool, pattern: Bytes): seq<Entry> {
    if rows == [] then []
    else if Like(same, pattern, rows[0].key) then [rows[0]] + Selected(rows[1..], same, pattern)
    else Selected(rows[1..], same, pattern)
  }

  /** In key order, strictly: the head comes before the rest. */
  ghost predicate Ascending(rows: seq<Entry>) {
    rows != [] ==> (forall e :: e in rows[1..] ==> Less(rows[0].key, e.key)) && Ascending(rows[1..])
  }

  lemma {:induction false} AscendingIsSorted(rows: seq<Entry>)
    requires Ascending(rows)
    ensures StrictlySorted(rows)
  {
    hide Less;
    if rows != [] {
      AscendingIsSorted(rows[1..]);
      forall i, j | 0 <= i < j < |rows| ensures Less(rows[i].key, rows[j].key) {
        assert rows[j] == rows[1..][j - 1] && rows[j] in rows[1..];
        if i > 0 {
          assert rows[i] == rows[1..][i - 1];
        }
      }
    }
  }

  lemma HeadAndRest(e: Entry, rest: seq<Entry>)
    ensures ([e] + rest)[1..] == rest
    ensures forall x :: x in [e] + rest <==> x == e || x in rest
  {
  }

  lemma {:induction false} PutPuts(rows: seq<Entry>, e: Entry)
    requires Ascending(rows)
    ensures Ascending(Put(rows, e))
    ensures forall x :: x in Put(rows, e) <==> x == e || (x in rows && x.key != e.key)
  {
    hide Less;
    if rows == [] {
      HeadAndRest(e, []);
    } else {
      HeadAndRest(rows[0], rows[1..]);
      assert rows == [rows[0]] + rows[1..];
      if Less(e.key, rows[0].key) {
        HeadAndRest(e, rows);
        BeforeAll(e.key, rows);
        NotOwnKey(e.key, rows);
      } else if rows[0].key == e.key {
        HeadAndRest(e, rows[1..]);
        NotOwnKey(e.key, rows[1..]);
      } else {
        PutPuts(rows[1..], e);
        HeadAndRest(rows[0], Put(rows[1..], e));
        Trichotomy(e.key, rows[0].key);
      }
    }
  }

  lemma BeforeAll(key: Bytes, rows: seq<Entry>)
    requires Ascending(rows) && rows != [] && Less(key, rows[0].key)
    ensures forall x :: x in rows ==> Less(key, x.key)
  {
    hide Less;
    assert rows == [rows[0]] + rows[1..];
    forall x | x in rows[1..] ensures Less(key, x.key) {
      LessTransitive(key, rows[0].key, x.key);
    }
  }

  lemma NotOwnKey(key: Bytes, rows: seq<Entry>)
    requires forall x :: x in rows ==> Less(key, x.key)
    ensures forall x :: x in rows ==> x.key != key
  {
    LessIrreflexive(key);
  }

  lemma Trichotomy(a: Bytes, b: Bytes)
    ensures a == b || Less(a, b) || Less(b, a)
  {
    LeTotal(a, b);
    if Le(a, b) && Le(b, a) {
      LeAntisymmetric(a, b);
    }
  }

  lemma {:induction false} WithoutRemoves(rows: seq<Entry>, key: Bytes)
    requires Ascending(rows)
    ensures Ascending(Without(rows, key))
    ensures forall x :: x in Without(rows, key) <==> x in rows && x.key != key
  {
    hide Less;
    if rows != [] {
      assert rows == [rows[0]] + rows[1..];
      HeadAndRest(rows[0], rows[1..]);
      WithoutRemoves(rows[1..], key);
      HeadAndRest(rows[0], Without(rows[1..], key));
    }
  }

  lemma {:induction false} SelectedSelects(rows: seq<Entry>, same: (Octet, Octet) -> bool, pattern: Bytes)
    requires Ascending(rows)
    ensures Ascending(Selected(rows, same, pattern))
    ensures forall x :: x in Selected(rows, same, pattern) <==> x in rows && Like(same, pattern, x.key)
  {
    hide Less, Like;
    if rows != [] {
      assert rows == [rows[0]] + rows[1..];
      HeadAndRest(rows[0], rows[1..]);
      SelectedSelects(rows[1..], same, pattern);
      HeadAndRest(rows[0], Selected(rows[1..], same, pattern));
    }
  }

  lemma HasHead(rows: seq<Entry>)
    ensures rows != [] ==> exists e :: e in rows
  {
    if rows != [] {
      assert rows[0] in rows;
    }
  }

  /** Two lists in key order with the same elements are the same list. */
  lemma {:induction false} AscendingUnique(a: seq<Entry>, b: seq<Entry>)
    requires Ascending(a) && Ascending(b) && forall x :: x in a <==> x in b
    ensures a == b
  {
    hide Less;
    if a == [] {
      HasHead(b);
    } else {
      assert a[0] in b;
      assert a == [a[0]] + a[1..] && b == [b[0]] + b[1..];
      HeadAndRest(a[0], a[1..]);
      HeadAndRest(b[0], b[1..]);
      if a[0] != b[0] {
        NotBoth(a[0].key, b[0].key);
      }
      LessIrreflexive(a[0].key);
      AscendingUnique(a[1..], b[1..]);
    }
  }

  /** `LIKE` equates at least equal characters. */
  ghost predicate Reflexive(same: (Octet, Octet) -> bool) {
    forall a :: same(a, a)
  }

  /** The inserts of a rebuild into the emptied bucket; they stop at the first key that is taken. */
  method InsertAll(bucket: Bytes, objects: seq<ObjectMeta>, ghost mirror: map<(Bytes, Bytes), Entry>)
    returns (ok: bool, rows: seq<Entry>, ghost rebuilt: map<(Bytes, Bytes), Entry>)
    ensures ok <==> LiveKeysDiffer(objects)
    ensures ok ==> Mirrors(rows, rebuilt, bucket)
    ensures ok ==> forall b: Bytes, k: Bytes :: At(rebuilt, b, k) == if b == bucket then Live(objects, k) else At(mirror, b, k)
  {
    rows := [];
    rebuilt := map p | p in mirror && p.0 != bucket :: mirror[p];
    assert forall k :: Live(objects[..0], k).None?;
    assert Mirrors(rows, rebuilt, bucket);
    assert forall b: Bytes, k: Bytes :: At(rebuilt, b, k) == if b == bucket then None else At(mirror, b, k);
    hide Mirrors, Put, Live, HasKey, At;
    for i := 0 to |objects|
      invariant Mirrors(rows, rebuilt, bucket) && LiveKeysDiffer(objects[..i])
      invariant forall b: Bytes, k: Bytes :: At(rebuilt, b, k) == (if b == bucket then Live(objects[..i], k) else At(mirror, b, k))
    {
      var meta := objects[i];
      OneMoreLive(objects[..i], meta);
      assert objects[..i + 1] == objects[..i] + [meta];
      if meta.isDeleteMarker {
        continue;
      }
      MirroredKey(rows, rebuilt, bucket, meta.entry.key);
      if HasKey(rows, meta.entry.key) {
        DuplicateStays(objects, i + 1);
        return false, rows, rebuilt;
      }
      MirrorsPut(rows, rebuilt, bucket, meta.entry);
      AtUpdated(rebuilt, bucket, meta.entry);
      rows := Put(rows, meta.entry);
      rebuilt := rebuilt[(bucket, meta.entry.key) := meta.entry];
    }
    assert objects[..|objects|] == objects;
    ok := true;
  }

  lemma AtUpdated(mirror: map<(Bytes, Bytes), Entry>, bucket: Bytes, e: Entry)
    ensures var after := mirror[(bucket, e.key) := e];
            && At(after, bucket, e.key) == Some(e)
            && forall b: Bytes, k: Bytes {:trigger At(after, b, k)} :: b != bucket || k != e.key ==> At(after, b, k) == At(mirror, b, k)
  {
  }

  class Index {
    const same: (Octet, Octet) -> bool
    var table: map<Bytes, seq<Entry>>
    /** What the operations so far have put in and not taken out, by bucket and key. */
    ghost var mirror: map<(Bytes, Bytes), Entry>

    ghost predicate Valid()
      reads this
    {
      forall bucket :: Mirrors(Rows(bucket), mirror, bucket)
    }

    function Rows(bucket: Bytes): seq<Entry>
      reads this
    {
      if bucket in table then table[bucket] else []
    }

    constructor (same: (Octet, Octet) -> bool)
      ensures Valid() && mirror == map[] && this.same == same
    {
      this.same, table, mirror := same, map[], map[];
    }

    /** `upsert`: a delete marker takes the row away. */
    method Upsert(bucket: Bytes, meta: ObjectMeta)
      requires Valid()
      modifies this
      ensures Valid()
      ensures mirror == if meta.isDeleteMarker then old(mirror) - {(bucket, meta.entry.key)}
                        else old(mirror)[(bucket, meta.entry.key) := meta.entry]
    {
      if meta.isDeleteMarker {
        Remove(bucket, meta.entry.key);
        return;
      }
      assert Mirrors(Rows(bucket), mirror, bucket);
      hide Mirrors, Put;
      MirrorsPut(Rows(bucket), mirror, bucket, meta.entry);
      table := table[bucket := Put(Rows(bucket), meta.entry)];
      mirror := mirror[(bucket, meta.entry.key) := meta.entry];
      forall b ensures Mirrors(Rows(b), mirror, b) {
        assert Mirrors(old(Rows(b)), old(mirror), b);
        if b != bucket {
          MirrorsElsewhere(old(Rows(b)), old(mirror), mirror, b);
        }
      }
    }

    /** `remove`. */
    method Remove(bucket: Bytes, key: Bytes)
      requires Valid()
      modifies this
      ensures Valid() && mirror == old(mirror) - {(bucket, key)}
    {
      assert Mirrors(Rows(bucket), mirror, bucket);
      hide Mirrors, Without;
      MirrorsWithout(Rows(bucket), mirror, bucket, key);
      table := table[bucket := Without(Rows(bucket), key)];
      mirror := mirror - {(bucket, key)};
      forall b ensures Mirrors(Rows(b), mirror, b) {
        assert Mirrors(old(Rows(b)), old(mirror), b);
        if b != bucket {
          MirrorsElsewhere(old(Rows(b)), old(mirror), mirror, b);
        }
      }
    }

    /** `rebuild_bucket`: one transaction, which a second row with the same key rolls back. */
    method RebuildBucket(bucket: Bytes, objects: seq<ObjectMeta>) returns (ok: bool)
      requires Valid()
      modifies this
      ensures Valid()
      ensures ok <==> LiveKeysDiffer(objects)
      ensures !ok ==> mirror == old(mirror)
      ensures ok ==> forall b: Bytes, k: Bytes :: At(mirror, b, k) == if b == bucket then Live(objects, k) else At(old(mirror), b, k)
    {
      var inserted, rows, rebuilt := InsertAll(bucket, objects, mirror);
      ok := inserted;
      hide Mirrors;
      if ok {
        table := table[bucket := rows];
        mirror := rebuilt;
        forall b ensures Mirrors(Rows(b), mirror, b) {
          assert Mirrors(old(Rows(b)), old(mirror), b);
          if b != bucket {
            MirrorsElsewhere(old(Rows(b)), old(mirror), mirror, b);
          }
        }
      }
    }

    /** `list`. An empty prefix asks for everything. */
    method List(bucket: Bytes, prefix: Bytes) returns (r: seq<Entry>)
      requires Valid()
      ensures StrictlySorted(r) && LongEnough(r, prefix)
      ensures IsIndexed(r, same, mirror, bucket, prefix)
    {
      assert Mirrors(Rows(bucket), mirror, bucket);
      if prefix == [] {
        r := Rows(bucket);
      } else {
        var pattern := EscapeLikePrefix(prefix);
        r := Selected(Rows(bucket), same, pattern);
        SelectedSelects(Rows(bucket), same, pattern);
      }
      AscendingIsSorted(r);
    }
  }

  function At(mirror: map<(Bytes, Bytes), Entry>, bucket: Bytes, key: Bytes): Option<Entry> {
    if (bucket, key) in mirror then Some(mirror[(bucket, key)]) else None
  }

  /** The rows of a bucket are in key order and are what the map holds for it. */
  ghost predicate Mirrors(rows: seq<Entry>, mirror: map<(Bytes, Bytes), Entry>, bucket: Bytes) {
    && Ascending(rows)
    && (forall e :: e in rows <==> At(mirror, bucket, e.key) == Some(e))
    && (forall key :: At(mirror, bucket, key).Some? ==> At(mirror, bucket, key).value.key == key)
  }

  lemma MirrorsPut(rows: seq<Entry>, mirror: map<(Bytes, Bytes), Entry>, bucket: Bytes, e: Entry)
    requires Mirrors(rows, mirror, bucket)
    ensures Mirrors(Put(rows, e), mirror[(bucket, e.key) := e], bucket)
  {
    PutPuts(rows, e);
    hide Put, Ascending;
    var after := mirror[(bucket, e.key) := e];
    assert forall key :: At(after, bucket, key) == if key == e.key then Some(e) else At(mirror, bucket, key);
  }

  lemma MirrorsWithout(rows: seq<Entry>, mirror: map<(Bytes, Bytes), Entry>, bucket: Bytes, key: Bytes)
    requires Mirrors(rows, mirror, bucket)
    ensures Mirrors(Without(rows, key), mirror - {(bucket, key)}, bucket)
  {
    WithoutRemoves(rows, key);
    hide Without, Ascending;
    var after := mirror - {(bucket, key)};
    assert forall k :: At(after, bucket, k) == if k == key then None else At(mirror, bucket, k);
  }

  lemma MirrorsElsewhere(rows: seq<Entry>, mirror: map<(Bytes, Bytes), Entry>, after: map<(Bytes, Bytes), Entry>, bucket: Bytes)
    requires Mirrors(rows, mirror, bucket) && forall key :: At(after, bucket, key) == At(mirror, bucket, key)
    ensures Mirrors(rows, after, bucket)
  {
    hide At, Ascending;
  }

  predicate HasKey(rows: seq<Entry>, key: Bytes) {
    exists i :: 0 <= i < |rows| && rows[i].key == key
  }

  lemma MirroredKey(rows: seq<Entry>, mirror: map<(Bytes, Bytes), Entry>, bucket: Bytes, key: Bytes)
    requires Mirrors(rows, mirror, bucket)
    ensures HasKey(rows, key) <==> At(mirror, bucket, key).Some?
  {
    hide At, Ascending;
    if HasKey(rows, key) {
      var i :| 0 <= i < |rows| && rows[i].key == key;
      assert rows[i] in rows;
    }
    if At(mirror, bucket, key).Some? {
      assert At(mirror, bucket, key).value in rows;
    }
  }

  /** The object that a list holds for a key, delete markers left out. */
  function Live(objects: seq<ObjectMeta>, key: Bytes): Option<Entry> {
    if objects == [] then None else
    var last := objects[|objects| - 1];
    if !last.isDeleteMarker && last.entry.key == key then Some(last.entry) else Live(objects[..|objects| - 1], key)
  }

  ghost predicate LiveKeysDiffer(objects: seq<ObjectMeta>) {
    forall i, j :: 0 <= i < j < |objects| && !objects[i].isDeleteMarker && !objects[j].isDeleteMarker
                   ==> objects[i].entry.key != objects[j].entry.key
  }

  lemma OneMoreLive(objects: seq<ObjectMeta>, meta: ObjectMeta)
    ensures forall k :: Live(objects + [meta], k) ==
              if !meta.isDeleteMarker && meta.entry.key == k then Some(meta.entry) else Live(objects, k)
    ensures LiveKeysDiffer(objects) ==>
              (LiveKeysDiffer(objects + [meta]) <==> meta.isDeleteMarker || Live(objects, meta.entry.key).None?)
  {
    assert (objects + [meta])[..|objects|] == objects;
    LiveIff(objects, meta.entry.key);
    hide Live;
    var all := objects + [meta];
    if LiveKeysDiffer(objects) && !meta.isDeleteMarker && Live(objects, meta.entry.key).Some? {
      var i :| 0 <= i < |objects| && !objects[i].isDeleteMarker && objects[i].entry.key == meta.entry.key;
      assert all[i] == objects[i] && all[|objects|] == meta;
    }
  }

  lemma {:induction false} LiveIff(objects: seq<ObjectMeta>, key: Bytes)
    ensures Live(objects, key).Some? <==> exists i :: 0 <= i < |objects| && !objects[i].isDeleteMarker && objects[i].entry.key == key
  {
    if objects != [] {
      LiveIff(objects[..|objects| - 1], key);
    }
  }

  lemma DuplicateStays(objects: seq<ObjectMeta>, n: nat)
    requires n <= |objects| && !LiveKeysDiffer(objects[..n])
    ensures !LiveKeysDiffer(objects)
  {
  }

  // ---- the index against a walk of the files ----

  /** What a walk lists: the objects whose key starts with the prefix, byte by byte, in key order. */
  ghost predicate IsWalk(r: seq<Entry>, mirror: map<(Bytes, Bytes), Entry>, bucket: Bytes, prefix: Bytes) {
    Ascending(r) && forall e :: e in r <==> At(mirror, bucket, e.key) == Some(e) && StartsWith(e.key, prefix)
  }

  ghost predicate IsIndexed(r: seq<Entry>, same: (Octet, Octet) -> bool, mirror: map<(Bytes, Bytes), Entry>, bucket: Bytes, prefix: Bytes) {
    Ascending(r) && forall e :: e in r <==> At(mirror, bucket, e.key) == Some(e) && Begins(same, prefix, e.key)
  }

  lemma StartsIsBegins(same: (Octet, Octet) -> bool, prefix: Bytes, key: Bytes)
    requires Reflexive(same) && StartsWith(key, prefix)
    ensures Begins(same, prefix, key)
  {
    assert forall i :: 0 <= i < |prefix| ==> key[i] == key[..|prefix|][i];
  }

  /** Index and walk agree iff no key of the bucket matches the prefix only because `LIKE` equates different characters. */
  lemma IndexIsWalkIff(same: (Octet, Octet) -> bool, mirror: map<(Bytes, Bytes), Entry>, bucket: Bytes, prefix: Bytes, indexed: seq<Entry>, walked: seq<Entry>)
    requires Reflexive(same) && IsIndexed(indexed, same, mirror, bucket, prefix) && IsWalk(walked, mirror, bucket, prefix)
    requires forall key :: At(mirror, bucket, key).Some? ==> At(mirror, bucket, key).value.key == key
    ensures indexed == walked <==>
            forall key: Bytes :: At(mirror, bucket, key).Some? && Begins(same, prefix, key) ==> StartsWith(key, prefix)
  {
    hide At, Ascending, Begins, StartsWith;
    forall key: Bytes | StartsWith(key, prefix) ensures Begins(same, prefix, key) {
      StartsIsBegins(same, prefix, key);
    }
    if forall key: Bytes :: At(mirror, bucket, key).Some? && Begins(same, prefix, key) ==> StartsWith(key, prefix) {
      forall e ensures e in indexed <==> e in walked {
      }
      AscendingUnique(indexed, walked);
    } else {
      var key: Bytes :| At(mirror, bucket, key).Some? && Begins(same, prefix, key) && !StartsWith(key, prefix);
      assert At(mirror, bucket, key).value in indexed;
    }
  }

  /** The comparison of `LIKE`, which folds ASCII case. */
  predicate SameFolded(a: Octet, b: Octet) {
    Lower(a) == Lower(b)
  }

  /** `LIKE` folds ASCII case, so a bucket with the key `A` is listed differently for the prefix `a`. */
  lemma CaseFoldingShows(bucket: Bytes, indexed: seq<Entry>, walked: seq<Entry>)
    requires var mirror := map[(bucket, ['A']) := Entry(['A'], [])];
             && IsIndexed(indexed, SameFolded, mirror, bucket, ['a'])
             && IsWalk(walked, mirror, bucket, ['a'])
    ensures indexed != walked
  {
    var mirror := map[(bucket, ['A']) := Entry(['A'], [])];
    var key: Bytes, prefix: Bytes := ['A'], ['a'];
    assert key[0] != prefix[0] && key[..1][0] == key[0];
    assert At(mirror, bucket, key) == Some(Entry(key, [])) && Begins(SameFolded, prefix, key) && !StartsWith(key, prefix);
    assert Entry(key, []) in indexed;
  }
}
