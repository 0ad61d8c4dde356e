/**
 Object versions on disk: version records, the top-level files that hold the current object, and the
 lifecycle sweep over noncurrent versions.
 */
module Versions {
  import opened Base
  import opened Text

  type Key = Bytes

  /** Version ids are strings of fixed width, so their byte order is the order of these numbers. */
  type VersionId = nat

  datatype Meta = Meta(
    key: Key,
    versionId: Option<VersionId>,
    isDeleteMarker: bool,
    lastModified: Option<int>,
    locked: bool)

  /** A version on disk: its metadata, and its bytes in a plain file or in a chunk directory. */
  datatype Record = Record(meta: Meta, data: seq<Byte>, chunked: bool)

  type Records = map<(Key, VersionId), Record>

  datatype Rule = Rule(prefix: Bytes, noncurrentDays: Option<nat>)

  const SECONDS_PER_DAY: int := 86400

  // ---------------------------------------------------------------- what the records say

  predicate IsObject(vs: Records, key: Key, id: VersionId) {
    (key, id) in vs && !vs[(key, id)].meta.isDeleteMarker
  }

  /** The newest version that is not a delete marker. */
  ghost predicate IsNewestObject(vs: Records, key: Key, id: VersionId) {
    IsObject(vs, key, id) && forall w: VersionId :: IsObject(vs, key, w) ==> w <= id
  }

  /** The newest entry of any kind. */
  ghost predicate IsNewestEntry(vs: Records, key: Key, id: VersionId) {
    (key, id) in vs && forall w: VersionId :: (key, w) in vs ==> w <= id
  }

  ghost predicate HasVersions(vs: Records, key: Key) {
    exists id: VersionId :: (key, id) in vs
  }

  // ---------------------------------------------------------------- the top-level files of a key

  /** Three paths of their own: the metadata file, the plain file and the chunk directory. */
  datatype TopFiles = TopFiles(meta: Option<Meta>, flat: Option<seq<Byte>>, chunks: Option<seq<Byte>>)

  const NO_FILES: TopFiles := TopFiles(None, None, None)

  type Top = map<Key, TopFiles>

  function Look(top: Top, key: Key): TopFiles {
    if key in top then top[key] else NO_FILES
  }

  /** What `get_object` serves: the chunk directory if there is one, and only else the plain file. */
  function Served(f: TopFiles): Option<(Meta, seq<Byte>)> {
    if f.meta.None? then None
    else if f.chunks.Some? then Some((f.meta.value, f.chunks.value))
    else if f.flat.Some? then Some((f.meta.value, f.flat.value))
    else None
  }

  /** A put or a restore writes the metadata and one of the two payloads. The other payload stays where it is. */
  function Written(f: TopFiles, r: Record): TopFiles {
    if r.chunked then f.(meta := Some(r.meta), chunks := Some(r.data)) else f.(meta := Some(r.meta), flat := Some(r.data))
  }

  /** No chunk directory with other bytes hides the payload. */
  predicate Unshadowed(f: TopFiles, r: Record) {
    r.chunked || f.chunks.None? || f.chunks.value == r.data
  }

  /** What is written is served iff it is chunked, or no other chunk directory is at the top. */
  lemma WrittenIsServedIff(f: TopFiles, r: Record)
    ensures Served(Written(f, r)) == Some((r.meta, r.data)) <==> Unshadowed(f, r)
    ensures Served(Written(f, r)).Some? && Served(Written(f, r)).value.0 == r.meta
  {
  }

  /** The newest object version has been written over the top-level files, or they are gone if there is none. */
  ghost predicate Restored(vs: Records, key: Key, f: TopFiles, f': TopFiles) {
    && (forall id: VersionId :: IsNewestObject(vs, key, id) ==> f' == Written(f, vs[(key, id)]))
    && ((forall id: VersionId :: !IsObject(vs, key, id)) ==> f' == NO_FILES)
  }

  /** What versioning promises: the newest entry is what is served, and a delete marker hides the key. */
  ghost predicate InSync(vs: Records, f: TopFiles, key: Key) {
    && (forall id: VersionId :: IsNewestEntry(vs, key, id) ==>
          Served(f) == if vs[(key, id)].meta.isDeleteMarker then None else Some((vs[(key, id)].meta, vs[(key, id)].data)))
    && (!HasVersions(vs, key) ==> Served(f).None?)
  }

  ghost predicate WellFormed(vs: Records) {
    forall key: Key, id: VersionId :: (key, id) in vs ==> vs[(key, id)].meta.key == key && vs[(key, id)].meta.versionId == Some(id)
  }

  lemma {:induction false} LargestOf(s: set<nat>) returns (m: nat)
    requires s != {}
    ensures m in s && forall x :: x in s ==> x <= m
    decreases s
  {
    var x :| x in s;
    if s == {x} {
      m := x;
    } else {
      var rest := s - {x};
      assert s == {x} + rest;
      var y := LargestOf(rest);
      m := if x < y then y else x;
      assert forall z :: z in s ==> z == x || z in rest;
    }
  }

  lemma NewestObjectExists(vs: Records, key: Key, some: VersionId) returns (id: VersionId)
    requires IsObject(vs, key, some)
    ensures IsNewestObject(vs, key, id)
  {
    var ids := set kv | kv in vs && kv.0 == key && !vs[kv].meta.isDeleteMarker :: kv.1;
    assert (key, some) in vs && some in ids;
    id := LargestOf(ids);
    forall w: VersionId | IsObject(vs, key, w)
      ensures w <= id
    {
      assert (key, w) in vs;
      assert w in ids;
    }
  }

  lemma NewestEntryExists(vs: Records, key: Key, some: VersionId) returns (id: VersionId)
    requires (key, some) in vs
    ensures IsNewestEntry(vs, key, id)
  {
    var ids := set kv | kv in vs && kv.0 == key :: kv.1;
    assert (key, some) in vs && some in ids;
    id := LargestOf(ids);
    forall w: VersionId | (key, w) in vs
      ensures w <= id
    {
      assert w in ids;
    }
  }

  ghost predicate TopWellFormed(top: Top) {
    forall key :: key in top && top[key].meta.Some? ==> top[key].meta.value.key == key
  }

  // ---------------------------------------------------------------- lifecycle rules

  predicate AppliesTo(r: Rule, key: Key) {
    r.prefix <= key
  }

  /** `max_by_key(prefix.len())` over the matching rules: the longest prefix, and the last one on a tie. */
  function RuleFor(rules: seq<Rule>, key: Key): (r: Option<Rule>)
    ensures r.Some? ==> r.value in rules && AppliesTo(r.value, key)
    ensures r.Some? ==> forall other :: other in rules && AppliesTo(other, key) ==> |other.prefix| <= |r.value.prefix|
    ensures r.None? ==> forall other :: other in rules ==> !AppliesTo(other, key)
  {
    if rules == [] then None
    else
      var last := rules[|rules| - 1];
      var earlier := RuleFor(rules[..|rules| - 1], key);
      assert forall other :: other in rules ==> other in rules[..|rules| - 1] || other == last;
      if AppliesTo(last, key) && (earlier.None? || |earlier.value.prefix| <= |last.prefix|) then Some(last) else earlier
  }

  /** `lifecycle_noncurrent_expiry_days_for_key` */
  function NoncurrentDays(rules: seq<Rule>, key: Key): Option<nat> {
    match RuleFor(rules, key)
    case None => None
    case Some(r) => r.noncurrentDays
  }

  /** `Duration::num_days`, which rounds towards zero. */
  function WholeDays(seconds: int): int {
    if seconds >= 0 then seconds / SECONDS_PER_DAY else -(-seconds / SECONDS_PER_DAY)
  }

  predicate OldEnough(m: Meta, now: int, days: nat) {
    m.lastModified.Some? && WholeDays(now - m.lastModified.value) >= days
  }

  /**
   Rule `i` is the one that counts for a key: it applies, no other one that applies has a longer prefix, and no
   later one has as long a prefix.
   */
  ghost predicate Governs(rules: seq<Rule>, i: nat, key: Key) {
    && i < |rules| && rules[i].prefix <= key
    && forall j :: 0 <= j < |rules| && rules[j].prefix <= key ==>
         |rules[j].prefix| <= |rules[i].prefix| && (j > i ==> |rules[j].prefix| < |rules[i].prefix|)
  }

  lemma GovernsOneMore(rules: seq<Rule>, r: Rule, i: nat, key: Key)
    requires i < |rules|
    ensures Governs(rules + [r], i, key) <==> Governs(rules, i, key) && (r.prefix <= key ==> |r.prefix| < |rules[i].prefix|)
  {
    var all := rules + [r];
    assert all[|rules|] == r && forall j :: 0 <= j < |rules| ==> all[j] == rules[j];
  }

  lemma LastGoverns(rules: seq<Rule>, r: Rule, key: Key)
    requires r.prefix <= key && forall j :: 0 <= j < |rules| && rules[j].prefix <= key ==> |rules[j].prefix| <= |r.prefix|
    ensures Governs(rules + [r], |rules|, key)
  {
  }

  lemma {:induction false} RuleForGoverns(rules: seq<Rule>, key: Key) returns (i: nat)
    ensures RuleFor(rules, key).Some? ==> Governs(rules, i, key) && RuleFor(rules, key).value == rules[i]
    ensures RuleFor(rules, key).None? ==> forall j :: 0 <= j < |rules| ==> !(rules[j].prefix <= key)
  {
    i := 0;
    if rules != [] {
      var front, last := rules[..|rules| - 1], rules[|rules| - 1];
      i := RuleForGoverns(front, key);
      assert rules == front + [last];
      var earlier := RuleFor(front, key);
      if last.prefix <= key && (earlier.None? || |earlier.value.prefix| <= |last.prefix|) {
        i := |front|;
        LastGoverns(front, last, key);
      } else if earlier.Some? {
        GovernsOneMore(front, last, i, key);
      }
    }
  }

  lemma OneGoverns(rules: seq<Rule>, i: nat, j: nat, key: Key)
    requires Governs(rules, i, key) && Governs(rules, j, key)
    ensures i == j
  {
  }

  /** The days of the governing rule are the ones that count. */
  lemma NoncurrentDaysIff(rules: seq<Rule>, key: Key, days: nat)
    ensures NoncurrentDays(rules, key) == Some(days) <==> exists i: nat :: Governs(rules, i, key) && rules[i].noncurrentDays == Some(days)
  {
    var i := RuleForGoverns(rules, key);
    if j: nat :| Governs(rules, j, key) && rules[j].noncurrentDays == Some(days) {
      assert RuleFor(rules, key).Some?;
      OneGoverns(rules, i, j, key);
    }
  }

  /** The age in the rule is a number of full days of 86400 seconds; a rule of no days also takes what is less than a day ahead. */
  lemma OldEnoughIff(m: Meta, now: int, days: nat)
    ensures OldEnough(m, now, days) <==>
              m.lastModified.Some? && if days > 0 then now - m.lastModified.value >= 86400 * days else now - m.lastModified.value > -86400
  {
  }

  /** A version the sweep is meant to remove: superseded by a newer object version, expired and not locked. */
  ghost predicate Expirable(vs: Records, rules: seq<Rule>, now: int, key: Key, id: VersionId) {
    && IsObject(vs, key, id)
    && (exists w: VersionId :: w > id && IsObject(vs, key, w))
    && NoncurrentDays(rules, key).Some?
    && OldEnough(vs[(key, id)].meta, now, NoncurrentDays(rules, key).value)
    && !vs[(key, id)].meta.locked
  }

  /** What a sweep does: the expirable versions go, and the keys they belonged to are restored. */
  ghost predicate Swept(vs: Records, top: Top, rules: seq<Rule>, now: int, vs': Records, top': Top) {
    && (forall kv :: kv in vs' ==> kv in vs && vs'[kv] == vs[kv])
    && (forall key: Key, id: VersionId :: (key, id) in vs ==> ((key, id) !in vs' <==> Expirable(vs, rules, now, key, id)))
    && (forall key: Key ::
          if exists id: VersionId :: Expirable(vs, rules, now, key, id)
          then Restored(vs', key, Look(top, key), Look(top', key)) else Look(top', key) == Look(top, key))
  }

  /** What deleting one version does to the records and the top-level files of its key. */
  ghost predicate VersionDeleted(vs: Records, f: TopFiles, key: Key, id: VersionId, vs': Records, f': TopFiles) {
    && (key, id) in vs && vs' == vs - {(key, id)}
    && if HasVersions(vs', key) then Restored(vs', key, f, f') else f' == f
  }

  /** What deleting the null version does: everything at the top goes, and the newest stored object, if there is one, becomes current. */
  ghost predicate NullDeleted(vs: Records, f: TopFiles, key: Key, vs': Records, f': TopFiles) {
    && f.meta.Some? && vs' == vs
    && if HasVersions(vs', key) then Restored(vs', key, NO_FILES, f') else f' == NO_FILES
  }

  // ---------------------------------------------------------------- the store

  datatype DeleteError = NotFound | VersionNotFound | ObjectLocked

  /** Nothing but this key's files differs. */
  ghost predicate OthersSame(top: Top, top': Top, key: Key) {
    forall k: Key {:trigger Look(top', k)} :: k != key ==> Look(top', k) == Look(top, k)
  }

  class Store {
    var versions: Records
    var top: Top
    /** The metadata index of the bucket, when it is in use. */
    var index: map<Key, Meta>

    ghost predicate Valid()
      reads this
    {
      WellFormed(versions) && TopWellFormed(top)
    }

    constructor ()
      ensures Valid() && versions == map[] && top == map[] && index == map[]
    {
      versions, top, index := map[], map[], map[];
    }

    /** A versioned write: the top-level files, the record and the index. */
    method PutVersion(key: Key, id: VersionId, r: Record)
      requires Valid() && r.meta.key == key && r.meta.versionId == Some(id) && !r.meta.isDeleteMarker
      requires forall w: VersionId :: (key, w) in versions ==> w < id
      modifies this
      ensures Valid() && versions == old(versions)[(key, id) := r] && index == old(index)[key := r.meta]
      ensures Look(top, key) == Written(Look(old(top), key), r) && OthersSame(old(top), top, key)
      ensures Look(top, key).meta == Some(r.meta)
      ensures Look(top, key).flat == if r.chunked then Look(old(top), key).flat else Some(r.data)
      ensures Look(top, key).chunks == if r.chunked then Some(r.data) else Look(old(top), key).chunks
      ensures InSync(versions, Look(top, key), key) <==> Unshadowed(Look(old(top), key), r)
    {
      WrittenIsServedIff(Look(top, key), r);
      top := top[key := Written(Look(top, key), r)];
      versions := versions[(key, id) := r];
      index := index[key := r.meta];
      assert IsNewestEntry(versions, key, id);
      forall w: VersionId | IsNewestEntry(versions, key, w)
        ensures w == id
      {
        assert (key, id) in versions;
      }
    }

    /** A write while versioning is off or suspended: the top-level files only, a null version. */
    method PutUnversioned(key: Key, r: Record)
      requires Valid() && r.meta.key == key && r.meta.versionId == None && !r.meta.isDeleteMarker
      modifies this`top, this`index
      ensures Valid() && index == old(index)[key := r.meta]
      ensures Look(top, key) == Written(Look(old(top), key), r) && OthersSame(old(top), top, key)
      ensures Look(top, key).meta == Some(r.meta)
      ensures Look(top, key).flat == if r.chunked then Look(old(top), key).flat else Some(r.data)
      ensures Look(top, key).chunks == if r.chunked then Some(r.data) else Look(old(top), key).chunks
      ensures Served(Look(top, key)) == Some((r.meta, r.data)) <==> Unshadowed(Look(old(top), key), r)
    {
      WrittenIsServedIff(Look(top, key), r);
      top := top[key := Written(Look(top, key), r)];
      index := index[key := r.meta];
    }

    /** `write_delete_marker`. The index is not told. */
    method WriteDeleteMarker(key: Key, id: VersionId, now: int)
      requires Valid() && forall w: VersionId :: (key, w) in versions ==> w < id
      modifies this`versions, this`top
      ensures Valid() && Look(top, key) == NO_FILES && OthersSame(old(top), top, key)
      ensures versions == old(versions)[(key, id) := Record(Meta(key, Some(id), true, Some(now), false), [], false)]
      ensures InSync(versions, Look(top, key), key)
    {
      versions := versions[(key, id) := Record(Meta(key, Some(id), true, Some(now), false), [], false)];
      top := top - {key};
      forall w: VersionId | IsNewestEntry(versions, key, w)
        ensures w == id
      {
        assert (key, id) in versions;
      }
    }

    /** The version ids of a key, newest first. */
    method NewestFirst(key: Key) returns (ids: seq<VersionId>)
      ensures forall id: VersionId :: id in ids <==> (key, id) in versions
      ensures forall i, j :: 0 <= i < j < |ids| ==> ids[i] > ids[j]
    {
      var left := set kv | kv in versions && kv.0 == key :: kv.1;
      assert forall id: VersionId :: id in left <==> (key, id) in versions;
      ids := [];
      while left != {}
        invariant forall id: VersionId :: id in ids || id in left <==> (key, id) in versions
        invariant forall i, j :: 0 <= i < j < |ids| ==> ids[i] > ids[j]
        invariant forall i, x :: 0 <= i < |ids| && x in left ==> ids[i] > x
        decreases left
      {
        ghost var largest := LargestOf(left);
        var m :| m in left && forall x :: x in left ==> x <= m;
        left := left - {m};
        ids := ids + [m];
      }
    }

    /**
     `update_current_version`: restores the newest version that is not a delete marker. It does nothing
     when the versions directory is gone, and does not look whether the newest entry is a delete marker.
     */
    method UpdateCurrentVersion(key: Key)
      requires Valid()
      modifies this`top
      ensures Valid() && OthersSame(old(top), top, key)
      ensures if HasVersions(versions, key) then Restored(versions, key, Look(old(top), key), Look(top, key)) else top == old(top)
    {
      var ids := NewestFirst(key);
      if ids == [] {
        assert forall id: VersionId :: (key, id) in versions ==> id in ids;
        return;
      }
      assert ids[0] in ids;
      for i := 0 to |ids|
        invariant forall j :: 0 <= j < i ==> !IsObject(versions, key, ids[j])
        invariant top == old(top)
      {
        assert ids[i] in ids;
        var r := versions[(key, ids[i])];
        if !r.meta.isDeleteMarker {
          top := top[key := Written(Look(top, key), r)];
          forall w: VersionId | IsObject(versions, key, w)
            ensures w <= ids[i]
          {
            assert w in ids;
          }
          assert IsObject(versions, key, ids[i]);
          assert forall w: VersionId :: IsNewestObject(versions, key, w) ==> w == ids[i];
          return;
        }
      }
      forall id: VersionId
        ensures !IsObject(versions, key, id)
      {
        assert (key, id) in versions ==> id in ids;
      }
      top := top - {key};
    }

    /**
     `delete_object_version`. Without an id it is the null version that goes: the top-level files, whatever
     version they hold.
     */
    method DeleteObjectVersion(key: Key, id: Option<VersionId>) returns (r: Result<Meta, DeleteError>)
      requires Valid()
      modifies this`versions, this`top
      ensures Valid() && OthersSame(old(top), top, key)
      ensures r.Ok? <==>
              match id
              case None => Look(old(top), key).meta.Some? && !Look(old(top), key).meta.value.locked
              case Some(v) => (key, v) in old(versions) && !old(versions)[(key, v)].meta.locked
      ensures r.Err? ==> versions == old(versions) && top == old(top)
      ensures r.Err? ==> r.error == if id.None? then (if Look(old(top), key).meta.None? then NotFound else ObjectLocked)
                                    else if (key, id.value) !in old(versions) then VersionNotFound else ObjectLocked
      ensures r.Ok? ==> Some(r.value) == if id.None? then Look(old(top), key).meta else Some(old(versions)[(key, id.value)].meta)
      ensures r.Ok? ==>
                match id
                case None => NullDeleted(old(versions), Look(old(top), key), key, versions, Look(top, key))
                case Some(v) => VersionDeleted(old(versions), Look(old(top), key), key, v, versions, Look(top, key))
    {
      if id.None? {
        if Look(top, key).meta.None? {
          return Err(NotFound);
        }
        var current := Look(top, key).meta.value;
        if current.locked {
          return Err(ObjectLocked);
        }
        top := top - {key};
        UpdateCurrentVersion(key);
        return Ok(current);
      }
      var v := id.value;
      if (key, v) !in versions {
        return Err(VersionNotFound);
      }
      var meta := versions[(key, v)].meta;
      if meta.locked {
        return Err(ObjectLocked);
      }
      versions := versions - {(key, v)};
      UpdateCurrentVersion(key);
      return Ok(meta);
    }

    /**
     `list_object_versions`: the metadata of all versions and of the null versions among the current
     objects, found in any order and then sorted. The walk finds a null version once at its plain file and
     once at its chunk directory.
     */
    method ListObjectVersions() returns (listing: seq<Meta>)
      requires Valid()
      ensures IsListing(versions, listing)
      ensures Lists(versions, top, listing)
      ensures forall i, j :: 0 <= i < j < |listing| ==> Le(listing[i].key, listing[j].key)
    {
      var found := (set kv | kv in versions :: (versions[kv].meta, true))
                 + (set k | k in top && NullMeta(top[k]).Some? && top[k].flat.Some? :: (NullMeta(top[k]).value, true))
                 + (set k | k in top && NullMeta(top[k]).Some? && top[k].chunks.Some? :: (NullMeta(top[k]).value, false));
      ghost var all := found;
      Found(versions, top, all);
      hide Before, Ascending, WellFormed, TopWellFormed, Listable, Lists, IsListing, Once, IsNullAt;
      listing := [];
      NothingListed();
      while found != {}
        invariant Ascending(listing) && Once(listing) && found <= all
        invariant forall m: Meta :: m in listing <==> (m, true) in all - found || (m, false) in all - found
        decreases found
      {
        var x :| x in found;
        NewInListing(versions, top, all, found, listing, x);
        found := found - {x};
        InsertedMeta(x.0, listing);
        InsertedOnce(x.0, listing);
        listing := InsertMeta(x.0, listing);
      }
      assert all - {} == all;
      ListsFound(versions, top, all, listing);
      ListingIs(versions, top, listing);
      KeysAscend(listing);
    }

    /** One turn of the sweep's loop. */
    method SweepOne(rules: seq<Rule>, now: int, listing: seq<Meta>, i: nat, lastKey: Option<Key>,
                    ghost vs: Records, ghost top0: Top, ghost gone: set<(Key, VersionId)>)
      returns (lastKey': Option<Key>, hit: bool, ghost gone': set<(Key, VersionId)>)
      requires Valid() && WellFormed(vs) && IsListing(vs, listing) && i < |listing| && lastKey == LastObjectKey(listing, i)
      requires versions == vs - gone && GoneUpTo(vs, rules, now, listing, i, gone) && TopFollows(top0, versions, top, gone)
      modifies this`versions, this`top
      ensures Valid() && lastKey' == LastObjectKey(listing, i + 1)
      ensures versions == vs - gone' && GoneUpTo(vs, rules, now, listing, i + 1, gone') && TopFollows(top0, versions, top, gone')
      ensures |gone'| == |gone| + if hit then 1 else 0
    {
      hide Restored, Expirable, IsListing, NoncurrentDays, OldEnough, GoneUpTo, TopFollows, IsObject, HasVersions;
      var meta := listing[i];
      lastKey', hit, gone' := lastKey, false, gone;
      ghost var topBefore := top;
      if meta.versionId.Some? {
        NotGoneYet(vs, rules, now, listing, i, gone);
        ExpirableHere(vs, rules, now, listing, i);
      }
      if !meta.isDeleteMarker {
        lastKey' := Some(meta.key);
        var days := NoncurrentDays(rules, meta.key);
        if lastKey == Some(meta.key) && days.Some? && meta.versionId.Some? && OldEnough(meta, now, days.value) {
          var id := meta.versionId.value;
          var r := DeleteObjectVersion(meta.key, Some(id));
          if r.Ok? {
            hit := true;
            gone' := gone + {(meta.key, id)};
            assert vs - gone - {(meta.key, id)} == vs - gone';
            ghost var newest := SomeVersionLeft(vs, rules, now, listing, i, gone, meta.key, id);
            TopStillFollows(top0, vs - gone, versions, topBefore, top, gone, meta.key, id, newest);
          }
        }
      }
      GoneOneMore(vs, rules, now, listing, i, gone, gone');
    }

    /**
     `sweep_noncurrent_version_expiration`. It removes exactly the expirable
     versions, and restores the top-level files of exactly the keys it removed something from.
     */
    method SweepNoncurrent(rules: seq<Rule>, now: int) returns (removed: nat)
      requires Valid()
      modifies this`versions, this`top
      ensures Valid()
      ensures Swept(old(versions), old(top), rules, now, versions, top)
      ensures removed == |Missing(old(versions), versions)|
    {
      hide Restored, Expirable, IsListing, GoneUpTo, IsObject, NoncurrentDays, Missing, TopFollows, LastObjectKey, Swept, RuleFor;
      removed := 0;
      if forall r :: r in rules ==> r.noncurrentDays.None? {
        NothingToSweep(versions, top, rules, now);
        return;
      }
      var listing := ListObjectVersions();
      GoneNothing(versions, rules, now, listing);
      TopFollowsAtFirst(top, versions, listing);
      var lastKey: Option<Key> := None;
      ghost var vs := versions;
      ghost var gone: set<(Key, VersionId)> := {};
      assert vs - gone == vs;
      for i := 0 to |listing|
        invariant Valid() && versions == vs - gone && lastKey == LastObjectKey(listing, i) && removed == |gone|
        invariant GoneUpTo(vs, rules, now, listing, i, gone) && TopFollows(old(top), versions, top, gone)
      {
        var hit;
        lastKey, hit, gone := SweepOne(rules, now, listing, i, lastKey, vs, old(top), gone);
        removed := removed + if hit then 1 else 0;
      }
      WholeListing(vs, rules, now, listing, gone);
      MissingIsGone(vs, rules, now, gone);
      SweptWhenDone(vs, old(top), rules, now, gone, top);
    }
  }

  lemma NothingToSweep(vs: Records, top: Top, rules: seq<Rule>, now: int)
    requires forall r :: r in rules ==> r.noncurrentDays.None?
    ensures Swept(vs, top, rules, now, vs, top) && Missing(vs, vs) == {}
  {
    hide Restored, IsObject, OldEnough;
    assert forall key: Key, id: VersionId :: !Expirable(vs, rules, now, key, id);
  }

  lemma TopFollowsAtFirst(top: Top, vs: Records, listing: seq<Meta>)
    ensures TopFollows(top, vs, top, {}) && LastObjectKey(listing, 0) == None
  {
    hide Restored;
  }

  lemma SweptWhenDone(vs: Records, top: Top, rules: seq<Rule>, now: int, gone: set<(Key, VersionId)>, top': Top)
    requires forall key: Key, id: VersionId :: (key, id) in gone <==> Expirable(vs, rules, now, key, id)
    requires TopFollows(top, vs - gone, top', gone)
    ensures Swept(vs, top, rules, now, vs - gone, top')
  {
    hide Restored, Expirable;
  }

  /** The entries of one set of records that another lacks. */
  function Missing(vs: Records, vs': Records): set<(Key, VersionId)> {
    set kv | kv in vs && kv !in vs'
  }

  lemma MissingIsGone(vs: Records, rules: seq<Rule>, now: int, gone: set<(Key, VersionId)>)
    requires forall key: Key, id: VersionId :: (key, id) in gone <==> Expirable(vs, rules, now, key, id)
    ensures Missing(vs, vs - gone) == gone
  {
    forall kv | kv in gone ensures kv in vs {
      assert (kv.0, kv.1) in gone;
    }
  }

  // ---------------------------------------------------------------- the sweep's bookkeeping

  function Rank(m: Meta): nat {
    if m.versionId.Some? then m.versionId.value + 1 else 0
  }

  /** A listing: every version once, grouped by key and newest first, null versions last. */
  ghost predicate IsListing(vs: Records, listing: seq<Meta>) {
    && (forall key: Key, id: VersionId :: (key, id) in vs ==> vs[(key, id)].meta in listing)
    && (forall i :: 0 <= i < |listing| && listing[i].versionId.Some? ==>
          (listing[i].key, listing[i].versionId.value) in vs && vs[(listing[i].key, listing[i].versionId.value)].meta == listing[i])
    && (forall i, j :: 0 <= i < j < |listing| && listing[i].key == listing[j].key ==>
          Rank(listing[i]) > Rank(listing[j]) || Rank(listing[i]) == Rank(listing[j]) == 0)
    && (forall i, j, k :: 0 <= i < j < k < |listing| && listing[i].key == listing[k].key ==> listing[j].key == listing[i].key)
  }

  /** The order of a listing: by key, and newest first within a key. */
  predicate Before(a: Meta, b: Meta) {
    if a.key == b.key then Rank(a) >= Rank(b) else Le(a.key, b.key)
  }

  lemma BeforeTransitive(a: Meta, b: Meta, c: Meta)
    requires Before(a, b) && Before(b, c)
    ensures Before(a, c)
  {
    if a.key != b.key && b.key != c.key {
      LeTransitive(a.key, b.key, c.key);
      if a.key == c.key {
        LeAntisymmetric(a.key, b.key);
      }
    }
  }

  function InsertMeta(m: Meta, ms: seq<Meta>): seq<Meta> {
    if ms == [] then [m] else if Before(m, ms[0]) then [m] + ms else [ms[0]] + InsertMeta(m, ms[1..])
  }

  ghost predicate Ascending(ms: seq<Meta>) {
    ms != [] ==> (forall m :: m in ms[1..] ==> Before(ms[0], m)) && Ascending(ms[1..])
  }

  lemma NothingListed()
    ensures Ascending([])
  {
  }

  lemma ConsMeta(m: Meta, rest: seq<Meta>)
    ensures ([m] + rest)[1..] == rest
    ensures forall x: Meta :: x in [m] + rest <==> x == m || x in rest
  {
  }

  lemma BeforeTheRest(m: Meta, ms: seq<Meta>)
    requires Ascending(ms) && ms != [] && Before(m, ms[0])
    ensures forall x: Meta :: x in ms ==> Before(m, x)
  {
    hide Before;
    assert ms == [ms[0]] + ms[1..];
    forall x: Meta | x in ms[1..] ensures Before(m, x) {
      BeforeTransitive(m, ms[0], x);
    }
  }

  lemma {:induction false} InsertedMeta(m: Meta, ms: seq<Meta>)
    requires Ascending(ms)
    ensures Ascending(InsertMeta(m, ms))
    ensures forall x: Meta :: x in InsertMeta(m, ms) <==> x == m || x in ms
  {
    hide Before;
    if ms == [] {
      ConsMeta(m, []);
    } else {
      assert ms == [ms[0]] + ms[1..];
      ConsMeta(ms[0], ms[1..]);
      if Before(m, ms[0]) {
        ConsMeta(m, ms);
        BeforeTheRest(m, ms);
      } else {
        OneOrTheOther(m, ms[0]);
        InsertedMeta(m, ms[1..]);
        ConsMeta(ms[0], InsertMeta(m, ms[1..]));
      }
    }
  }

  lemma OneOrTheOther(a: Meta, b: Meta)
    ensures Before(a, b) || Before(b, a)
  {
    LeTotal(a.key, b.key);
  }

  /** No stored version is listed twice. */
  ghost predicate Once(ms: seq<Meta>) {
    ms != [] ==> (ms[0].versionId.Some? ==> ms[0] !in ms[1..]) && Once(ms[1..])
  }

  lemma {:induction false} InsertedOnce(m: Meta, ms: seq<Meta>)
    requires Once(ms) && Ascending(ms) && (m.versionId.Some? ==> m !in ms)
    ensures Once(InsertMeta(m, ms))
  {
    hide Before;
    if ms == [] {
      ConsMeta(m, []);
    } else {
      assert ms == [ms[0]] + ms[1..];
      ConsMeta(ms[0], ms[1..]);
      if Before(m, ms[0]) {
        ConsMeta(m, ms);
      } else {
        InsertedOnce(m, ms[1..]);
        InsertedMeta(m, ms[1..]);
        ConsMeta(ms[0], InsertMeta(m, ms[1..]));
      }
    }
  }

  /** The metadata of a null version. */
  function NullMeta(f: TopFiles): Option<Meta> {
    if f.meta.Some? && f.meta.value.versionId.None? then f.meta else None
  }

  /** A null version that the walk finds. */
  predicate IsNullAt(top: Top, m: Meta) {
    NullMeta(Look(top, m.key)) == Some(m) && (Look(top, m.key).flat.Some? || Look(top, m.key).chunks.Some?)
  }

  /** What a listing consists of: the metadata of every version, and of every null version that is found. */
  ghost predicate Listable(vs: Records, top: Top, all: set<(Meta, bool)>) {
    && (forall key: Key, id: VersionId :: (key, id) in vs ==> (vs[(key, id)].meta, true) in all)
    && (forall m: Meta, b: bool :: (m, b) in all ==>
          match m.versionId
          case Some(id) => b && (m.key, id) in vs && vs[(m.key, id)].meta == m
          case None => IsNullAt(top, m))
    && (forall m: Meta :: m.versionId.None? && IsNullAt(top, m) ==> (m, true) in all || (m, false) in all)
  }

  lemma Found(vs: Records, top: Top, all: set<(Meta, bool)>)
    requires WellFormed(vs) && TopWellFormed(top)
    requires all == (set kv | kv in vs :: (vs[kv].meta, true))
                  + (set k | k in top && NullMeta(top[k]).Some? && top[k].flat.Some? :: (NullMeta(top[k]).value, true))
                  + (set k | k in top && NullMeta(top[k]).Some? && top[k].chunks.Some? :: (NullMeta(top[k]).value, false))
    ensures Listable(vs, top, all)
  {
    forall m: Meta, b: bool | (m, b) in all
      ensures match m.versionId
              case Some(id) => b && (m.key, id) in vs && vs[(m.key, id)].meta == m
              case None => IsNullAt(top, m)
    {
      if kv :| kv in vs && (vs[kv].meta, true) == (m, b) {
        assert (kv.0, kv.1) in vs;
      }
    }
  }

  /** An item that is taken out is a null version or not listed yet; what is listed grows by it. */
  lemma NewInListing(vs: Records, top: Top, all: set<(Meta, bool)>, found: set<(Meta, bool)>, listing: seq<Meta>, x: (Meta, bool))
    requires Listable(vs, top, all) && found <= all && x in found
    requires forall m: Meta :: m in listing <==> (m, true) in all - found || (m, false) in all - found
    ensures x.0.versionId.Some? ==> x.0 !in listing
    ensures forall m: Meta :: m == x.0 || m in listing <==> (m, true) in all - (found - {x}) || (m, false) in all - (found - {x})
  {
    hide IsNullAt;
    var (m, b) := x;
    assert (m, b) in all && (m, b) in found;
    assert m.versionId.Some? ==> b && (m, false) !in all;
  }

  lemma {:induction false} AscendingAt(ms: seq<Meta>)
    requires Ascending(ms)
    ensures forall i, j :: 0 <= i < j < |ms| ==> Before(ms[i], ms[j])
  {
    hide Before;
    if ms != [] {
      AscendingAt(ms[1..]);
      forall i, j | 0 <= i < j < |ms| ensures Before(ms[i], ms[j]) {
        assert ms[j] == ms[1..][j - 1] && ms[j] in ms[1..];
        if i > 0 {
          assert ms[i] == ms[1..][i - 1];
        }
      }
    }
  }

  lemma {:induction false} OnceAt(ms: seq<Meta>)
    requires Once(ms)
    ensures forall i, j :: 0 <= i < j < |ms| && ms[i].versionId.Some? ==> ms[i] != ms[j]
  {
    if ms != [] {
      OnceAt(ms[1..]);
      forall i, j | 0 <= i < j < |ms| && ms[i].versionId.Some? ensures ms[i] != ms[j] {
        assert ms[j] == ms[1..][j - 1] && ms[j] in ms[1..];
        if i > 0 {
          assert ms[i] == ms[1..][i - 1];
        }
      }
    }
  }

  lemma RankDetermines(vs: Records, a: Meta, b: Meta)
    requires a.versionId.Some? ==> (a.key, a.versionId.value) in vs && vs[(a.key, a.versionId.value)].meta == a
    requires b.versionId.Some? ==> (b.key, b.versionId.value) in vs && vs[(b.key, b.versionId.value)].meta == b
    ensures a.key == b.key && Rank(a) == Rank(b) ==> Rank(a) == 0 || (a == b && a.versionId.Some?)
  {
  }

  /** A sequence lists what was found. */
  ghost predicate Lists(vs: Records, top: Top, listing: seq<Meta>) {
    && (forall key: Key, id: VersionId :: (key, id) in vs ==> vs[(key, id)].meta in listing)
    && (forall m: Meta :: m in listing && m.versionId.Some? ==> (m.key, m.versionId.value) in vs && vs[(m.key, m.versionId.value)].meta == m)
    && (forall m: Meta :: m in listing && m.versionId.None? <==> IsNullAt(top, m))
  }

  lemma ListsFound(vs: Records, top: Top, all: set<(Meta, bool)>, listing: seq<Meta>)
    requires Listable(vs, top, all) && forall m: Meta :: m in listing <==> (m, true) in all || (m, false) in all
    ensures Lists(vs, top, listing)
  {
    hide IsNullAt;
    NullsAreNull(top);
  }

  lemma ListingIs(vs: Records, top: Top, listing: seq<Meta>)
    requires Lists(vs, top, listing) && Ascending(listing) && Once(listing)
    ensures IsListing(vs, listing)
  {
    hide Ascending, Once, Before, Rank, IsNullAt;
    AscendingAt(listing);
    OnceAt(listing);
    assert forall i :: 0 <= i < |listing| ==> listing[i] in listing;
    forall i, j | 0 <= i < j < |listing| && listing[i].key == listing[j].key
      ensures Rank(listing[i]) > Rank(listing[j]) || Rank(listing[i]) == Rank(listing[j]) == 0
    {
      RankDetermines(vs, listing[i], listing[j]);
      BeforeInKey(listing[i], listing[j]);
    }
    forall i, j, k | 0 <= i < j < k < |listing| && listing[i].key == listing[k].key
      ensures listing[j].key == listing[i].key
    {
      Between(listing[i], listing[j], listing[k]);
    }
  }

  lemma KeysAscend(listing: seq<Meta>)
    requires Ascending(listing)
    ensures forall i, j :: 0 <= i < j < |listing| ==> Le(listing[i].key, listing[j].key)
  {
    hide Ascending;
    AscendingAt(listing);
    forall i, j | 0 <= i < j < |listing| ensures Le(listing[i].key, listing[j].key) {
      assert Before(listing[i], listing[j]);
      LeTotal(listing[i].key, listing[i].key);
    }
  }

  lemma NullsAreNull(top: Top)
    ensures forall m: Meta :: IsNullAt(top, m) ==> m.versionId.None?
  {
  }

  lemma BeforeInKey(a: Meta, b: Meta)
    requires Before(a, b) && a.key == b.key
    ensures Rank(a) >= Rank(b)
  {
  }

  lemma Between(a: Meta, b: Meta, c: Meta)
    requires Before(a, b) && Before(b, c) && a.key == c.key
    ensures b.key == a.key
  {
    if b.key != a.key {
      LeAntisymmetric(a.key, b.key);
    }
  }

  /** The key of the last listed object version before position `i`. */
  function LastObjectKey(listing: seq<Meta>, i: nat): Option<Key>
    requires i <= |listing|
  {
    if i == 0 then None
    else if listing[i - 1].isDeleteMarker then LastObjectKey(listing, i - 1)
    else Some(listing[i - 1].key)
  }

  lemma {:induction false} LastObjectAt(listing: seq<Meta>, i: nat) returns (j: int)
    requires i <= |listing|
    ensures -1 <= j < i && (forall k :: j < k < i ==> listing[k].isDeleteMarker)
    ensures j >= 0 ==> !listing[j].isDeleteMarker && LastObjectKey(listing, i) == Some(listing[j].key)
    ensures j == -1 ==> LastObjectKey(listing, i) == None
  {
    if i == 0 {
      j := -1;
    } else if listing[i - 1].isDeleteMarker {
      j := LastObjectAt(listing, i - 1);
    } else {
      j := i - 1;
    }
  }

  lemma ListedAt(vs: Records, listing: seq<Meta>, key: Key, id: VersionId) returns (j: nat)
    requires WellFormed(vs) && IsListing(vs, listing) && (key, id) in vs
    ensures j < |listing| && listing[j] == vs[(key, id)].meta && listing[j].key == key && listing[j].versionId == Some(id)
  {
    assert vs[(key, id)].meta in listing;
    j :| 0 <= j < |listing| && listing[j] == vs[(key, id)].meta;
  }

  lemma NotFirstHasNewer(vs: Records, listing: seq<Meta>, i: nat)
    requires IsListing(vs, listing) && i < |listing| && listing[i].versionId.Some?
    requires LastObjectKey(listing, i) == Some(listing[i].key)
    ensures exists w: VersionId :: w > listing[i].versionId.value && IsObject(vs, listing[i].key, w)
  {
    var j := LastObjectAt(listing, i);
    assert Rank(listing[j]) > Rank(listing[i]);
    assert IsObject(vs, listing[i].key, listing[j].versionId.value);
  }

  lemma NewerMeansNotFirst(vs: Records, listing: seq<Meta>, i: nat, w: VersionId)
    requires WellFormed(vs) && IsListing(vs, listing) && i < |listing| && listing[i].versionId.Some?
    requires w > listing[i].versionId.value && IsObject(vs, listing[i].key, w)
    ensures LastObjectKey(listing, i) == Some(listing[i].key)
  {
    var j := LastObjectAt(listing, i);
    var k := ListedAt(vs, listing, listing[i].key, w);
    NewerComesFirst(vs, listing, i, k);
    hide IsListing, LastObjectKey;
    assert k <= j;
    if k < j {
      Together(vs, listing, k, j, i);
    }
  }

  lemma NewerComesFirst(vs: Records, listing: seq<Meta>, i: nat, k: nat)
    requires IsListing(vs, listing) && i < |listing| && k < |listing| && listing[i].key == listing[k].key
    requires Rank(listing[k]) > Rank(listing[i])
    ensures k < i
  {
    assert forall a, b :: 0 <= a < b < |listing| && listing[a].key == listing[b].key ==> Rank(listing[a]) >= Rank(listing[b]);
    hide Rank;
  }

  lemma Together(vs: Records, listing: seq<Meta>, i: nat, j: nat, k: nat)
    requires IsListing(vs, listing) && i < j < k < |listing| && listing[i].key == listing[k].key
    ensures listing[j].key == listing[i].key
  {
    hide Rank;
  }

  /** A listed object version is not the first of its key iff a newer object version exists. */
  lemma FirstIff(vs: Records, listing: seq<Meta>, i: nat)
    requires WellFormed(vs) && IsListing(vs, listing) && i < |listing| && listing[i].versionId.Some?
    ensures LastObjectKey(listing, i) == Some(listing[i].key)
            <==> exists w: VersionId :: w > listing[i].versionId.value && IsObject(vs, listing[i].key, w)
  {
    hide IsListing, LastObjectKey, IsObject;
    if LastObjectKey(listing, i) == Some(listing[i].key) {
      NotFirstHasNewer(vs, listing, i);
    }
    if w: VersionId :| w > listing[i].versionId.value && IsObject(vs, listing[i].key, w) {
      NewerMeansNotFirst(vs, listing, i, w);
    }
  }

  /** The versions removed so far are the expirable ones among those already visited. */
  ghost predicate GoneUpTo(vs: Records, rules: seq<Rule>, now: int, listing: seq<Meta>, i: nat, gone: set<(Key, VersionId)>)
    requires i <= |listing|
  {
    forall key: Key, id: VersionId :: (key, id) in gone <==>
      Expirable(vs, rules, now, key, id) && exists j :: 0 <= j < i && listing[j].key == key && listing[j].versionId == Some(id)
  }

  lemma GoneNothing(vs: Records, rules: seq<Rule>, now: int, listing: seq<Meta>)
    ensures GoneUpTo(vs, rules, now, listing, 0, {})
  {
    hide Expirable;
  }

  lemma NotGoneYet(vs: Records, rules: seq<Rule>, now: int, listing: seq<Meta>, i: nat, gone: set<(Key, VersionId)>)
    requires IsListing(vs, listing) && i < |listing| && listing[i].versionId.Some?
    requires GoneUpTo(vs, rules, now, listing, i, gone)
    ensures (listing[i].key, listing[i].versionId.value) in vs - gone
    ensures (vs - gone)[(listing[i].key, listing[i].versionId.value)].meta == listing[i]
  {
    hide Expirable;
    var key, id := listing[i].key, listing[i].versionId.value;
    forall j | 0 <= j < i && listing[j].key == key
      ensures listing[j].versionId != Some(id)
    {
      OtherId(vs, listing, j, i);
    }
  }

  lemma OtherId(vs: Records, listing: seq<Meta>, j: nat, i: nat)
    requires IsListing(vs, listing) && j < i < |listing| && listing[j].key == listing[i].key && listing[i].versionId.Some?
    ensures listing[j].versionId != listing[i].versionId
  {
  }

  /** A visited version is expirable iff it passes the tests of the loop and is not locked. */
  lemma ExpirableHere(vs: Records, rules: seq<Rule>, now: int, listing: seq<Meta>, i: nat)
    requires WellFormed(vs) && IsListing(vs, listing) && i < |listing| && listing[i].versionId.Some?
    ensures Expirable(vs, rules, now, listing[i].key, listing[i].versionId.value) <==>
              && !listing[i].isDeleteMarker
              && LastObjectKey(listing, i) == Some(listing[i].key)
              && NoncurrentDays(rules, listing[i].key).Some?
              && OldEnough(listing[i], now, NoncurrentDays(rules, listing[i].key).value)
              && !listing[i].locked
  {
    hide NoncurrentDays, OldEnough, LastObjectKey;
    FirstIff(vs, listing, i);
  }

  lemma GoneOneMore(vs: Records, rules: seq<Rule>, now: int, listing: seq<Meta>, i: nat,
                    before: set<(Key, VersionId)>, after: set<(Key, VersionId)>)
    requires WellFormed(vs) && IsListing(vs, listing) && i < |listing| && GoneUpTo(vs, rules, now, listing, i, before)
    requires if listing[i].versionId.Some? && Expirable(vs, rules, now, listing[i].key, listing[i].versionId.value)
             then after == before + {(listing[i].key, listing[i].versionId.value)} else after == before
    ensures GoneUpTo(vs, rules, now, listing, i + 1, after)
  {
    hide Expirable, IsListing;
    forall key: Key, id: VersionId
      ensures (key, id) in after <==>
                Expirable(vs, rules, now, key, id)
                && exists j :: 0 <= j < i + 1 && listing[j].key == key && listing[j].versionId == Some(id)
    {
      assert (key, id) in before <==>
               Expirable(vs, rules, now, key, id) && exists j :: 0 <= j < i && listing[j].key == key && listing[j].versionId == Some(id);
      if listing[i].key == key && listing[i].versionId == Some(id) {
        assert 0 <= i < i + 1;
      }
    }
  }

  lemma NewestIsNotExpirable(vs: Records, rules: seq<Rule>, now: int, key: Key, id: VersionId)
    requires IsNewestObject(vs, key, id)
    ensures !Expirable(vs, rules, now, key, id)
  {
  }

  /** The newest object version of a key the sweep works on is still there. */
  lemma SomeVersionLeft(vs: Records, rules: seq<Rule>, now: int, listing: seq<Meta>, i: nat, gone: set<(Key, VersionId)>,
                        key: Key, id: VersionId) returns (newest: VersionId)
    requires i <= |listing| && GoneUpTo(vs, rules, now, listing, i, gone) && Expirable(vs, rules, now, key, id)
    ensures HasVersions(vs - gone - {(key, id)}, key)
    ensures IsNewestObject(vs - gone, key, newest) && IsNewestObject(vs - gone - {(key, id)}, key, newest)
  {
    newest := NewestObjectExists(vs, key, id);
    NewestIsNotExpirable(vs, rules, now, key, newest);
    assert (key, newest) in vs - gone - {(key, id)};
    assert forall w: VersionId :: IsObject(vs - gone, key, w) ==> IsObject(vs, key, w);
    assert forall w: VersionId :: IsObject(vs - gone - {(key, id)}, key, w) ==> IsObject(vs, key, w);
  }

  /** Keys with a removed version have restored top-level files, all others the ones they had. */
  ghost predicate TopFollows(top0: Top, vs: Records, top: Top, gone: set<(Key, VersionId)>) {
    forall key: Key ::
      if exists id: VersionId :: (key, id) in gone then Restored(vs, key, Look(top0, key), Look(top, key))
      else Look(top, key) == Look(top0, key)
  }

  lemma RestoredElsewhere(vs: Records, vs': Records, key: Key, f: TopFiles, f': TopFiles)
    requires Restored(vs, key, f, f')
    requires forall id: VersionId :: ((key, id) in vs <==> (key, id) in vs') && ((key, id) in vs ==> vs[(key, id)] == vs'[(key, id)])
    ensures Restored(vs', key, f, f')
  {
    forall id: VersionId
      ensures IsObject(vs, key, id) <==> IsObject(vs', key, id)
    {
    }
    assert forall id: VersionId :: IsNewestObject(vs', key, id) ==> IsNewestObject(vs, key, id);
  }

  /** Restoring twice, the newest object being the same, is restoring once. */
  lemma RestoredTwice(vs: Records, vs': Records, key: Key, f: TopFiles, f1: TopFiles, f2: TopFiles, newest: VersionId)
    requires Restored(vs, key, f, f1) && Restored(vs', key, f1, f2)
    requires IsNewestObject(vs, key, newest) && IsNewestObject(vs', key, newest) && vs[(key, newest)] == vs'[(key, newest)]
    ensures Restored(vs', key, f, f2)
  {
    assert f1 == Written(f, vs[(key, newest)]) && f2 == Written(f1, vs[(key, newest)]);
    assert forall id: VersionId :: IsNewestObject(vs', key, id) ==> id == newest;
    assert IsObject(vs', key, newest);
  }

  lemma TopStillFollows(top0: Top, vs: Records, vs': Records, top: Top, top': Top,
                        gone: set<(Key, VersionId)>, key: Key, id: VersionId, newest: VersionId)
    requires TopFollows(top0, vs, top, gone) && vs' == vs - {(key, id)} && OthersSame(top, top', key)
    requires Restored(vs', key, Look(top, key), Look(top', key))
    requires IsNewestObject(vs, key, newest) && IsNewestObject(vs', key, newest)
    ensures TopFollows(top0, vs', top', gone + {(key, id)})
  {
    hide Restored, IsNewestObject, Look;
    var gone' := gone + {(key, id)};
    forall k: Key
      ensures if exists w :: (k, w) in gone' then Restored(vs', k, Look(top0, k), Look(top', k)) else Look(top', k) == Look(top0, k)
    {
      assert (key, id) in gone';
      if k != key {
        assert forall w :: (k, w) in gone' <==> (k, w) in gone;
        if exists w :: (k, w) in gone {
          RestoredElsewhere(vs, vs', k, Look(top0, k), Look(top, k));
        }
      } else if exists w :: (key, w) in gone {
        NewestIsStored(vs', key, newest);
        RestoredTwice(vs, vs', key, Look(top0, key), Look(top, key), Look(top', key), newest);
      }
    }
  }

  lemma NewestIsStored(vs: Records, key: Key, newest: VersionId)
    requires IsNewestObject(vs, key, newest)
    ensures (key, newest) in vs
  {
  }

  lemma WholeListing(vs: Records, rules: seq<Rule>, now: int, listing: seq<Meta>, gone: set<(Key, VersionId)>)
    requires WellFormed(vs) && IsListing(vs, listing) && GoneUpTo(vs, rules, now, listing, |listing|, gone)
    ensures forall key: Key, id: VersionId :: (key, id) in gone <==> Expirable(vs, rules, now, key, id)
  {
    forall key: Key, id: VersionId | Expirable(vs, rules, now, key, id)
      ensures (key, id) in gone
    {
      var j := ListedAt(vs, listing, key, id);
    }
  }

  // ---------------------------------------------------------------- when the current object is right

  /**
   Restoring the newest object version gives what versioning promises if and only if nothing but delete
   markers is left, or the newest entry is not a delete marker and no chunk directory of another object hides it.
   */
  lemma RestoreIsRightIff(vs: Records, key: Key, f: TopFiles, f': TopFiles, newest: VersionId)
    requires Restored(vs, key, f, f') && IsNewestEntry(vs, key, newest)
    ensures InSync(vs, f', key) <==>
              || (!vs[(key, newest)].meta.isDeleteMarker && Unshadowed(f, vs[(key, newest)]))
              || forall id: VersionId :: !IsObject(vs, key, id)
  {
    assert (key, newest) in vs;
    if !vs[(key, newest)].meta.isDeleteMarker {
      assert IsNewestObject(vs, key, newest) && IsObject(vs, key, newest);
      WrittenIsServedIff(f, vs[(key, newest)]);
    } else if id: VersionId :| IsObject(vs, key, id) {
      var best := NewestObjectExists(vs, key, id);
      WrittenIsServedIff(f, vs[(key, best)]);
    }
    assert forall w: VersionId :: IsNewestEntry(vs, key, w) ==> w == newest;
  }

  /** The newest object version and the newest entry, marker or not, outlive a sweep unchanged. */
  lemma SweepKeepsNewest(vs: Records, top: Top, rules: seq<Rule>, now: int, vs': Records, top': Top,
                         key: Key, id: VersionId)
    requires Swept(vs, top, rules, now, vs', top')
    ensures IsNewestObject(vs, key, id) ==> IsNewestObject(vs', key, id) && vs'[(key, id)] == vs[(key, id)]
    ensures IsNewestEntry(vs, key, id) ==> IsNewestEntry(vs', key, id) && vs'[(key, id)] == vs[(key, id)]
  {
    assert !((key, id) in vs && vs[(key, id)].meta.isDeleteMarker && Expirable(vs, rules, now, key, id));
    if IsNewestObject(vs, key, id) {
      NewestIsNotExpirable(vs, rules, now, key, id);
      assert forall w: VersionId :: IsObject(vs', key, w) ==> IsObject(vs, key, w);
    }
    if IsNewestEntry(vs, key, id) && !vs[(key, id)].meta.isDeleteMarker {
      assert IsNewestObject(vs, key, id);
      NewestIsNotExpirable(vs, rules, now, key, id);
    }
  }

  /** When a version is old enough to go, from the rules and its timestamp alone. */
  ghost predicate Expired(m: Meta, rules: seq<Rule>, now: int) {
    exists i: nat, days: nat ::
      && Governs(rules, i, m.key) && rules[i].noncurrentDays == Some(days) && m.lastModified.Some?
      && if days > 0 then now - m.lastModified.value >= 86400 * days else now - m.lastModified.value > -86400
  }

  lemma ExpiredIff(m: Meta, rules: seq<Rule>, now: int)
    ensures Expired(m, rules, now) <==> NoncurrentDays(rules, m.key).Some? && OldEnough(m, now, NoncurrentDays(rules, m.key).value)
  {
    var d := NoncurrentDays(rules, m.key);
    if d.Some? {
      NoncurrentDaysIff(rules, m.key, d.value);
      OldEnoughIff(m, now, d.value);
    }
    if i: nat, days: nat :|
        && Governs(rules, i, m.key) && rules[i].noncurrentDays == Some(days) && m.lastModified.Some?
        && (if days > 0 then now - m.lastModified.value >= 86400 * days else now - m.lastModified.value > -86400) {
      NoncurrentDaysIff(rules, m.key, days);
      OldEnoughIff(m, now, days);
    }
  }

  /**
   Whatever the rules and the history, a sweep removes a version if and only if it is an object version, not
   locked, superseded by a newer object version and old enough for the rule with the longest matching prefix.
   */
  lemma SweepRemovesIff(vs: Records, top: Top, rules: seq<Rule>, now: int, vs': Records, top': Top, key: Key, id: VersionId)
    requires WellFormed(vs) && Swept(vs, top, rules, now, vs', top') && (key, id) in vs
    ensures (key, id) !in vs' <==>
              var m := vs[(key, id)].meta;
              && !m.isDeleteMarker && !m.locked && Expired(m, rules, now)
              && exists w: VersionId :: w > id && (key, w) in vs && !vs[(key, w)].meta.isDeleteMarker
  {
    ExpiredIff(vs[(key, id)].meta, rules, now);
    hide Expired, NoncurrentDays, OldEnough;
    assert forall w: VersionId :: IsObject(vs, key, w) <==> (key, w) in vs && !vs[(key, w)].meta.isDeleteMarker;
  }

  /** What supersedes a removed version is still there after the sweep. */
  lemma SweepIsSafe(vs: Records, top: Top, rules: seq<Rule>, now: int, vs': Records, top': Top,
                    key: Key, id: VersionId)
    requires WellFormed(vs) && Swept(vs, top, rules, now, vs', top') && (key, id) in vs && (key, id) !in vs'
    ensures !vs[(key, id)].meta.locked && !vs[(key, id)].meta.isDeleteMarker && Expired(vs[(key, id)].meta, rules, now)
    ensures exists w: VersionId :: w > id && (key, w) in vs' && vs'[(key, w)] == vs[(key, w)] && !vs'[(key, w)].meta.isDeleteMarker
  {
    hide Expired, NoncurrentDays, OldEnough;
    SweepRemovesIff(vs, top, rules, now, vs', top', key, id);
    var newest := NewestObjectExists(vs, key, id);
    SweepKeepsNewest(vs, top, rules, now, vs', top', key, newest);
    var w: VersionId :| w > id && IsObject(vs, key, w);
    assert newest > id && IsObject(vs', key, newest);
  }

  /**
   A sweep that removes something from a key leaves its current object as versioning promises if and
   only if the newest entry of the key is not a delete marker and not hidden by a chunk directory at the top.
   */
  lemma SweepIsInSyncIff(vs: Records, top: Top, rules: seq<Rule>, now: int, vs': Records, top': Top,
                         key: Key, some: VersionId, newest: VersionId)
    requires Swept(vs, top, rules, now, vs', top') && Expirable(vs, rules, now, key, some) && IsNewestEntry(vs, key, newest)
    ensures InSync(vs', Look(top', key), key) <==>
              !vs[(key, newest)].meta.isDeleteMarker && Unshadowed(Look(top, key), vs[(key, newest)])
  {
    hide InSync, Restored, Expirable;
    SweepKeepsNewest(vs, top, rules, now, vs', top', key, newest);
    assert IsObject(vs, key, some) by { ExpirableIsObject(vs, rules, now, key, some); }
    var best := NewestObjectExists(vs, key, some);
    SweepKeepsNewest(vs, top, rules, now, vs', top', key, best);
    assert IsObject(vs', key, best);
    RestoreIsRightIff(vs', key, Look(top, key), Look(top', key), newest);
  }

  lemma ExpirableIsObject(vs: Records, rules: seq<Rule>, now: int, key: Key, id: VersionId)
    requires Expirable(vs, rules, now, key, id)
    ensures IsObject(vs, key, id)
  {
  }

  /** So a deleted object comes back: its key was hidden by a delete marker, and after the sweep it is not. */
  lemma SweepResurrects(vs: Records, top: Top, rules: seq<Rule>, now: int, vs': Records, top': Top,
                        key: Key, some: VersionId, newest: VersionId)
    requires Swept(vs, top, rules, now, vs', top') && Expirable(vs, rules, now, key, some)
    requires InSync(vs, Look(top, key), key) && IsNewestEntry(vs, key, newest) && vs[(key, newest)].meta.isDeleteMarker
    ensures Served(Look(top, key)).None? && Served(Look(top', key)).Some? && !Served(Look(top', key)).value.0.isDeleteMarker
  {
    hide Expirable;
    ExpirableIsObject(vs, rules, now, key, some);
    var best := NewestObjectExists(vs, key, some);
    SweepKeepsNewest(vs, top, rules, now, vs', top', key, best);
    assert Restored(vs', key, Look(top, key), Look(top', key));
    WrittenIsServedIff(Look(top, key), vs'[(key, best)]);
  }

  predicate IsNull(f: TopFiles) {
    NullMeta(f).Some?
  }

  /** Restoring a stored version overwrites a null version, which lives in the top-level files only. */
  lemma RestoredIsNotNull(vs: Records, key: Key, f: TopFiles, f': TopFiles)
    requires WellFormed(vs) && Restored(vs, key, f, f')
    ensures !IsNull(f')
  {
    if id: VersionId :| IsObject(vs, key, id) {
      var best := NewestObjectExists(vs, key, id);
    }
  }

  /** A sweep keeps a null version iff it has nothing to remove from the key's stored versions. */
  lemma SweepKeepsNullVersionIff(vs: Records, top: Top, rules: seq<Rule>, now: int, vs': Records, top': Top, key: Key)
    requires WellFormed(vs) && Swept(vs, top, rules, now, vs', top') && IsNull(Look(top, key))
    ensures Look(top', key) == Look(top, key) <==> forall id: VersionId :: !Expirable(vs, rules, now, key, id)
  {
    hide Expirable;
    if id: VersionId :| Expirable(vs, rules, now, key, id) {
      assert Restored(vs', key, Look(top, key), Look(top', key));
      assert WellFormed(vs');
      RestoredIsNotNull(vs', key, Look(top, key), Look(top', key));
    }
  }

  /** Deleting a stored version keeps a null version iff it was the last entry of the key. */
  lemma DeleteKeepsNullVersionIff(vs: Records, key: Key, f: TopFiles, id: VersionId, vs': Records, f': TopFiles)
    requires WellFormed(vs) && VersionDeleted(vs, f, key, id, vs', f') && IsNull(f)
    ensures f' == f <==> !HasVersions(vs', key)
  {
    if HasVersions(vs', key) {
      assert WellFormed(vs');
      RestoredIsNotNull(vs', key, f, f');
    }
  }

  /** Keys that a sweep leaves alone stay as they were. */
  lemma SweepLeavesOthers(vs: Records, top: Top, rules: seq<Rule>, now: int, vs': Records, top': Top, key: Key)
    requires Swept(vs, top, rules, now, vs', top') && InSync(vs, Look(top, key), key)
    requires forall id: VersionId :: !Expirable(vs, rules, now, key, id)
    ensures InSync(vs', Look(top', key), key)
  {
    hide Expirable;
    assert forall id: VersionId :: (key, id) in vs <==> (key, id) in vs';
    assert forall id: VersionId :: IsNewestEntry(vs', key, id) ==> IsNewestEntry(vs, key, id);
    assert HasVersions(vs', key) <==> HasVersions(vs, key);
  }

  /** After deleting the null version the key is in sync iff its newest stored entry is not a delete marker, or only markers are stored. */
  lemma NullDeleteIsInSyncIff(vs: Records, key: Key, f: TopFiles, vs': Records, f': TopFiles)
    requires NullDeleted(vs, f, key, vs', f')
    ensures InSync(vs', f', key) <==>
              || (forall w: VersionId :: IsNewestEntry(vs, key, w) ==> !vs[(key, w)].meta.isDeleteMarker)
              || (forall w: VersionId :: !IsObject(vs, key, w))
  {
    if HasVersions(vs, key) {
      hide InSync, Restored;
      var some: VersionId :| (key, some) in vs;
      var newest := NewestEntryExists(vs, key, some);
      RestoreIsRightIff(vs', key, NO_FILES, f', newest);
      assert forall w: VersionId :: IsNewestEntry(vs, key, w) ==> w == newest;
    }
  }

  /**
   Deleting a version leaves its key in sync if and only if
   - some version is left, and only markers are left, or the newest entry left is an object and no chunk
     directory of another object hides it; or
   - nothing is left, and nothing is served. With the last version the directory goes, and then the
     top-level files stay as they are: those of the deleted object too, if it was the current one.
   */
  lemma DeleteIsInSyncIff(vs: Records, key: Key, f: TopFiles, id: VersionId, vs': Records, f': TopFiles)
    requires VersionDeleted(vs, f, key, id, vs', f')
    ensures InSync(vs', f', key) <==>
              if HasVersions(vs', key) then
                || (forall w: VersionId :: IsNewestEntry(vs', key, w) ==> !vs'[(key, w)].meta.isDeleteMarker && Unshadowed(f, vs'[(key, w)]))
                || (forall w: VersionId :: !IsObject(vs', key, w))
              else Served(f).None?
    ensures InSync(vs, f, key) && !HasVersions(vs', key) ==> (Served(f).None? <==> vs[(key, id)].meta.isDeleteMarker)
  {
    if HasVersions(vs', key) {
      hide InSync, Restored;
      var some: VersionId :| (key, some) in vs';
      var newest := NewestEntryExists(vs', key, some);
      RestoreIsRightIff(vs', key, f, f', newest);
      assert forall w: VersionId :: IsNewestEntry(vs', key, w) ==> w == newest;
    } else {
      forall w: VersionId | (key, w) in vs
        ensures w == id
      {
        assert w != id ==> (key, w) in vs';
      }
      assert IsNewestEntry(vs, key, id);
      assert forall w: VersionId :: !IsNewestEntry(vs', key, w);
    }
  }

  // ---------------------------------------------------------------- the index

  /** The entry that a walk of the files finds for a key. */
  function Walked(f: TopFiles): Option<Meta> {
    if Served(f).Some? then f.meta else None
  }

  /**
   The index is told of writes only. For a key in sync whose last write was version `id`, it lists what a
   walk finds iff that version is still the newest entry: no delete marker came after it, and it was not deleted.
   */
  lemma IndexIsCurrentIff(vs: Records, key: Key, f: TopFiles, indexed: Meta, id: VersionId)
    requires WellFormed(vs) && InSync(vs, f, key) && indexed.versionId == Some(id)
    requires (key, id) in vs ==> vs[(key, id)].meta == indexed
    requires !indexed.isDeleteMarker
    ensures Walked(f) == Some(indexed) <==> IsNewestEntry(vs, key, id)
  {
    if HasVersions(vs, key) {
      var some: VersionId :| (key, some) in vs;
      var newest := NewestEntryExists(vs, key, some);
      assert IsNewestEntry(vs, key, id) ==> id == newest;
    }
  }

  // ---------------------------------------------------------------- short histories

  const K: Key := "k"
  const FIRST: Record := Record(Meta(K, Some(1), false, Some(0), false), [1], false)
  const SECOND: Record := Record(Meta(K, Some(2), false, Some(0), false), [2], true)
  const UNVERSIONED: Record := Record(Meta(K, None, false, Some(0), false), [3], false)
  const AFTER_A_DAY: seq<Rule> := [Rule([], Some(1))]

  /** The sweep brings a deleted object back. */
  method DeletedObjectComesBack() returns (before: Option<(Meta, seq<Byte>)>, after: Option<(Meta, seq<Byte>)>)
    ensures before.None? && after.Some?
  {
    var store := new Store();
    store.PutVersion(K, 1, FIRST);
    store.PutVersion(K, 2, SECOND);
    store.WriteDeleteMarker(K, 3, 0);
    before := Served(Look(store.top, K));
    ghost var vs, top := store.versions, store.top;
    FirstIsExpirable(vs);
    assert IsNewestEntry(vs, K, 3);
    var _ := store.SweepNoncurrent(AFTER_A_DAY, SECONDS_PER_DAY);
    SweepResurrects(vs, top, AFTER_A_DAY, SECONDS_PER_DAY, store.versions, store.top, K, 1, 3);
    after := Served(Look(store.top, K));
  }

  /** The index goes on listing a deleted object. */
  method DeletedObjectStaysIndexed() returns (walked: Option<Meta>, indexed: Option<Meta>)
    ensures walked.None? && indexed == Some(FIRST.meta)
  {
    var store := new Store();
    store.PutVersion(K, 1, FIRST);
    store.WriteDeleteMarker(K, 2, 0);
    walked := Walked(Look(store.top, K));
    indexed := if K in store.index then Some(store.index[K]) else None;
  }

  /** A plain version is written, then a chunked one; deleting the second leaves its bytes to be served as the first. */
  method DeletedBytesAreServed() returns (served: Option<(Meta, seq<Byte>)>)
    ensures served == Some((FIRST.meta, SECOND.data)) && SECOND.data != FIRST.data
  {
    var store := new Store();
    store.PutVersion(K, 1, FIRST);
    store.PutVersion(K, 2, SECOND);
    ghost var f := Look(store.top, K);
    var _ := store.DeleteObjectVersion(K, Some(2));
    assert (K, 1) in store.versions && IsNewestObject(store.versions, K, 1);
    assert Look(store.top, K) == Written(f, FIRST);
    served := Served(Look(store.top, K));
  }

  /** The sweep loses what was written last, while versioning was suspended. */
  method NullVersionIsLost() returns (written: Record, current: TopFiles)
    ensures written.meta.versionId == None && current.meta != Some(written.meta)
  {
    var store := new Store();
    store.PutVersion(K, 1, FIRST);
    store.PutVersion(K, 2, SECOND);
    written := UNVERSIONED;
    store.PutUnversioned(K, written);
    ghost var vs, top := store.versions, store.top;
    FirstIsExpirable(vs);
    var _ := store.SweepNoncurrent(AFTER_A_DAY, SECONDS_PER_DAY);
    assert Restored(store.versions, K, Look(top, K), Look(store.top, K));
    RestoredIsNotNull(store.versions, K, Look(top, K), Look(store.top, K));
    current := Look(store.top, K);
  }

  lemma FirstIsExpirable(vs: Records)
    requires (K, 1) in vs && vs[(K, 1)] == FIRST && (K, 2) in vs && vs[(K, 2)] == SECOND
    ensures Expirable(vs, AFTER_A_DAY, SECONDS_PER_DAY, K, 1)
  {
    assert IsObject(vs, K, 2);
    assert RuleFor(AFTER_A_DAY, K).Some? by { assert AFTER_A_DAY[0] in AFTER_A_DAY && AppliesTo(AFTER_A_DAY[0], K); }
  }
}
