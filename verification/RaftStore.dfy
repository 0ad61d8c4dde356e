/**
 The storage tier's Raft store: the in-memory log, the replicated state machine and its snapshots.
 Consensus itself (elections, replication, what is committed) is OpenRaft's; the rules it keeps when it
 calls the store are the guards of `Allowed` below.
 */
module RaftStore {
  import opened Base

  type NodeId = nat
  datatype LogId = LogId(term: nat, index: nat)
  datatype Placement = Placement(dataShards: nat, parityShards: nat, placements: seq<(nat, string)>)
  type Membership = set<NodeId>

  datatype Mutation =
    | CreateBucket(name: string, region: string)
    | DeleteBucket(name: string)
    | PutShardMap(bucket: string, key: string, placement: Placement)

  datatype Payload = Blank | Normal(mutation: Mutation) | Members(members: Membership)
  datatype Entry = Entry(logId: LogId, payload: Payload)

  datatype SmData = SmData(
    lastApplied: Option<LogId>,
    lastMembership: (Option<LogId>, Membership),
    buckets: set<string>,
    shardMaps: map<string, Placement>)

  const INITIAL: SmData := SmData(None, (None, {}), {}, map[])

  // ---------------------------------------------------------------- the specification

  /** `apply_mutation`, as far as the replicated data is concerned. */
  function Mutate(sm: SmData, m: Mutation): SmData {
    match m
    case CreateBucket(name, _) => sm.(buckets := sm.buckets + {name})
    case DeleteBucket(name) => sm.(buckets := sm.buckets - {name})
    case PutShardMap(bucket, key, p) => sm.(shardMaps := sm.shardMaps[bucket + "/" + key := p])
  }

  /** One entry, applied as a whole. */
  function ApplyEntry(sm: SmData, e: Entry): SmData {
    var marked := sm.(lastApplied := Some(e.logId));
    match e.payload
    case Blank => marked
    case Normal(m) => Mutate(marked, m)
    case Members(mem) => marked.(lastMembership := (Some(e.logId), mem))
  }

  function ApplyAll(sm: SmData, es: seq<Entry>): SmData {
    if es == [] then sm else ApplyEntry(ApplyAll(sm, es[..|es| - 1]), es[|es| - 1])
  }

  /** How many entries a state has applied. */
  function Applied(sm: SmData): nat {
    if sm.lastApplied.Some? then sm.lastApplied.value.index + 1 else 0
  }

  lemma {:induction false} ApplyAllConcat(sm: SmData, a: seq<Entry>, b: seq<Entry>)
    ensures ApplyAll(sm, a + b) == ApplyAll(ApplyAll(sm, a), b)
  {
    if b == [] {
      assert a + b == a;
    } else {
      var init := b[..|b| - 1];
      assert (a + b)[..|a + b| - 1] == a + init;
      ApplyAllConcat(sm, a, init);
    }
  }

  /** However a run of entries is cut into batches, applying the batches in order is applying the run. */
  lemma {:induction false} BatchingIsUnobservable(sm: SmData, batches: seq<seq<Entry>>)
    ensures ApplyBatches(sm, batches) == ApplyAll(sm, Concat(batches))
  {
    if batches != [] {
      BatchingIsUnobservable(sm, batches[..|batches| - 1]);
      ApplyAllConcat(sm, Concat(batches[..|batches| - 1]), batches[|batches| - 1]);
    }
  }

  function ApplyBatches(sm: SmData, batches: seq<seq<Entry>>): SmData {
    if batches == [] then sm
    else ApplyAll(ApplyBatches(sm, batches[..|batches| - 1]), batches[|batches| - 1])
  }

  function Concat(batches: seq<seq<Entry>>): seq<Entry> {
    if batches == [] then [] else Concat(batches[..|batches| - 1]) + batches[|batches| - 1]
  }

  /** The state that the first `n` committed entries determine. */
  function Fold(committed: seq<Entry>, n: nat): SmData
    requires n <= |committed|
  {
    ApplyAll(INITIAL, committed[..n])
  }

  // ---------------------------------------------------------------- what a state holds

  predicate CreatesBucket(e: Entry, name: string) {
    e.payload.Normal? && e.payload.mutation.CreateBucket? && e.payload.mutation.name == name
  }

  predicate DeletesBucket(e: Entry, name: string) {
    e.payload.Normal? && e.payload.mutation.DeleteBucket? && e.payload.mutation.name == name
  }

  predicate PutsShardMap(e: Entry, id: string) {
    e.payload.Normal? && e.payload.mutation.PutShardMap? && e.payload.mutation.bucket + "/" + e.payload.mutation.key == id
  }

  /** Entry `i` is the last one with a membership. */
  ghost predicate LastMembers(es: seq<Entry>, i: nat) {
    i < |es| && es[i].payload.Members? && forall j :: i < j < |es| ==> !es[j].payload.Members?
  }

  /** Entry `i` is the last placement of an object. */
  ghost predicate LastPut(es: seq<Entry>, i: nat, id: string) {
    i < |es| && PutsShardMap(es[i], id) && forall j :: i < j < |es| ==> !PutsShardMap(es[j], id)
  }

  /** The membership of the last entry that carries one. */
  ghost predicate HoldsMembers(es: seq<Entry>, last: (Option<LogId>, Membership)) {
    && ((forall i :: 0 <= i < |es| ==> !es[i].payload.Members?) ==> last == (None, {}))
    && forall i: nat :: LastMembers(es, i) ==> last == (Some(es[i].logId), es[i].payload.members)
  }

  /** The buckets that were created and not deleted after that. */
  ghost predicate HoldsBuckets(es: seq<Entry>, buckets: set<string>) {
    forall name :: name in buckets <==>
      exists i :: 0 <= i < |es| && CreatesBucket(es[i], name) && forall j :: i < j < |es| ==> !DeletesBucket(es[j], name)
  }

  /** For every object that has been placed, its last placement. */
  ghost predicate HoldsShardMaps(es: seq<Entry>, maps: map<string, Placement>) {
    && (forall id :: id in maps ==> exists i :: 0 <= i < |es| && PutsShardMap(es[i], id))
    && forall i: nat, id :: LastPut(es, i, id) ==> id in maps && maps[id] == es[i].payload.mutation.placement
  }

  /** What a state says after exactly these entries, from the entries alone. */
  ghost predicate Holds(es: seq<Entry>, sm: SmData) {
    && sm.lastApplied == (if es == [] then None else Some(es[|es| - 1].logId))
    && HoldsMembers(es, sm.lastMembership) && HoldsBuckets(es, sm.buckets) && HoldsShardMaps(es, sm.shardMaps)
  }

  lemma LastMembersOneMore(es: seq<Entry>, e: Entry, i: nat)
    ensures LastMembers(es + [e], i) <==> if e.payload.Members? then i == |es| else LastMembers(es, i)
  {
    var all := es + [e];
    assert all[|es|] == e && forall j :: 0 <= j < |es| ==> all[j] == es[j];
  }

  lemma MembersOneMore(es: seq<Entry>, last: (Option<LogId>, Membership), e: Entry)
    requires HoldsMembers(es, last)
    ensures HoldsMembers(es + [e], if e.payload.Members? then (Some(e.logId), e.payload.members) else last)
  {
    var all := es + [e];
    assert all[|es|] == e && forall i :: 0 <= i < |es| ==> all[i] == es[i];
    hide LastMembers;
    forall i: nat
      ensures LastMembers(all, i) <==> if e.payload.Members? then i == |es| else LastMembers(es, i)
    {
      LastMembersOneMore(es, e, i);
    }
    LastMembersIsOne();
  }

  lemma LastMembersIsOne()
    ensures forall es, i: nat :: LastMembers(es, i) ==> i < |es|
  {
  }

  lemma BucketsOneMore(es: seq<Entry>, buckets: set<string>, e: Entry, after: set<string>)
    requires HoldsBuckets(es, buckets)
    requires forall name :: name in after <==> CreatesBucket(e, name) || (name in buckets && !DeletesBucket(e, name))
    ensures HoldsBuckets(es + [e], after)
  {
    var all := es + [e];
    assert all[|es|] == e && forall i :: 0 <= i < |es| ==> all[i] == es[i];
    hide CreatesBucket, DeletesBucket;
    forall name
      ensures name in after <==>
                exists i :: 0 <= i < |all| && CreatesBucket(all[i], name) && forall j :: i < j < |all| ==> !DeletesBucket(all[j], name)
    {
      if CreatesBucket(e, name) {
        assert CreatesBucket(all[|es|], name);
      } else if name in after {
        var i :| 0 <= i < |es| && CreatesBucket(es[i], name) && forall j :: i < j < |es| ==> !DeletesBucket(es[j], name);
        assert CreatesBucket(all[i], name) && forall j :: i < j < |all| ==> !DeletesBucket(all[j], name);
      }
    }
  }

  lemma LastPutOneMore(es: seq<Entry>, e: Entry, i: nat, id: string)
    ensures LastPut(es + [e], i, id) <==> if PutsShardMap(e, id) then i == |es| else LastPut(es, i, id)
    ensures LastPut(es, i, id) ==> i < |es|
  {
    hide PutsShardMap;
    var all := es + [e];
    assert all[|es|] == e && forall j :: 0 <= j < |es| ==> all[j] == es[j];
  }

  lemma ShardMapsOneMore(es: seq<Entry>, maps: map<string, Placement>, e: Entry, after: map<string, Placement>)
    requires HoldsShardMaps(es, maps)
    requires forall id :: id in after <==> id in maps || PutsShardMap(e, id)
    requires forall id :: id in after ==> after[id] == if PutsShardMap(e, id) then e.payload.mutation.placement else maps[id]
    ensures HoldsShardMaps(es + [e], after)
  {
    var all := es + [e];
    assert all[|es|] == e && forall i :: 0 <= i < |es| ==> all[i] == es[i];
    hide PutsShardMap, LastPut;
    forall id | id in after
      ensures exists i :: 0 <= i < |all| && PutsShardMap(all[i], id)
    {
      if PutsShardMap(e, id) {
        assert PutsShardMap(all[|es|], id);
      } else {
        var i :| 0 <= i < |es| && PutsShardMap(es[i], id);
        assert PutsShardMap(all[i], id);
      }
    }
    forall i: nat, id | LastPut(all, i, id)
      ensures id in after && after[id] == all[i].payload.mutation.placement
    {
      LastPutOneMore(es, e, i, id);
    }
  }

  lemma HoldsOneMore(es: seq<Entry>, sm: SmData, e: Entry)
    requires Holds(es, sm)
    ensures Holds(es + [e], ApplyEntry(sm, e))
  {
    hide HoldsMembers, HoldsBuckets, HoldsShardMaps;
    var after := ApplyEntry(sm, e);
    MembersOneMore(es, sm.lastMembership, e);
    BucketsOneMore(es, sm.buckets, e, after.buckets);
    ShardMapsOneMore(es, sm.shardMaps, e, after.shardMaps);
  }

  /** There is a last placement if there is one. */
  lemma {:induction false} FindLastPut(es: seq<Entry>, id: string, i: nat) returns (k: nat)
    requires i < |es| && PutsShardMap(es[i], id)
    ensures LastPut(es, k, id)
  {
    hide PutsShardMap, LastPut;
    var front, e := es[..|es| - 1], es[|es| - 1];
    k := |es| - 1;
    if !PutsShardMap(e, id) {
      k := FindLastPut(front, id, i);
    }
    LastPutOneMore(front, e, k, id);
    assert front + [e] == es;
  }

  lemma {:induction false} FindLastMembers(es: seq<Entry>, i: nat) returns (k: nat)
    requires i < |es| && es[i].payload.Members?
    ensures LastMembers(es, k)
  {
    k := |es| - 1;
    if !es[k].payload.Members? {
      k := FindLastMembers(es[..k], i);
    }
  }

  lemma ShardMapAt(es: seq<Entry>, a: map<string, Placement>, b: map<string, Placement>, id: string)
    requires HoldsShardMaps(es, a) && HoldsShardMaps(es, b) && id in a
    ensures id in b && a[id] == b[id]
  {
    hide PutsShardMap, LastPut;
    var i :| 0 <= i < |es| && PutsShardMap(es[i], id);
    var k := FindLastPut(es, id, i);
  }

  lemma SameShardMaps(es: seq<Entry>, a: map<string, Placement>, b: map<string, Placement>)
    requires HoldsShardMaps(es, a) && HoldsShardMaps(es, b)
    ensures a == b
  {
    hide HoldsShardMaps;
    forall id | id in a
      ensures id in b && a[id] == b[id]
    {
      ShardMapAt(es, a, b, id);
    }
    forall id | id in b
      ensures id in a
    {
      ShardMapAt(es, b, a, id);
    }
  }

  lemma SameMembers(es: seq<Entry>, a: (Option<LogId>, Membership), b: (Option<LogId>, Membership))
    requires HoldsMembers(es, a) && HoldsMembers(es, b)
    ensures a == b
  {
    if i :| 0 <= i < |es| && es[i].payload.Members? {
      var k := FindLastMembers(es, i);
    }
  }

  /** The fold of a log is the one state that holds what the log says. */
  lemma {:induction false} FoldIs(es: seq<Entry>, sm: SmData)
    ensures sm == ApplyAll(INITIAL, es) <==> Holds(es, sm)
  {
    var fold := ApplyAll(INITIAL, es);
    if es == [] {
      assert Holds(es, fold);
    } else {
      FoldIs(es[..|es| - 1], ApplyAll(INITIAL, es[..|es| - 1]));
      HoldsOneMore(es[..|es| - 1], ApplyAll(INITIAL, es[..|es| - 1]), es[|es| - 1]);
      assert es[..|es| - 1] + [es[|es| - 1]] == es;
    }
    if Holds(es, sm) {
      SameMembers(es, sm.lastMembership, fold.lastMembership);
      SameShardMaps(es, sm.shardMaps, fold.shardMaps);
      assert sm.buckets == fold.buckets;
    }
  }

  /** A state that holds what the log says still does after further entries. */
  lemma HoldsFurther(es: seq<Entry>, sm: SmData, more: seq<Entry>)
    requires Holds(es, sm)
    ensures Holds(es + more, ApplyAll(sm, more))
  {
    hide Holds, ApplyAll;
    FoldIs(es, sm);
    ApplyAllConcat(INITIAL, es, more);
    FoldIs(es + more, ApplyAll(sm, more));
  }

  // ---------------------------------------------------------------- one node, call by call

  /**
   One store, together with the mutation its apply task still has to carry out, and with how much of the
   log OpenRaft knows to be committed.
   */
  datatype Node = Node(
    log: map<nat, Entry>,
    sm: SmData,
    inFlight: Option<Mutation>,
    snapshot: Option<SmData>,
    commit: nat)

  /**
   The calls into a store. `apply_to_state_machine` records `last_applied_log`, releases the lock, and only
   then carries out a mutation, so an entry is applied in two halves.
   */
  datatype Call =
    | Append(entries: seq<Entry>)
    | DeleteConflicts(from: nat)
    | Purge(upto: nat)
    | LearnCommit(upto: nat)
    | BeginApply
    | FinishApply
    | BuildSnapshot
    | InstallSnapshot(data: SmData)

  /** The first half of applying `e`: everything but a mutation, which stays in flight. */
  function Begin(sm: SmData, e: Entry): (SmData, Option<Mutation>) {
    var marked := sm.(lastApplied := Some(e.logId));
    match e.payload
    case Blank => (marked, None)
    case Normal(m) => (marked, Some(m))
    case Members(mem) => (marked.(lastMembership := (Some(e.logId), mem)), None)
  }

  /** The second half. */
  function Finish(sm: SmData, inFlight: Option<Mutation>): SmData {
    if inFlight.Some? then Mutate(sm, inFlight.value) else sm
  }

  lemma TwoHalves(sm: SmData, e: Entry)
    ensures var (marked, m) := Begin(sm, e); Finish(marked, m) == ApplyEntry(sm, e)
  {
  }

  /** The log of `n` agrees with the committed log on the indices from `lo` to `hi`. */
  predicate LogMatches(committed: seq<Entry>, log: map<nat, Entry>, lo: nat, hi: nat)
    requires hi <= |committed|
  {
    forall i: nat :: lo <= i < hi ==> i in log && log[i] == committed[i]
  }

  /** What OpenRaft guarantees about the calls it makes. */
  predicate Allowed(committed: seq<Entry>, n: Node, call: Call) {
    match call
    case Append(es) =>
      forall e :: e in es ==> e.logId.index < n.commit && n.commit <= |committed| ==> e == committed[e.logId.index]
    case DeleteConflicts(from) => from >= n.commit
    case Purge(upto) => upto < Applied(n.sm)
    case LearnCommit(upto) => n.commit <= upto <= |committed| && LogMatches(committed, n.log, Applied(n.sm), upto)
    case BeginApply => n.inFlight.None? && Applied(n.sm) < n.commit && Applied(n.sm) in n.log
    case FinishApply => n.inFlight.Some?
    case BuildSnapshot => true
    case InstallSnapshot(data) => n.inFlight.None? && Applied(data) > Applied(n.sm)
  }

  /** What a call does to the node. */
  function After(n: Node, call: Call): Node
    requires call.BeginApply? ==> Applied(n.sm) in n.log
  {
    match call
    case Append(es) => n.(log := Appended(n.log, es))
    case DeleteConflicts(from) => n.(log := Truncated(n.log, from))
    case Purge(upto) => n.(log := Purged(n.log, upto))
    case LearnCommit(upto) => n.(commit := upto)
    case BeginApply =>
      var (sm, m) := Begin(n.sm, n.log[Applied(n.sm)]);
      n.(sm := sm, inFlight := m)
    case FinishApply => n.(sm := Finish(n.sm, n.inFlight), inFlight := None)
    case BuildSnapshot => n.(snapshot := Some(n.sm))
    case InstallSnapshot(data) => n.(sm := data, snapshot := Some(data), commit := Max(n.commit, Applied(data)))
  }

  function Max(a: nat, b: nat): nat {
    if a < b then b else a
  }

  function Appended(log: map<nat, Entry>, entries: seq<Entry>): map<nat, Entry> {
    if entries == [] then log
    else
      var last := entries[|entries| - 1];
      Appended(log, entries[..|entries| - 1])[last.logId.index := last]
  }

  /** Later entries over earlier ones, and all entries over what was there. */
  lemma {:induction false} AppendedIs(log: map<nat, Entry>, es: seq<Entry>)
    ensures forall k :: k in Appended(log, es) <==> k in log || exists i :: 0 <= i < |es| && es[i].logId.index == k
    ensures forall i :: 0 <= i < |es| && (forall j :: i < j < |es| ==> es[j].logId.index != es[i].logId.index) ==>
              es[i].logId.index in Appended(log, es) && Appended(log, es)[es[i].logId.index] == es[i]
    ensures forall k :: k in log && (forall i :: 0 <= i < |es| ==> es[i].logId.index != k) ==>
              k in Appended(log, es) && Appended(log, es)[k] == log[k]
  {
    if es != [] {
      var front, last := es[..|es| - 1], es[|es| - 1];
      AppendedIs(log, front);
      assert forall i :: 0 <= i < |front| ==> es[i] == front[i];
      forall k
        ensures k in Appended(log, es) <==> k in log || exists i :: 0 <= i < |es| && es[i].logId.index == k
      {
        if k == last.logId.index {
          assert es[|es| - 1].logId.index == k;
        } else if k in Appended(log, front) && k !in log {
          var i :| 0 <= i < |front| && front[i].logId.index == k;
          assert es[i].logId.index == k;
        }
      }
    }
  }

  function EntriesIn(log: map<nat, Entry>, lo: nat, hi: nat): seq<Entry> {
    if hi <= lo then []
    else EntriesIn(log, lo, hi - 1) + (if hi - 1 in log then [log[hi - 1]] else [])
  }

  lemma {:induction false} EntriesAre(log: map<nat, Entry>, lo: nat, hi: nat)
    ensures forall e :: e in EntriesIn(log, lo, hi) <==> exists k :: lo <= k < hi && k in log && log[k] == e
    decreases hi
  {
    if lo < hi {
      EntriesAre(log, lo, hi - 1);
      forall e
        ensures e in EntriesIn(log, lo, hi) <==> exists k :: lo <= k < hi && k in log && log[k] == e
      {
        if hi - 1 in log && log[hi - 1] == e {
          assert lo <= hi - 1 < hi;
        }
      }
    }
  }

  function Truncated(log: map<nat, Entry>, from: nat): map<nat, Entry> {
    map k | k in log && k < from :: log[k]
  }

  function Purged(log: map<nat, Entry>, upto: nat): map<nat, Entry> {
    map k | k in log && k > upto :: log[k]
  }

  lemma {:induction false} LogHoldsCommitted(committed: seq<Entry>, log: map<nat, Entry>, lo: nat, hi: nat)
    requires lo <= hi <= |committed| && LogMatches(committed, log, lo, hi)
    ensures EntriesIn(log, lo, hi) == committed[lo..hi]
    decreases hi - lo
  {
    if lo < hi {
      LogHoldsCommitted(committed, log, lo, hi - 1);
      assert committed[lo..hi - 1] + [committed[hi - 1]] == committed[lo..hi];
    }
  }

  /** The batch OpenRaft reads from a node's log is the committed batch, and applying it is the fold. */
  lemma BatchFromLog(committed: seq<Entry>, log: map<nat, Entry>, lo: nat, hi: nat)
    requires lo <= hi <= |committed| && LogMatches(committed, log, lo, hi)
    ensures ApplyAll(Fold(committed, lo), EntriesIn(log, lo, hi)) == Fold(committed, hi)
  {
    hide ApplyAll, EntriesIn, LogMatches;
    LogHoldsCommitted(committed, log, lo, hi);
    ApplyAllConcat(INITIAL, committed[..lo], committed[lo..hi]);
    assert committed[..lo] + committed[lo..hi] == committed[..hi];
  }

  // ---------------------------------------------------------------- the store

  /** `StorageRaftStore`, whose fields are changed in place. `inFlight` is where its apply task stands. */
  class Store {
    var log: map<nat, Entry>
    var lastPurged: Option<LogId>
    var sm: SmData
    var snapshot: Option<SmData>
    var snapshotIdx: nat
    ghost var inFlight: Option<Mutation>

    constructor ()
      ensures View(0) == Node(map[], INITIAL, None, None, 0) && lastPurged == None && snapshotIdx == 0
    {
      log, lastPurged, sm, snapshot, snapshotIdx, inFlight := map[], None, INITIAL, None, 0, None;
    }

    /** The node that this store is, when OpenRaft knows the first `commit` entries to be committed. */
    ghost function View(commit: nat): Node
      reads this
    {
      Node(log, sm, inFlight, snapshot, commit)
    }

    /** `append_to_log` */
    method AppendToLog(entries: seq<Entry>, ghost commit: nat)
      modifies this`log
      ensures View(commit) == After(old(View(commit)), Append(entries))
      ensures forall k :: k in log <==> k in old(log) || exists i :: 0 <= i < |entries| && entries[i].logId.index == k
      ensures forall i :: 0 <= i < |entries| && (forall j :: i < j < |entries| ==> entries[j].logId.index != entries[i].logId.index) ==>
                entries[i].logId.index in log && log[entries[i].logId.index] == entries[i]
      ensures forall k :: k in old(log) && (forall i :: 0 <= i < |entries| ==> entries[i].logId.index != k) ==> k in log && log[k] == old(log)[k]
    {
      for i := 0 to |entries|
        invariant log == Appended(old(log), entries[..i])
      {
        assert entries[..i + 1][..i] == entries[..i];
        log := log[entries[i].logId.index := entries[i]];
      }
      assert entries[..|entries|] == entries;
      AppendedIs(old(log), entries);
    }

    /** `delete_conflict_logs_since`: removes the collected keys one by one. */
    method DeleteConflictLogsSince(index: nat, ghost commit: nat)
      modifies this`log
      ensures View(commit) == After(old(View(commit)), DeleteConflicts(index))
      ensures forall k :: k in log <==> k in old(log) && k < index
      ensures forall k :: k in log ==> log[k] == old(log)[k]
    {
      var keys := set k | k in log && k >= index;
      ghost var gone: set<nat> := {};
      while keys != {}
        invariant gone + keys == (set k | k in old(log) && k >= index)
        invariant log == old(log) - gone
        decreases keys
      {
        var k :| k in keys;
        keys := keys - {k};
        gone := gone + {k};
        log := log - {k};
      }
      assert log == Truncated(old(log), index);
    }

    /** `purge_logs_upto` */
    method PurgeLogsUpto(logId: LogId, ghost commit: nat)
      modifies this`log, this`lastPurged
      ensures lastPurged == Some(logId)
      ensures View(commit) == After(old(View(commit)), Purge(logId.index))
      ensures forall k :: k in log <==> k in old(log) && k > logId.index
      ensures forall k :: k in log ==> log[k] == old(log)[k]
    {
      lastPurged := Some(logId);
      var keys := set k | k in log && k <= logId.index;
      ghost var gone: set<nat> := {};
      while keys != {}
        invariant lastPurged == Some(logId)
        invariant gone + keys == (set k | k in old(log) && k <= logId.index)
        invariant log == old(log) - gone
        decreases keys
      {
        var k :| k in keys;
        keys := keys - {k};
        gone := gone + {k};
        log := log - {k};
      }
      assert log == Purged(old(log), logId.index);
    }

    /** `try_get_log_entries`: the stored entries of a range, in index order. */
    method TryGetLogEntries(lo: nat, hi: nat) returns (entries: seq<Entry>)
      ensures entries == EntriesIn(log, lo, hi)
      ensures forall e :: e in entries <==> exists k :: lo <= k < hi && k in log && log[k] == e
    {
      entries := [];
      for i := lo to if hi < lo then lo else hi
        invariant entries == EntriesIn(log, lo, i)
      {
        if i in log {
          entries := entries + [log[i]];
        }
      }
      EntriesAre(log, lo, hi);
    }

    /** The part of the apply loop that holds the lock: it records the entry, and leaves a mutation in flight. */
    method BeginEntry(e: Entry, ghost commit: nat) returns (m: Option<Mutation>)
      requires inFlight.None?
      modifies this`sm, this`inFlight
      ensures (sm, m) == Begin(old(sm), e) && inFlight == m
      ensures sm == old(sm).(lastApplied := Some(e.logId),
                             lastMembership := if e.payload.Members? then (Some(e.logId), e.payload.members) else old(sm).lastMembership)
      ensures m == if e.payload.Normal? then Some(e.payload.mutation) else None
      ensures Applied(old(sm)) in log && log[Applied(old(sm))] == e ==> View(commit) == After(old(View(commit)), BeginApply)
    {
      sm := sm.(lastApplied := Some(e.logId));
      match e.payload {
        case Blank => m := None;
        case Normal(mutation) => m := Some(mutation);
        case Members(mem) =>
          sm := sm.(lastMembership := (Some(e.logId), mem));
          m := None;
      }
      inFlight := m;
    }

    /** `apply_mutation`, which takes the lock again. */
    method FinishEntry(m: Mutation, ghost commit: nat)
      requires inFlight == Some(m)
      modifies this`sm, this`inFlight
      ensures View(commit) == After(old(View(commit)), FinishApply)
      ensures sm.lastApplied == old(sm).lastApplied && sm.lastMembership == old(sm).lastMembership
      ensures match m
              case CreateBucket(name, _) => sm.buckets == old(sm).buckets + {name} && sm.shardMaps == old(sm).shardMaps
              case DeleteBucket(name) => sm.buckets == old(sm).buckets - {name} && sm.shardMaps == old(sm).shardMaps
              case PutShardMap(bucket, key, p) =>
                sm.shardMaps == old(sm).shardMaps[bucket + "/" + key := p] && sm.buckets == old(sm).buckets
    {
      match m {
        case CreateBucket(name, _) => sm := sm.(buckets := sm.buckets + {name});
        case DeleteBucket(name) => sm := sm.(buckets := sm.buckets - {name});
        case PutShardMap(bucket, key, p) => sm := sm.(shardMaps := sm.shardMaps[bucket + "/" + key := p]);
      }
      inFlight := None;
    }

    /**
     `apply_to_state_machine`. Whenever the lock is free the snapshot task may take a snapshot; `during` says
     at which mutations it does. The state machine comes out the same, but the last snapshot so taken has
     the mark of its entry and not the mutation. A state that held what a log says then holds what the log
     says with these entries.
     */
    method ApplyToStateMachine(entries: seq<Entry>, during: set<nat>) returns (responses: seq<bool>)
      requires inFlight.None?
      modifies this`sm, this`inFlight, this`snapshot, this`snapshotIdx
      ensures inFlight.None? && sm == ApplyAll(old(sm), entries)
      ensures forall applied :: Holds(applied, old(sm)) ==> Holds(applied + entries, sm)
      ensures |responses| == |entries| && forall i :: 0 <= i < |responses| ==> responses[i]
      ensures snapshot == LastTorn(old(sm), entries, during, old(snapshot))
    {
      responses := [];
      for i := 0 to |entries|
        invariant inFlight.None? && sm == ApplyAll(old(sm), entries[..i])
        invariant |responses| == i && forall j :: 0 <= j < i ==> responses[j]
        invariant snapshot == LastTorn(old(sm), entries[..i], during, old(snapshot))
      {
        assert entries[..i + 1][..i] == entries[..i];
        TwoHalves(sm, entries[i]);
        var m := BeginEntry(entries[i], 0);
        if m.Some? {
          if i in during {
            var _ := TakeSnapshot(0);
          }
          FinishEntry(m.value, 0);
        }
        responses := responses + [true];
      }
      assert entries[..|entries|] == entries;
      forall applied | Holds(applied, old(sm))
        ensures Holds(applied + entries, sm)
      {
        HoldsFurther(applied, old(sm), entries);
      }
    }

    /** Reading a batch from the log and applying it, as OpenRaft does when it learns of commits. */
    method ApplyFromLog(hi: nat, during: set<nat>, ghost committed: seq<Entry>)
      requires inFlight.None? && Applied(sm) <= hi <= |committed|
      requires sm == Fold(committed, Applied(sm)) && LogMatches(committed, log, Applied(sm), hi)
      modifies this`sm, this`inFlight, this`snapshot, this`snapshotIdx
      ensures inFlight.None? && sm == Fold(committed, hi) && Holds(committed[..hi], sm)
    {
      FoldIs(committed[..hi], Fold(committed, hi));
      BatchFromLog(committed, log, Applied(sm), hi);
      var entries := TryGetLogEntries(Applied(sm), hi);
      var _ := ApplyToStateMachine(entries, during);
    }

    /** `build_snapshot`: whatever the state machine holds at that moment. */
    method TakeSnapshot(ghost commit: nat) returns (s: SmData)
      modifies this`snapshot, this`snapshotIdx
      ensures snapshotIdx == old(snapshotIdx) + 1
      ensures View(commit) == After(old(View(commit)), BuildSnapshot) && snapshot == Some(s)
    {
      s := sm;
      snapshotIdx := snapshotIdx + 1;
      snapshot := Some(s);
    }

    /** `install_snapshot`: replaces the state machine. */
    method Install(s: SmData, ghost commit: nat)
      modifies this`sm, this`snapshot
      ensures View(Max(commit, Applied(s))) == After(old(View(commit)), InstallSnapshot(s))
    {
      sm := s;
      snapshot := Some(s);
    }
  }

  /** The last snapshot taken between the halves of a mutation, if there is one. */
  function LastTorn(sm: SmData, entries: seq<Entry>, during: set<nat>, before: Option<SmData>): Option<SmData> {
    if entries == [] then before else
    var i := |entries| - 1;
    var (marked, m) := Begin(ApplyAll(sm, entries[..i]), entries[i]);
    if m.Some? && i in during then Some(marked) else LastTorn(sm, entries[..i], during, before)
  }
}
