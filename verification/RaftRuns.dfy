/**
 Runs of a cluster of Raft stores. Each step commits an entry or is one call of OpenRaft into one store.
 Calls come in any order that OpenRaft allows; in particular a snapshot may be built while a mutation is
 in flight, between the two halves of applying its entry.
 */
module RaftRuns {
  import opened Base
  import opened RaftStore

  /** `snapshots` holds every snapshot ever taken; any of them may still be under way to some node. */
  datatype Cluster = Cluster(committed: seq<Entry>, nodes: map<NodeId, Node>, snapshots: set<SmData>)

  datatype Step = Commit(entry: Entry) | On(node: NodeId, call: Call)

  function FreshNode(): Node {
    Node(map[], INITIAL, None, None, 0)
  }

  predicate Initial(c: Cluster) {
    c.committed == [] && c.snapshots == {} && forall n :: n in c.nodes ==> c.nodes[n] == FreshNode()
  }

  predicate Enabled(c: Cluster, s: Step) {
    match s
    case Commit(e) => e.logId.index == |c.committed|
    case On(n, call) =>
      && n in c.nodes && Allowed(c.committed, c.nodes[n], call)
      && (call.InstallSnapshot? ==> call.data in c.snapshots)
  }

  function Next(c: Cluster, s: Step): Cluster
    requires Enabled(c, s)
  {
    match s
    case Commit(e) => c.(committed := c.committed + [e])
    case On(n, call) =>
      c.(nodes := c.nodes[n := After(c.nodes[n], call)],
         snapshots := if call.BuildSnapshot? then c.snapshots + {c.nodes[n].sm} else c.snapshots)
  }

  /** A run of a fresh cluster: the states it goes through and the steps between them. */
  ghost predicate IsRun(states: seq<Cluster>, steps: seq<Step>) {
    && |states| == |steps| + 1
    && Initial(states[0])
    && forall i :: 0 <= i < |steps| ==> Enabled(states[i], steps[i]) && states[i + 1] == Next(states[i], steps[i])
  }

  // ---------------------------------------------------------------- snapshots in the middle of an entry

  /** Whether a mutation would change the replicated data. */
  predicate Effective(sm: SmData, m: Mutation) {
    match m
    case CreateBucket(name, _) => name !in sm.buckets
    case DeleteBucket(name) => name in sm.buckets
    case PutShardMap(bucket, key, p) => bucket + "/" + key !in sm.shardMaps || sm.shardMaps[bucket + "/" + key] != p
  }

  lemma EffectiveIff(sm: SmData, m: Mutation)
    ensures Effective(sm, m) <==> Mutate(sm, m) != sm
  {
    var after := Mutate(sm, m);
    match m
    case CreateBucket(name, _) => assert name in after.buckets;
    case DeleteBucket(name) => assert name !in after.buckets;
    case PutShardMap(bucket, key, p) =>
      assert after.shardMaps[bucket + "/" + key] == p;
      assert !Effective(sm, m) ==> after.shardMaps == sm.shardMaps;
  }

  /** Step `j` builds a snapshot of a node with a mutation in flight that would still change something. */
  predicate TakesTorn(c: Cluster, s: Step) {
    && s.On? && s.call.BuildSnapshot? && s.node in c.nodes
    && c.nodes[s.node].inFlight.Some? && Effective(c.nodes[s.node].sm, c.nodes[s.node].inFlight.value)
  }

  /** Step `i` installs what step `j` took torn. */
  ghost predicate InstallsTorn(states: seq<Cluster>, steps: seq<Step>, i: nat, j: nat)
    requires IsRun(states, steps)
  {
    && j < i < |steps| && TakesTorn(states[j], steps[j])
    && steps[i].On? && steps[i].call == InstallSnapshot(states[j].nodes[steps[j].node].sm)
  }

  /** Among the first `t` steps none installs a torn snapshot. */
  ghost predicate NoTornInstall(states: seq<Cluster>, steps: seq<Step>, t: nat)
    requires IsRun(states, steps)
  {
    forall i: nat, j: nat :: i < t ==> !InstallsTorn(states, steps, i, j)
  }

  // ---------------------------------------------------------------- what every step keeps

  ghost predicate IsFold(committed: seq<Entry>, sm: SmData) {
    Applied(sm) <= |committed| && sm == Fold(committed, Applied(sm))
  }

  /** Once the apply task has finished, the state machine is the fold; the log ahead of it is the committed one. */
  ghost predicate NodeInv(committed: seq<Entry>, n: Node) {
    && Applied(n.sm) <= n.commit <= |committed|
    && Finish(n.sm, n.inFlight) == Fold(committed, Applied(n.sm))
    && LogMatches(committed, n.log, Applied(n.sm), n.commit)
  }

  ghost predicate Inv(c: Cluster) {
    && (forall i :: 0 <= i < |c.committed| ==> c.committed[i].logId.index == i)
    && (forall n :: n in c.nodes ==> NodeInv(c.committed, c.nodes[n]))
  }

  lemma FoldOfPrefix(a: seq<Entry>, b: seq<Entry>, n: nat)
    requires a <= b && n <= |a|
    ensures Fold(a, n) == Fold(b, n)
  {
    assert a[..n] == b[..n];
  }

  lemma FoldStep(committed: seq<Entry>, n: nat)
    requires n < |committed|
    ensures Fold(committed, n + 1) == ApplyEntry(Fold(committed, n), committed[n])
  {
    assert committed[..n + 1][..n] == committed[..n];
  }

  lemma {:induction false} AppendedKeeps(log: map<nat, Entry>, es: seq<Entry>, i: nat, e: Entry)
    requires i in log && log[i] == e
    requires forall x :: x in es && x.logId.index == i ==> x == e
    ensures i in Appended(log, es) && Appended(log, es)[i] == e
  {
    if es != [] {
      assert forall x :: x in es[..|es| - 1] ==> x in es;
      AppendedKeeps(log, es[..|es| - 1], i, e);
      assert es[|es| - 1] in es;
    }
  }

  lemma CommitKeeps(committed: seq<Entry>, e: Entry, n: Node)
    requires NodeInv(committed, n)
    ensures NodeInv(committed + [e], n)
  {
    hide Fold;
    FoldOfPrefix(committed, committed + [e], Applied(n.sm));
  }

  lemma AppendKeeps(committed: seq<Entry>, n: Node, es: seq<Entry>)
    requires NodeInv(committed, n) && Allowed(committed, n, Append(es))
    ensures NodeInv(committed, n.(log := Appended(n.log, es)))
  {
    hide Fold;
    forall i: nat | Applied(n.sm) <= i < n.commit
      ensures i in Appended(n.log, es) && Appended(n.log, es)[i] == committed[i]
    {
      AppendedKeeps(n.log, es, i, committed[i]);
    }
  }

  /** An entry is applied from the node's own log, and that entry is the committed one. */
  lemma BeginKeeps(committed: seq<Entry>, n: Node)
    requires NodeInv(committed, n) && Allowed(committed, n, BeginApply)
    requires forall i :: 0 <= i < |committed| ==> committed[i].logId.index == i
    ensures NodeInv(committed, After(n, BeginApply))
  {
    hide Fold;
    FoldStep(committed, Applied(n.sm));
  }

  /** Every call keeps the invariant of its node, an installation provided that it installs a fold. */
  lemma CallKeeps(committed: seq<Entry>, n: Node, call: Call)
    requires forall i :: 0 <= i < |committed| ==> committed[i].logId.index == i
    requires NodeInv(committed, n) && Allowed(committed, n, call)
    requires call.InstallSnapshot? ==> IsFold(committed, call.data)
    ensures NodeInv(committed, After(n, call))
  {
    if call.Append? {
      AppendKeeps(committed, n, call.entries);
    } else if call.BeginApply? {
      BeginKeeps(committed, n);
    } else {
      hide Fold;
    }
  }

  lemma StepKeeps(c: Cluster, s: Step)
    requires Inv(c) && Enabled(c, s)
    requires s.On? && s.call.InstallSnapshot? ==> IsFold(c.committed, s.call.data)
    ensures Inv(Next(c, s))
  {
    hide NodeInv, Allowed, IsFold;
    match s
    case Commit(e) =>
      forall n | n in c.nodes
        ensures NodeInv(c.committed + [e], c.nodes[n])
      {
        CommitKeeps(c.committed, e, c.nodes[n]);
      }
    case On(n, call) => CallKeeps(c.committed, c.nodes[n], call);
  }

  // ---------------------------------------------------------------- safety over whole runs

  /** The committed log only grows, so the fold up to an index is fixed once the index is committed; and snapshots stay under way. */
  lemma {:induction false} CommittedGrows(states: seq<Cluster>, steps: seq<Step>, t: nat, u: nat)
    requires IsRun(states, steps) && t <= u < |states|
    ensures states[t].committed <= states[u].committed && states[t].snapshots <= states[u].snapshots
  {
    hide Enabled, Initial;
    if t < u {
      CommittedGrows(states, steps, t, u - 1);
      assert states[u - 1 + 1] == Next(states[u - 1], steps[u - 1]);
    }
  }

  /** Every snapshot under way was taken at some step. */
  lemma {:induction false} SnapshotWasTaken(states: seq<Cluster>, steps: seq<Step>, t: nat, data: SmData) returns (j: nat)
    requires IsRun(states, steps) && t < |states| && data in states[t].snapshots
    ensures j < t && steps[j].On? && steps[j].call.BuildSnapshot? && steps[j].node in states[j].nodes
    ensures states[j].nodes[steps[j].node].sm == data
  {
    hide Allowed;
    j := t - 1;
    assert states[j + 1] == Next(states[j], steps[j]);
    if data in states[j].snapshots {
      j := SnapshotWasTaken(states, steps, j, data);
    }
  }

  /** What a build takes is the fold it claims to be iff it does not take it torn. */
  lemma TornSnapshotIff(c: Cluster, s: Step)
    requires Inv(c) && Enabled(c, s) && s.On? && s.call.BuildSnapshot?
    ensures IsFold(c.committed, c.nodes[s.node].sm) <==> !TakesTorn(c, s)
  {
    hide Fold;
    var node := c.nodes[s.node];
    assert NodeInv(c.committed, node);
    if node.inFlight.Some? {
      EffectiveIff(node.sm, node.inFlight.value);
    }
  }

  lemma FoldLater(a: seq<Entry>, b: seq<Entry>, sm: SmData)
    requires a <= b && Applied(sm) <= |a|
    ensures IsFold(a, sm) <==> IsFold(b, sm)
  {
    FoldOfPrefix(a, b, Applied(sm));
  }

  /** What is installed is a fold iff it was not taken torn. */
  lemma InstalledIff(states: seq<Cluster>, steps: seq<Step>, i: nat)
    requires IsRun(states, steps) && i < |steps| && steps[i].On? && steps[i].call.InstallSnapshot?
    requires forall j :: 0 <= j <= i ==> Inv(states[j])
    ensures IsFold(states[i].committed, steps[i].call.data) <==> forall j: nat :: !InstallsTorn(states, steps, i, j)
  {
    var data := steps[i].call.data;
    assert data in states[i].snapshots;
    var first := SnapshotWasTaken(states, steps, i, data);
    hide Inv, Allowed, Effective, IsFold, TakesTorn;
    forall j: nat | j < i && steps[j].On? && steps[j].call.BuildSnapshot? && steps[j].node in states[j].nodes
                    && states[j].nodes[steps[j].node].sm == data
      ensures IsFold(states[i].committed, data) <==> !TakesTorn(states[j], steps[j])
    {
      TakenIff(states, steps, i, j);
    }
    forall j: nat | j < i && TakesTorn(states[j], steps[j])
      ensures steps[j].On? && steps[j].call.BuildSnapshot? && steps[j].node in states[j].nodes
    {
      TornIsBuild(states[j], steps[j]);
    }
    assert TakesTorn(states[first], steps[first]) ==> InstallsTorn(states, steps, i, first);
  }

  lemma TornIsBuild(c: Cluster, s: Step)
    requires TakesTorn(c, s)
    ensures s.On? && s.call.BuildSnapshot? && s.node in c.nodes
  {
  }

  lemma TakenIff(states: seq<Cluster>, steps: seq<Step>, i: nat, j: nat)
    requires IsRun(states, steps) && j < i < |steps| && Inv(states[j])
    requires steps[j].On? && steps[j].call.BuildSnapshot?
    ensures steps[j].node in states[j].nodes
    ensures IsFold(states[i].committed, states[j].nodes[steps[j].node].sm) <==> !TakesTorn(states[j], steps[j])
  {
    hide IsFold, TakesTorn, Allowed, NodeInv;
    assert Enabled(states[j], steps[j]);
    TornSnapshotIff(states[j], steps[j]);
    CommittedGrows(states, steps, j, i);
    AppliedIsCommitted(states[j], steps[j].node);
    FoldLater(states[j].committed, states[i].committed, states[j].nodes[steps[j].node].sm);
  }

  lemma AppliedIsCommitted(c: Cluster, n: NodeId)
    requires Inv(c) && n in c.nodes
    ensures Applied(c.nodes[n].sm) <= |c.committed|
  {
    assert NodeInv(c.committed, c.nodes[n]);
  }

  lemma StartsWell(c: Cluster)
    requires Initial(c)
    ensures Inv(c)
  {
    assert c.committed[..0] == [];
  }

  /** As long as no torn snapshot is installed, the invariant holds at every moment of every run. */
  lemma {:induction false} RunKeeps(states: seq<Cluster>, steps: seq<Step>, t: nat)
    requires IsRun(states, steps) && t < |states| && NoTornInstall(states, steps, t)
    ensures forall j :: 0 <= j <= t ==> Inv(states[j])
  {
    hide Inv, Allowed, InstallsTorn;
    if t == 0 {
      StartsWell(states[0]);
    } else {
      RunKeeps(states, steps, t - 1);
      var s := steps[t - 1];
      assert states[t - 1 + 1] == Next(states[t - 1], s) && Enabled(states[t - 1], s);
      if s.On? && s.call.InstallSnapshot? {
        InstalledIff(states, steps, t - 1);
      }
      StepKeeps(states[t - 1], s);
    }
  }

  /** Every node with nothing in flight holds the fold of the committed log up to its `last_applied_log`. */
  ghost predicate HoldsFold(c: Cluster) {
    forall n :: n in c.nodes && c.nodes[n].inFlight.None? ==> IsFold(c.committed, c.nodes[n].sm)
  }

  /**
   As long as no torn snapshot is installed, a node with nothing in flight holds exactly the fold of the
   committed log up to its `last_applied_log`, however entries were batched and whether a prefix came by snapshot.
   */
  lemma StateIsFoldOfCommittedLog(states: seq<Cluster>, steps: seq<Step>, t: nat)
    requires IsRun(states, steps) && t < |states| && NoTornInstall(states, steps, t)
    ensures HoldsFold(states[t])
  {
    RunKeeps(states, steps, t);
    assert Inv(states[t]);
    hide IsRun, NoTornInstall, Fold;
    forall n | n in states[t].nodes && states[t].nodes[n].inFlight.None?
      ensures IsFold(states[t].committed, states[t].nodes[n].sm)
    {
      assert NodeInv(states[t].committed, states[t].nodes[n]);
    }
  }

  /**
   So what such a node says can be read off the committed log: with `k` entries applied, the log id of the last
   of them, the last membership among them, the buckets created and not deleted after, and the last placements.
   */
  lemma IdleNodeHoldsTheLog(states: seq<Cluster>, steps: seq<Step>, t: nat, n: NodeId)
    requires IsRun(states, steps) && t < |states| && NoTornInstall(states, steps, t)
    requires n in states[t].nodes && states[t].nodes[n].inFlight.None?
    ensures var sm := states[t].nodes[n].sm;
            var k := if sm.lastApplied.None? then 0 else sm.lastApplied.value.index + 1;
            k <= |states[t].committed| && Holds(states[t].committed[..k], sm)
  {
    hide IsRun, NoTornInstall, Holds;
    StateIsFoldOfCommittedLog(states, steps, t);
    var sm := states[t].nodes[n].sm;
    assert IsFold(states[t].committed, sm);
    FoldIs(states[t].committed[..Applied(sm)], sm);
  }

  /** The first step that installs a torn snapshot leaves its node with something else than the fold. */
  lemma FirstTornInstallShows(states: seq<Cluster>, steps: seq<Step>, i: nat, j: nat)
    requires IsRun(states, steps) && InstallsTorn(states, steps, i, j) && NoTornInstall(states, steps, i)
    ensures !HoldsFold(states[i + 1])
  {
    hide Inv, IsFold, TakesTorn, Initial, Enabled, HoldsFold;
    RunKeeps(states, steps, i);
    InstalledIff(states, steps, i);
    InstalledShows(states[i], steps[i]);
  }

  lemma InstalledShows(c: Cluster, s: Step)
    requires Enabled(c, s) && s.On? && s.call.InstallSnapshot? && !IsFold(c.committed, s.call.data)
    ensures !HoldsFold(Next(c, s))
  {
    hide IsFold;
    assert Next(c, s).nodes[s.node].sm == s.call.data && Next(c, s).nodes[s.node].inFlight.None?;
  }

  /** There is a first step that installs a torn snapshot, if there is one at all. */
  lemma {:induction false} FirstTornInstall(states: seq<Cluster>, steps: seq<Step>, t: nat) returns (i: nat, j: nat)
    requires IsRun(states, steps) && !NoTornInstall(states, steps, t)
    ensures i < t && InstallsTorn(states, steps, i, j) && NoTornInstall(states, steps, i)
  {
    hide IsRun, InstallsTorn;
    if NoTornInstall(states, steps, t - 1) {
      var i': nat, j': nat :| i' < t && InstallsTorn(states, steps, i', j');
      i, j := i', j';
    } else {
      i, j := FirstTornInstall(states, steps, t - 1);
    }
  }

  /**
   Over every run, up to any moment: all nodes with nothing in flight have always held the fold of the
   committed log if and only if no step has installed a snapshot that was built while a mutation that would
   change something was in flight.
   */
  lemma StatesAreFoldsIff(states: seq<Cluster>, steps: seq<Step>, t: nat)
    requires IsRun(states, steps) && t < |states|
    ensures (forall u :: 0 <= u <= t ==> HoldsFold(states[u])) <==> NoTornInstall(states, steps, t)
  {
    hide HoldsFold, IsRun, InstallsTorn;
    if NoTornInstall(states, steps, t) {
      forall u | 0 <= u <= t
        ensures HoldsFold(states[u])
      {
        StateIsFoldOfCommittedLog(states, steps, u);
      }
    } else {
      var i, j := FirstTornInstall(states, steps, t);
      FirstTornInstallShows(states, steps, i, j);
    }
  }

  /**
   Two nodes, each with nothing in flight, agree on all replicated data whenever they have applied the
   same number of entries, even when they are observed at different points of the run.
   */
  lemma NodesAgree(states: seq<Cluster>, steps: seq<Step>, t: nat, a: NodeId, u: nat, b: NodeId)
    requires IsRun(states, steps) && t <= u < |states| && NoTornInstall(states, steps, u)
    requires a in states[t].nodes && states[t].nodes[a].inFlight.None?
    requires b in states[u].nodes && states[u].nodes[b].inFlight.None?
    requires Applied(states[t].nodes[a].sm) == Applied(states[u].nodes[b].sm)
    ensures states[t].nodes[a].sm == states[u].nodes[b].sm
  {
    hide IsRun, InstallsTorn;
    StateIsFoldOfCommittedLog(states, steps, t);
    StateIsFoldOfCommittedLog(states, steps, u);
    CommittedGrows(states, steps, t, u);
    FoldOfPrefix(states[t].committed, states[u].committed, Applied(states[t].nodes[a].sm));
  }

  /** State never goes back: each step leaves `last_applied_log` of every node where it was or further on. */
  lemma AppliedNeverDecreases(c: Cluster, s: Step, n: NodeId)
    requires Inv(c) && Enabled(c, s) && n in c.nodes
    ensures n in Next(c, s).nodes && Applied(Next(c, s).nodes[n].sm) >= Applied(c.nodes[n].sm)
  {
    hide Fold;
    assert NodeInv(c.committed, c.nodes[n]);
  }

  // ---------------------------------------------------------------- how long a disagreement lasts

  /** A place in the replicated data: a bucket name or the identifier of a shard map. */
  datatype Place = Bucket(name: string) | Shards(id: string)

  /** What is at a place. */
  datatype Content = Absent | Exists | Map(placement: Placement)

  function Look(sm: SmData, p: Place): Content {
    match p
    case Bucket(name) => if name in sm.buckets then Exists else Absent
    case Shards(id) => if id in sm.shardMaps then Map(sm.shardMaps[id]) else Absent
  }

  function PlaceOf(m: Mutation): Place {
    match m
    case CreateBucket(name, _) => Bucket(name)
    case DeleteBucket(name) => Bucket(name)
    case PutShardMap(bucket, key, _) => Shards(bucket + "/" + key)
  }

  predicate Writes(e: Entry, p: Place) {
    e.payload.Normal? && PlaceOf(e.payload.mutation) == p
  }

  /** Two states that apply the same entries agree at a place from then on iff they did or an entry wrote to it. */
  lemma {:induction false} DisagreementLastsUntilWritten(a: SmData, b: SmData, es: seq<Entry>, p: Place)
    ensures Look(ApplyAll(a, es), p) == Look(ApplyAll(b, es), p) <==> Look(a, p) == Look(b, p) || exists e :: e in es && Writes(e, p)
  {
    if es != [] {
      var front, last := es[..|es| - 1], es[|es| - 1];
      DisagreementLastsUntilWritten(a, b, front, p);
      assert es == front + [last];
      EntryAt(ApplyAll(a, front), ApplyAll(b, front), last, p);
      hide Look, Writes, ApplyEntry;
    }
  }

  lemma EntryAt(a: SmData, b: SmData, e: Entry, p: Place)
    ensures Look(ApplyEntry(a, e), p) == Look(ApplyEntry(b, e), p) <==> Look(a, p) == Look(b, p) || Writes(e, p)
  {
  }

  /**
   A node that installs what another took torn lags behind it at the place of the mutation, and once both
   have applied the same further entries they agree there iff one of those entries wrote to the place.
   */
  lemma TornSnapshotLags(sm: SmData, m: Mutation, es: seq<Entry>)
    requires Effective(sm, m)
    ensures Look(ApplyAll(sm, es), PlaceOf(m)) == Look(ApplyAll(Mutate(sm, m), es), PlaceOf(m))
            <==> exists e :: e in es && Writes(e, PlaceOf(m))
  {
    DisagreementLastsUntilWritten(sm, Mutate(sm, m), es, PlaceOf(m));
  }

  // ---------------------------------------------------------------- a run in which it happens

  const BUCKET: Entry := Entry(LogId(1, 0), Normal(CreateBucket("logs", "us-east-1")))
  const TORN: SmData := INITIAL.(lastApplied := Some(BUCKET.logId))

  /** The cluster of the example: what node 1 and node 2 have come to. */
  function TwoNodes(committed: seq<Entry>, one: Node, two: Node, snapshots: set<SmData>): Cluster {
    Cluster(committed, map[1 := one, 2 := two], snapshots)
  }

  const LOG: map<nat, Entry> := map[0 := BUCKET]
  const BEGUN: Node := Node(LOG, TORN, Some(BUCKET.payload.mutation), None, 1)
  const INSTALLED: Node := Node(map[], TORN, None, Some(TORN), 1)
  const S0: Cluster := TwoNodes([], FreshNode(), FreshNode(), {})
  const S1: Cluster := TwoNodes([BUCKET], FreshNode(), FreshNode(), {})
  const S2: Cluster := TwoNodes([BUCKET], FreshNode().(log := LOG), FreshNode(), {})
  const S3: Cluster := TwoNodes([BUCKET], FreshNode().(log := LOG, commit := 1), FreshNode(), {})
  const S4: Cluster := TwoNodes([BUCKET], BEGUN, FreshNode(), {})
  const S5: Cluster := TwoNodes([BUCKET], BEGUN.(snapshot := Some(TORN)), FreshNode(), {TORN})
  const S6: Cluster := TwoNodes([BUCKET], BEGUN.(snapshot := Some(TORN)), INSTALLED, {TORN})
  const S7: Cluster := TwoNodes([BUCKET], Node(LOG, Mutate(TORN, BUCKET.payload.mutation), None, Some(TORN), 1), INSTALLED, {TORN})

  predicate GoesTo(c: Cluster, s: Step, c': Cluster) {
    Enabled(c, s) && Next(c, s) == c'
  }

  lemma StepOne()
    ensures Initial(S0) && GoesTo(S0, Commit(BUCKET), S1)
  {
  }

  lemma StepTwo()
    ensures GoesTo(S1, On(1, Append([BUCKET])), S2)
  {
    assert [BUCKET][..0] == [];
    assert Appended(map[], [BUCKET]) == LOG;
  }

  lemma StepThree()
    ensures GoesTo(S2, On(1, LearnCommit(1)), S3)
  {
  }

  lemma StepFour()
    ensures GoesTo(S3, On(1, BeginApply), S4)
  {
  }

  lemma StepFive()
    ensures GoesTo(S4, On(1, BuildSnapshot), S5)
  {
  }

  lemma StepSix()
    ensures GoesTo(S5, On(2, InstallSnapshot(TORN)), S6)
  {
  }

  lemma StepSeven()
    ensures GoesTo(S6, On(1, FinishApply), S7)
  {
  }

  lemma SevenStepsAreARun(c: seq<Cluster>, s: seq<Step>)
    requires |c| == 8 && |s| == 7 && Initial(c[0])
    requires GoesTo(c[0], s[0], c[1]) && GoesTo(c[1], s[1], c[2]) && GoesTo(c[2], s[2], c[3]) && GoesTo(c[3], s[3], c[4])
    requires GoesTo(c[4], s[4], c[5]) && GoesTo(c[5], s[5], c[6]) && GoesTo(c[6], s[6], c[7])
    ensures IsRun(c, s)
  {
    hide Enabled, Next, Initial;
  }

  lemma TornAtFive()
    ensures TakesTorn(S4, On(1, BuildSnapshot)) && 1 in S4.nodes && S4.nodes[1].sm == TORN
  {
  }

  lemma NodesDiffer()
    ensures 1 in S7.nodes && 2 in S7.nodes && S7.nodes[1].inFlight.None? && S7.nodes[2].inFlight.None?
    ensures S7.nodes[1].sm.lastApplied == S7.nodes[2].sm.lastApplied
    ensures S7.nodes[1].sm.buckets == {"logs"} && S7.nodes[2].sm.buckets == {}
  {
  }

  /** Seven steps of a fresh cluster end with two idle nodes at the same `last_applied_log` and different data. */
  lemma TornSnapshotIsReachable() returns (states: seq<Cluster>, steps: seq<Step>)
    ensures IsRun(states, steps) && |steps| == 7 && InstallsTorn(states, steps, 5, 4)
    ensures var end := states[7];
            && 1 in end.nodes && end.nodes[1].inFlight.None? && 2 in end.nodes && end.nodes[2].inFlight.None?
            && end.nodes[1].sm.lastApplied == end.nodes[2].sm.lastApplied
            && end.nodes[1].sm.buckets == {"logs"} && end.nodes[2].sm.buckets == {}
  {
    hide *;
    StepOne();
    StepTwo();
    StepThree();
    StepFour();
    StepFive();
    StepSix();
    StepSeven();
    TornAtFive();
    NodesDiffer();
    states := [S0, S1, S2, S3, S4, S5, S6, S7];
    steps := [Commit(BUCKET), On(1, Append([BUCKET])), On(1, LearnCommit(1)), On(1, BeginApply),
              On(1, BuildSnapshot), On(2, InstallSnapshot(TORN)), On(1, FinishApply)];
    SevenStepsAreARun(states, steps);
    IsInstall(states, steps);
  }

  lemma IsInstall(states: seq<Cluster>, steps: seq<Step>)
    requires IsRun(states, steps) && |steps| == 7 && TakesTorn(states[4], steps[4])
    requires steps[4].node in states[4].nodes && steps[5].On? && steps[5].call == InstallSnapshot(states[4].nodes[steps[4].node].sm)
    ensures InstallsTorn(states, steps, 5, 4)
  {
    hide IsRun, TakesTorn;
  }
}
