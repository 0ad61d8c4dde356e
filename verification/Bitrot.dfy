/**
 The bitrot scanner of a storage node: every local shard is compared with its checksum file, and a corrupt
 one is rebuilt from the shards that this node and its peers can read.
 */
module Bitrot {
  import opened Base
  import opened ChunkStore
  import opened Placement

  datatype Object = Object(bucket: string, key: string)
  datatype Slot = Slot(name: Object, index: nat)
  datatype EcShardPlacement = EcShardPlacement(name: Object, dataShards: nat, parityShards: nat, placements: Placements)

  type Shelf = map<Slot, seq<Byte>>

  function At(shelf: Shelf, slot: Slot): Option<seq<Byte>> {
    if slot in shelf then Some(shelf[slot]) else None
  }

  /** The slots at which a system call fails other than by absence. A call that fails has no effect. */
  datatype Faults = Faults(read: set<Slot>, readSum: set<Slot>, writeSum: set<Slot>, write: set<Slot>)

  datatype Event = Unreadable | Unverifiable | Good | Healed | HealFailed

  function Count(events: seq<Event>, e: Event): nat {
    if events == [] then 0 else Count(events[..|events| - 1], e) + if events[|events| - 1] == e then 1 else 0
  }

  /** What a node can read of a slot of an object: its own file if it is the owner, else what a peer returns. */
  function Fetched(files: Shelf, faults: Faults, remote: Shelf, local: NodeId, slot: Slot, owner: NodeId): Option<seq<Byte>> {
    if owner == local && slot in files && slot !in faults.read then Some(files[slot]) else At(remote, slot)
  }

  /** What is gathered for an object, in the order of its placements, without the shard to be healed. */
  function Gathered(files: Shelf, faults: Faults, remote: Shelf, local: NodeId, ob: Object, placements: Placements, skip: nat): Shards {
    if placements == [] then [] else
    var (index, owner) := placements[|placements| - 1];
    var bytes := Fetched(files, faults, remote, local, Slot(ob, index), owner);
    Gathered(files, faults, remote, local, ob, placements[..|placements| - 1], skip)
      + if index == skip || bytes.None? then [] else [(index, bytes.value)]
  }

  function LongestOf(present: Shards): nat {
    if present == [] then 0 else
    var n, longest := |present[|present| - 1].1|, LongestOf(present[..|present| - 1]);
    if longest <= n then n else longest
  }

  /** What healing a slot gives, before it is written. */
  function HealedBytes(ps: Primitives, files: Shelf, faults: Faults, remote: Shelf, local: NodeId, p: EcShardPlacement, index: nat): Option<seq<Byte>> {
    var present := Gathered(files, faults, remote, local, p.name, p.placements, index);
    if LongestOf(present) == 0 then None
    else Rebuilt(ps, p.dataShards, p.parityShards, LongestOf(present), present, index)
  }

  /** A shard that is on disk together with its own checksum. */
  predicate Clean(ps: Primitives, files: Shelf, sums: Shelf, slot: Slot) {
    slot in files && At(sums, slot) == Some(ps.sha(files[slot]))
  }

  datatype Metrics = Metrics(scanned: nat, corrupt: nat, healed: nat, errors: nat)

  /** The counters have moved on by what happened: every local shard is scanned or unreadable, every corrupt one healed or failed. */
  ghost predicate Counted(m: Metrics, m': Metrics, events: seq<Event>) {
    && m'.scanned + Count(events, Unreadable) == m.scanned + |events|
    && m'.healed == m.healed + Count(events, Healed)
    && m'.corrupt == m.corrupt + Count(events, Healed) + Count(events, HealFailed)
    && m'.errors == m.errors + Count(events, Unreadable) + Count(events, Unverifiable) + Count(events, HealFailed)
  }

  lemma CountedOneMore(m: Metrics, m1: Metrics, m2: Metrics, events: seq<Event>, event: Event)
    requires Counted(m, m1, events) && Counted(m1, m2, [event])
    ensures Counted(m, m2, events + [event])
  {
    assert (events + [event])[..|events|] == events;
    CountOne();
  }

  datatype Disk = Disk(files: Shelf, sums: Shelf)

  /** What does not change during a pass. Peers answer from their own disks. */
  datatype Setting = Setting(ps: Primitives, local: NodeId, remote: Shelf, faults: Faults)

  /** One step of a pass: a local shard of an object. */
  datatype Job = Job(p: EcShardPlacement, index: nat) {
    function Where(): Slot {
      Slot(p.name, index)
    }
  }

  /** What a pass does to the disk at one shard. */
  function Scan(st: Setting, d: Disk, job: Job): (Disk, Event) {
    var slot := job.Where();
    if slot !in d.files || slot in st.faults.read then (d, Unreadable)
    else if slot in st.faults.readSum || (slot !in d.sums && slot in st.faults.writeSum) then (d, Unverifiable)
    else if slot !in d.sums then (d.(sums := d.sums[slot := st.ps.sha(d.files[slot])]), Good)
    else if d.sums[slot] == st.ps.sha(d.files[slot]) then (d, Good)
    else
      var rebuilt := HealedBytes(st.ps, d.files, st.faults, st.remote, st.local, job.p, job.index);
      if rebuilt.None? || slot in st.faults.write then (d, HealFailed)
      else if slot in st.faults.writeSum then (d.(files := d.files[slot := rebuilt.value]), HealFailed)
      else (Disk(d.files[slot := rebuilt.value], d.sums[slot := st.ps.sha(rebuilt.value)]), Healed)
  }

  /** A whole pass: the disk it leaves and what happened at each shard. */
  function Pass(st: Setting, d: Disk, jobs: seq<Job>): (Disk, seq<Event>) {
    if jobs == [] then (d, []) else
    var (before, events) := Pass(st, d, jobs[..|jobs| - 1]);
    var (after, event) := Scan(st, before, jobs[|jobs| - 1]);
    (after, events + [event])
  }

  function LocalJobs(p: EcShardPlacement, placements: Placements, local: NodeId): seq<Job> {
    if placements == [] then [] else
    LocalJobs(p, placements[..|placements| - 1], local)
      + if placements[|placements| - 1].1 == local then [Job(p, placements[|placements| - 1].0)] else []
  }

  /** The local shards of a list of objects, in the order in which they are scanned. */
  function AllJobs(ps: seq<EcShardPlacement>, local: NodeId): seq<Job> {
    if ps == [] then [] else AllJobs(ps[..|ps| - 1], local) + LocalJobs(ps[|ps| - 1], ps[|ps| - 1].placements, local)
  }

  class Scanner {
    const ps: Primitives
    const local: NodeId
    const remote: Shelf
    var files: Shelf
    var sums: Shelf
    var scanned: nat
    var corrupt: nat
    var healed: nat
    var errors: nat

    constructor (ps: Primitives, local: NodeId, remote: Shelf, files: Shelf, sums: Shelf)
      ensures this.ps == ps && this.local == local && this.remote == remote && this.files == files && this.sums == sums
      ensures scanned == corrupt == healed == errors == 0
    {
      this.ps, this.local, this.remote, this.files, this.sums := ps, local, remote, files, sums;
      scanned, corrupt, healed, errors := 0, 0, 0, 0;
    }

    /** `write_checksum_sidecar`. */
    method WriteChecksum(slot: Slot, bytes: seq<Byte>, faults: Faults) returns (ok: bool)
      modifies this`sums
      ensures ok <==> slot !in faults.writeSum
      ensures sums == if ok then old(sums)[slot := ps.sha(bytes)] else old(sums)
    {
      ok := slot !in faults.writeSum;
      if ok {
        sums := sums[slot := ps.sha(bytes)];
      }
    }

    /** `verify_shard_checksum`: a missing checksum file is written from what is there. `None` is an error. */
    method VerifyShardChecksum(slot: Slot, bytes: seq<Byte>, faults: Faults) returns (r: Option<bool>)
      modifies this`sums
      ensures r.None? <==> slot in faults.readSum || (slot !in old(sums) && slot in faults.writeSum)
      ensures r.Some? ==> (r.value <==> slot !in old(sums) || old(sums)[slot] == ps.sha(bytes))
      ensures sums == if r.Some? && slot !in old(sums) then old(sums)[slot := ps.sha(bytes)] else old(sums)
    {
      if slot in faults.readSum {
        return None;
      }
      if slot !in sums {
        var ok := WriteChecksum(slot, bytes, faults);
        return if ok then Some(true) else None;
      }
      return Some(ps.sha(bytes) == sums[slot]);
    }

    /** `gather_shards`. */
    method GatherShards(p: EcShardPlacement, skip: nat, faults: Faults) returns (present: Shards)
      ensures present == Gathered(files, faults, remote, local, p.name, p.placements, skip)
    {
      hide Fetched;
      present := [];
      for i := 0 to |p.placements|
        invariant present == Gathered(files, faults, remote, local, p.name, p.placements[..i], skip)
      {
        var (index, owner) := p.placements[i];
        assert p.placements[..i + 1][..i] == p.placements[..i];
        var bytes := Fetched(files, faults, remote, local, Slot(p.name, index), owner);
        if index != skip && bytes.Some? {
          present := present + [(index, bytes.value)];
        }
      }
      assert p.placements[..|p.placements|] == p.placements;
    }

    /** `shard_size_from_present`. */
    method ShardSizeFromPresent(present: Shards) returns (size: nat)
      ensures size == LongestOf(present)
    {
      size := 0;
      for i := 0 to |present|
        invariant size == LongestOf(present[..i])
      {
        assert present[..i + 1][..i] == present[..i];
        if size <= |present[i].1| {
          size := |present[i].1|;
        }
      }
      assert present[..|present|] == present;
    }

    /** `heal_local_shard`. */
    method HealLocalShard(p: EcShardPlacement, index: nat, faults: Faults) returns (ok: bool)
      modifies this`files, this`sums
      ensures var slot, rebuilt := Slot(p.name, index), HealedBytes(ps, old(files), faults, remote, local, p, index);
              && (ok <==> rebuilt.Some? && slot !in faults.write && slot !in faults.writeSum)
              && files == (if rebuilt.Some? && slot !in faults.write then old(files)[slot := rebuilt.value] else old(files))
              && sums == if ok then old(sums)[slot := ps.sha(rebuilt.value)] else old(sums)
    {
      hide Gathered, LongestOf, Rebuilt;
      var slot := Slot(p.name, index);
      var present := GatherShards(p, index, faults);
      var size := ShardSizeFromPresent(present);
      if size == 0 {
        return false;
      }
      var rebuilt := ReconstructShard(ps, p.dataShards, p.parityShards, size, present, index);
      if rebuilt.None? || slot in faults.write {
        return false;
      }
      files := files[slot := rebuilt.value];
      ok := WriteChecksum(slot, rebuilt.value, faults);
    }

    ghost function TheDisk(): Disk
      reads this
    {
      Disk(files, sums)
    }

    ghost function In(faults: Faults): Setting
      reads this
    {
      Setting(ps, local, remote, faults)
    }

    ghost function TheMetrics(): Metrics
      reads this
    {
      Metrics(scanned, corrupt, healed, errors)
    }

    /** The body of the scanning loop. */
    method ScanShard(p: EcShardPlacement, index: nat, faults: Faults) returns (ghost event: Event)
      modifies this
      ensures (TheDisk(), event) == Scan(In(faults), old(TheDisk()), Job(p, index))
      ensures Counted(old(TheMetrics()), TheMetrics(), [event])
    {
      hide HealedBytes;
      var slot := Slot(p.name, index);
      CountOne();
      if slot !in files || slot in faults.read {
        errors := errors + 1;
        return Unreadable;
      }
      scanned := scanned + 1;
      var verified := VerifyShardChecksum(slot, files[slot], faults);
      match verified
      case Some(true) =>
        event := Good;
      case Some(false) =>
        corrupt := corrupt + 1;
        var ok := HealLocalShard(p, index, faults);
        if ok {
          healed := healed + 1;
          event := Healed;
        } else {
          errors := errors + 1;
          event := HealFailed;
        }
      case None =>
        errors := errors + 1;
        event := Unverifiable;
    }

    /** `scan_placements`. */
    method ScanPlacements(ps: seq<EcShardPlacement>, faults: Faults) returns (ghost events: seq<Event>)
      modifies this
      ensures (TheDisk(), events) == Pass(In(faults), old(TheDisk()), AllJobs(ps, local))
      ensures Counted(old(TheMetrics()), TheMetrics(), events)
    {
      hide Scan, Count, Counted, Pass, AllJobs, LocalJobs;
      NothingScanned(In(faults), TheDisk(), TheMetrics(), local);
      events := [];
      ghost var jobs: seq<Job> := [];
      for i := 0 to |ps|
        invariant jobs == AllJobs(ps[..i], local)
        invariant (TheDisk(), events) == Pass(In(faults), old(TheDisk()), jobs)
        invariant Counted(old(TheMetrics()), TheMetrics(), events)
      {
        var p := ps[i];
        ghost var earlier := jobs;
        for j := 0 to |p.placements|
          invariant jobs == earlier + LocalJobs(p, p.placements[..j], local)
          invariant (TheDisk(), events) == Pass(In(faults), old(TheDisk()), jobs)
          invariant Counted(old(TheMetrics()), TheMetrics(), events)
        {
          var (index, owner) := p.placements[j];
          LocalJobsOneMore(p, p.placements[..j], (index, owner), local);
          assert p.placements[..j + 1] == p.placements[..j] + [(index, owner)];
          if owner != local {
            continue;
          }
          ghost var m := TheMetrics();
          ghost var event := ScanShard(p, index, faults);
          CountedOneMore(old(TheMetrics()), m, TheMetrics(), events, event);
          PassOneMore(In(faults), old(TheDisk()), jobs, Job(p, index));
          jobs, events := jobs + [Job(p, index)], events + [event];
        }
        assert p.placements[..|p.placements|] == p.placements;
        AllJobsOneMore(ps[..i], p, local);
        assert ps[..i + 1] == ps[..i] + [p];
      }
      assert ps[..|ps|] == ps;
    }
  }

  lemma NothingScanned(st: Setting, d: Disk, m: Metrics, local: NodeId)
    ensures Pass(st, d, []) == (d, []) && Counted(m, m, []) && AllJobs([], local) == []
    ensures forall p :: LocalJobs(p, [], local) == []
  {
  }

  lemma PassOneMore(st: Setting, d: Disk, jobs: seq<Job>, job: Job)
    ensures var (before, events) := Pass(st, d, jobs);
            var (after, event) := Scan(st, before, job);
            Pass(st, d, jobs + [job]) == (after, events + [event])
  {
    hide Scan;
    assert (jobs + [job])[..|jobs|] == jobs;
  }

  lemma LocalJobsOneMore(p: EcShardPlacement, placements: Placements, entry: (nat, NodeId), local: NodeId)
    ensures LocalJobs(p, placements + [entry], local) ==
            LocalJobs(p, placements, local) + if entry.1 == local then [Job(p, entry.0)] else []
  {
    assert (placements + [entry])[..|placements|] == placements;
  }

  lemma AllJobsOneMore(ps: seq<EcShardPlacement>, p: EcShardPlacement, local: NodeId)
    ensures AllJobs(ps + [p], local) == AllJobs(ps, local) + LocalJobs(p, p.placements, local)
  {
    assert (ps + [p])[..|ps|] == ps;
  }

  lemma CountOne()
    ensures forall e, f :: Count([e], f) == if e == f then 1 else 0
  {
  }

  /** What a step finds, and what it leaves. */
  lemma ScanIs(st: Setting, d: Disk, job: Job)
    ensures var slot, rebuilt := job.Where(), HealedBytes(st.ps, d.files, st.faults, st.remote, st.local, job.p, job.index);
            var (d', event) := Scan(st, d, job);
            var readable := slot in d.files && slot !in st.faults.read;
            var verifiable := slot !in st.faults.readSum && (slot in d.sums || slot !in st.faults.writeSum);
            && (event == Unreadable <==> !readable)
            && (event == Unverifiable <==> readable && !verifiable)
            && (event == Good <==> readable && verifiable && (slot in d.sums ==> d.sums[slot] == st.ps.sha(d.files[slot])))
            && (event == Healed ==> rebuilt.Some? && d' == Disk(d.files[slot := rebuilt.value], d.sums[slot := st.ps.sha(rebuilt.value)]))
            && (event == HealFailed <==>
                  && readable && verifiable && slot in d.sums && d.sums[slot] != st.ps.sha(d.files[slot])
                  && (rebuilt.None? || slot in st.faults.write || slot in st.faults.writeSum))
            && (event == HealFailed ==> d' == d.(files := if rebuilt.Some? && slot !in st.faults.write then d.files[slot := rebuilt.value] else d.files))
            && (event == Good ==> d' == d.(sums := d.sums[slot := st.ps.sha(d.files[slot])]))
            && (event == Unreadable || event == Unverifiable ==> d' == d)
  {
    hide HealedBytes;
  }

  // ---- what a pass achieves ----

  predicate IsError(e: Event) {
    e.Unreadable? || e.Unverifiable? || e.HealFailed?
  }

  ghost predicate NoErrors(events: seq<Event>) {
    forall i :: 0 <= i < |events| ==> !IsError(events[i])
  }

  predicate FaultFree(f: Faults) {
    f == Faults({}, {}, {}, {})
  }

  /** A step without an error leaves its shard clean, and no step disturbs a clean shard. */
  lemma ScanKeepsClean(st: Setting, d: Disk, job: Job, slot: Slot)
    ensures var (d', event) := Scan(st, d, job);
            && (Clean(st.ps, d.files, d.sums, slot) ==> Clean(st.ps, d'.files, d'.sums, slot))
            && (!IsError(event) ==> Clean(st.ps, d'.files, d'.sums, job.Where()))
  {
    hide HealedBytes;
  }

  lemma {:induction false} PassLeavesClean(st: Setting, d: Disk, jobs: seq<Job>, i: nat)
    requires i < |jobs| && NoErrors(Pass(st, d, jobs).1)
    ensures var d' := Pass(st, d, jobs).0; Clean(st.ps, d'.files, d'.sums, jobs[i].Where())
    ensures |Pass(st, d, jobs).1| == |jobs|
  {
    hide Scan, Clean;
    var n := |jobs| - 1;
    var (before, events) := Pass(st, d, jobs[..n]);
    var (after, event) := Scan(st, before, jobs[n]);
    assert (events + [event])[..|events|] == events;
    assert !IsError((events + [event])[|events|]);
    if i < n {
      PassLeavesClean(st, d, jobs[..n], i);
    } else {
      PassLength(st, d, jobs[..n]);
    }
    ScanKeepsClean(st, before, jobs[n], jobs[i].Where());
  }

  lemma {:induction false} PassLength(st: Setting, d: Disk, jobs: seq<Job>)
    ensures |Pass(st, d, jobs).1| == |jobs|
  {
    if jobs != [] {
      PassLength(st, d, jobs[..|jobs| - 1]);
    }
  }

  lemma {:induction false} CleanPass(st: Setting, d: Disk, jobs: seq<Job>)
    requires FaultFree(st.faults)
    requires forall i :: 0 <= i < |jobs| ==> Clean(st.ps, d.files, d.sums, jobs[i].Where())
    ensures Pass(st, d, jobs).0 == d
    ensures forall e :: e in Pass(st, d, jobs).1 ==> e == Good
  {
    hide HealedBytes;
    if jobs != [] {
      CleanPass(st, d, jobs[..|jobs| - 1]);
      assert Clean(st.ps, d.files, d.sums, jobs[|jobs| - 1].Where());
    }
  }

  /** After a pass without errors, a second pass over the unchanged disk finds nothing and changes nothing. */
  lemma SecondPassIsQuiet(st: Setting, again: Setting, d: Disk, jobs: seq<Job>)
    requires NoErrors(Pass(st, d, jobs).1)
    requires again == st.(faults := again.faults) && FaultFree(again.faults)
    ensures var d' := Pass(st, d, jobs).0;
            Pass(again, d', jobs).0 == d' && forall e :: e in Pass(again, d', jobs).1 ==> e == Good
  {
    hide Pass, Clean;
    var d' := Pass(st, d, jobs).0;
    forall i | 0 <= i < |jobs| ensures Clean(again.ps, d'.files, d'.sums, jobs[i].Where()) {
      PassLeavesClean(st, d, jobs, i);
    }
    CleanPass(again, d', jobs);
  }

  // ---- what can be read ----

  /** The node's own file of a slot, if it owns the slot and can read the file. */
  predicate ReadsOwn(st: Setting, files: Shelf, slot: Slot, owner: NodeId) {
    owner == st.local && slot in files && slot !in st.faults.read
  }

  /** These bytes are read for a placement: from the own file, or else from a peer. */
  predicate Reads(st: Setting, files: Shelf, slot: Slot, owner: NodeId, bytes: seq<Byte>) {
    if ReadsOwn(st, files, slot, owner) then files[slot] == bytes else slot in st.remote && st.remote[slot] == bytes
  }

  /** The shards of an object that can be read, but for one. */
  function Readable(st: Setting, files: Shelf, p: EcShardPlacement, skip: nat): set<nat> {
    set e | e in p.placements && e.0 != skip && (ReadsOwn(st, files, Slot(p.name, e.0), e.1) || Slot(p.name, e.0) in st.remote) :: e.0
  }

  lemma {:induction false} GatheredIff(st: Setting, files: Shelf, p: EcShardPlacement, placements: Placements, skip: nat)
    ensures forall i: nat, bytes: seq<Byte> :: (i, bytes) in Gathered(files, st.faults, st.remote, st.local, p.name, placements, skip) <==>
              i != skip && exists owner :: (i, owner) in placements && Reads(st, files, Slot(p.name, i), owner, bytes)
  {
    if placements != [] {
      var n := |placements| - 1;
      GatheredIff(st, files, p, placements[..n], skip);
      var (index, owner) := placements[n];
      assert placements == placements[..n] + [(index, owner)];
      var b := Fetched(files, st.faults, st.remote, st.local, Slot(p.name, index), owner);
      assert forall bytes: seq<Byte> :: b == Some(bytes) <==> Reads(st, files, Slot(p.name, index), owner, bytes);
      hide Fetched, Reads;
      forall i: nat, bytes: seq<Byte>
        ensures (i, bytes) in Gathered(files, st.faults, st.remote, st.local, p.name, placements, skip) <==>
                  i != skip && exists o :: (i, o) in placements && Reads(st, files, Slot(p.name, i), o, bytes)
      {
        assert forall o :: (i, o) in placements <==> (i, o) in placements[..n] || (i, o) == (index, owner);
      }
    }
  }

  /** The indices of what is gathered are those of the readable shards. */
  lemma GatheredIndices(st: Setting, files: Shelf, p: EcShardPlacement, skip: nat)
    ensures Indices(Gathered(files, st.faults, st.remote, st.local, p.name, p.placements, skip)) == Readable(st, files, p, skip)
  {
    var present := Gathered(files, st.faults, st.remote, st.local, p.name, p.placements, skip);
    GatheredIff(st, files, p, p.placements, skip);
    hide Gathered;
    forall i: nat
      ensures i in Indices(present) <==> i in Readable(st, files, p, skip)
    {
      if i in Indices(present) {
        var k :| 0 <= k < |present| && present[k].0 == i;
        assert (i, present[k].1) in present;
      }
      if i in Readable(st, files, p, skip) {
        var e :| e in p.placements && e.0 == i && e.0 != skip && (ReadsOwn(st, files, Slot(p.name, e.0), e.1) || Slot(p.name, e.0) in st.remote);
        var bytes := if ReadsOwn(st, files, Slot(p.name, i), e.1) then files[Slot(p.name, i)] else st.remote[Slot(p.name, i)];
        assert (i, e.1) in p.placements && Reads(st, files, Slot(p.name, i), e.1, bytes);
        assert (i, bytes) in present;
      }
    }
  }

  /** Every shard that would be gathered for the object belongs to this codeword. */
  ghost predicate Trustworthy(st: Setting, files: Shelf, p: EcShardPlacement, cw: seq<seq<Byte>>, skip: nat) {
    forall i, owner, bytes :: (i, owner) in p.placements && i != skip && Reads(st, files, Slot(p.name, i), owner, bytes) ==>
      i < |cw| && bytes == cw[i]
  }

  lemma FetchedIsRead(st: Setting, files: Shelf, slot: Slot, owner: NodeId)
    ensures var b := Fetched(files, st.faults, st.remote, st.local, slot, owner); b.Some? ==> Reads(st, files, slot, owner, b.value)
  {
  }

  lemma {:induction false} GatheredIsGenuine(st: Setting, files: Shelf, p: EcShardPlacement, cw: seq<seq<Byte>>, skip: nat, size: nat)
    requires Trustworthy(st, files, p, cw, skip) && forall i :: 0 <= i < |cw| ==> |cw[i]| == size
    ensures var present := Gathered(files, st.faults, st.remote, st.local, p.name, p.placements, skip);
            Genuine(present, cw, size) && (present != [] ==> LongestOf(present) == size)
    decreases |p.placements|
  {
    hide Resize, Fetched, LongestOf;
    if p.placements != [] {
      var n := |p.placements| - 1;
      var shorter := p.(placements := p.placements[..n]);
      assert Trustworthy(st, files, shorter, cw, skip);
      GatheredIsGenuine(st, files, shorter, cw, skip, size);
      var (index, owner) := p.placements[n];
      var b := Fetched(files, st.faults, st.remote, st.local, Slot(p.name, index), owner);
      assert (index, owner) in p.placements && (b.Some? ==> Reads(st, files, Slot(p.name, index), owner, b.value)) by {
        FetchedIsRead(st, files, Slot(p.name, index), owner);
      }
      var earlier := Gathered(files, st.faults, st.remote, st.local, p.name, p.placements[..n], skip);
      var all := Gathered(files, st.faults, st.remote, st.local, p.name, p.placements, skip);
      assert all == earlier + if index == skip || b.None? then [] else [(index, b.value)];
      assert index != skip && b.Some? ==> b.value == cw[index];
      hide Gathered, Trustworthy, Genuine;
      if index != skip && b.Some? {
        FullSize(cw[index]);
        GenuineOneMore(earlier, (index, b.value), cw, size);
      } else {
        assert all == earlier;
      }
    }
  }

  lemma GenuineOneMore(present: Shards, shard: (nat, seq<Byte>), cw: seq<seq<Byte>>, size: nat)
    requires Genuine(present, cw, size) && (present != [] ==> LongestOf(present) == size)
    requires shard.0 < |cw| && Resize(shard.1, size) == cw[shard.0] && |shard.1| == size
    ensures Genuine(present + [shard], cw, size) && LongestOf(present + [shard]) == size
  {
    hide Resize;
    assert (present + [shard])[..|present|] == present;
  }

  /** A heal from shards of one codeword gives that codeword's shard, iff at least k others can be read here or from peers. */
  lemma HealGivesOriginal(st: Setting, files: Shelf, p: EcShardPlacement, cw: seq<seq<Byte>>, index: nat)
    requires Mds(st.ps) && Codeword(st.ps, p.dataShards, p.parityShards, cw) && index < |cw|
    requires Trustworthy(st, files, p, cw, index)
    ensures HealedBytes(st.ps, files, st.faults, st.remote, st.local, p, index) ==
            if |Readable(st, files, p, index)| >= p.dataShards then Some(cw[index]) else None
  {
    var present := Gathered(files, st.faults, st.remote, st.local, p.name, p.placements, index);
    assert RsParams(p.dataShards, p.parityShards) && |cw[0]| > 0 && |cw| == p.dataShards + p.parityShards;
    assert forall i :: 0 <= i < |cw| ==> |cw[i]| == |cw[0]|;
    hide Gathered, Trustworthy, LongestOf, Rebuilt, Indices, Mds, Codeword, Genuine, Readable;
    GatheredIndices(st, files, p, index);
    GatheredIsGenuine(st, files, p, cw, index, |cw[0]|);
    GenuineRebuilds(st.ps, p.dataShards, p.parityShards, cw, present, index);
    if present == [] {
      NoIndices();
      EmptyHasNoLength();
    }
  }

  lemma EmptyHasNoLength()
    ensures LongestOf([]) == 0
  {
  }

  predicate OwnedHere(st: Setting, p: EcShardPlacement, index: nat) {
    (index, st.local) in p.placements
  }

  /** The shard is the original unless it is the bad one, and a checksum file is that of the original. */
  ghost predicate SoundAt(st: Setting, d: Disk, p: EcShardPlacement, cw: seq<seq<Byte>>, bad: nat, index: nat) {
    var slot := Slot(p.name, index);
    && index < |cw|
    && (slot in d.files && index != bad ==> d.files[slot] == cw[index])
    && (slot in d.sums ==> d.sums[slot] == st.ps.sha(cw[index]))
    && (index == bad ==> slot in d.sums)
  }

  /** At most one local shard of the object is not the original. */
  ghost predicate Sound(st: Setting, d: Disk, p: EcShardPlacement, cw: seq<seq<Byte>>, bad: nat) {
    forall index :: OwnedHere(st, p, index) ==> SoundAt(st, d, p, cw, bad, index)
  }

  /** What peers return for the object is original. */
  ghost predicate PeersSound(st: Setting, p: EcShardPlacement, cw: seq<seq<Byte>>) {
    forall index: nat :: Slot(p.name, index) in st.remote ==> index < |cw| && st.remote[Slot(p.name, index)] == cw[index]
  }

  lemma SoundIsTrustworthy(st: Setting, d: Disk, p: EcShardPlacement, cw: seq<seq<Byte>>, bad: nat)
    requires Sound(st, d, p, cw, bad) && PeersSound(st, p, cw)
    ensures Trustworthy(st, d.files, p, cw, bad)
  {
    forall i, owner, bytes | (i, owner) in p.placements && i != bad && Reads(st, d.files, Slot(p.name, i), owner, bytes)
      ensures i < |cw| && bytes == cw[i]
    {
      if owner == st.local {
        assert OwnedHere(st, p, i);
      }
    }
  }

  /** The bad shard is either left alone or replaced by the original; all others stay what they were. */
  lemma ScanOfObject(st: Setting, d: Disk, job: Job, cw: seq<seq<Byte>>, bad: nat)
    requires Mds(st.ps) && CollisionFree(st.ps) && Codeword(st.ps, job.p.dataShards, job.p.parityShards, cw)
    requires Sound(st, d, job.p, cw, bad) && PeersSound(st, job.p, cw) && OwnedHere(st, job.p, job.index)
    ensures Sound(st, Scan(st, d, job).0, job.p, cw, bad)
  {
    hide Mds, CollisionFree, Codeword, HealedBytes, PeersSound, OwnedHere;
    assert SoundAt(st, d, job.p, cw, bad, job.index);
    if job.index == bad {
      SoundIsTrustworthy(st, d, job.p, cw, bad);
      HealGivesOriginal(st, d.files, job.p, cw, bad);
    }
    var d' := Scan(st, d, job).0;
    forall index | OwnedHere(st, job.p, index) ensures SoundAt(st, d', job.p, cw, bad, index) {
      assert SoundAt(st, d, job.p, cw, bad, index);
    }
  }

  lemma ScanOfAnother(st: Setting, d: Disk, job: Job, p: EcShardPlacement, cw: seq<seq<Byte>>, bad: nat)
    requires Sound(st, d, p, cw, bad) && job.p.name != p.name
    ensures Sound(st, Scan(st, d, job).0, p, cw, bad)
  {
    hide HealedBytes, OwnedHere;
    var d' := Scan(st, d, job).0;
    forall index | OwnedHere(st, p, index) ensures SoundAt(st, d', p, cw, bad, index) {
      assert SoundAt(st, d, p, cw, bad, index);
    }
  }

  /** The steps of a pass that concern this object are for its local shards. */
  ghost predicate JobsFor(st: Setting, jobs: seq<Job>, p: EcShardPlacement) {
    forall i :: 0 <= i < |jobs| && jobs[i].p.name == p.name ==> jobs[i].p == p && OwnedHere(st, p, jobs[i].index)
  }

  lemma {:induction false} PassKeepsSound(st: Setting, d: Disk, jobs: seq<Job>, p: EcShardPlacement, cw: seq<seq<Byte>>, bad: nat)
    requires Mds(st.ps) && CollisionFree(st.ps) && Codeword(st.ps, p.dataShards, p.parityShards, cw)
    requires Sound(st, d, p, cw, bad) && PeersSound(st, p, cw) && JobsFor(st, jobs, p)
    ensures Sound(st, Pass(st, d, jobs).0, p, cw, bad)
  {
    hide Mds, CollisionFree, Codeword, Sound, PeersSound, OwnedHere, Scan;
    if jobs != [] {
      var n := |jobs| - 1;
      PassKeepsSound(st, d, jobs[..n], p, cw, bad);
      var before := Pass(st, d, jobs[..n]).0;
      if jobs[n].p.name == p.name {
        ScanOfObject(st, before, jobs[n], cw, bad);
      } else {
        ScanOfAnother(st, before, jobs[n], p, cw, bad);
      }
    }
  }

  lemma {:induction false} LocalJobsAre(st: Setting, p: EcShardPlacement, placements: Placements)
    requires placements <= p.placements
    ensures forall i :: 0 <= i < |LocalJobs(p, placements, st.local)| ==>
              var job := LocalJobs(p, placements, st.local)[i]; job.p == p && OwnedHere(st, p, job.index)
    ensures forall index :: (index, st.local) in placements ==> Job(p, index) in LocalJobs(p, placements, st.local)
  {
    if placements != [] {
      LocalJobsAre(st, p, placements[..|placements| - 1]);
      assert placements[|placements| - 1] in p.placements;
    }
  }

  ghost predicate OneEach(ps: seq<EcShardPlacement>) {
    forall i, j :: 0 <= i < j < |ps| ==> ps[i].name != ps[j].name
  }

  lemma {:induction false} AllJobsAre(st: Setting, ps: seq<EcShardPlacement>)
    ensures forall i :: 0 <= i < |AllJobs(ps, st.local)| ==>
              var job := AllJobs(ps, st.local)[i]; job.p in ps && OwnedHere(st, job.p, job.index)
    ensures forall p, index :: p in ps && OwnedHere(st, p, index) ==> Job(p, index) in AllJobs(ps, st.local)
  {
    if ps != [] {
      var last := ps[|ps| - 1];
      AllJobsAre(st, ps[..|ps| - 1]);
      LocalJobsAre(st, last, last.placements);
    }
  }

  lemma AllJobsFor(st: Setting, ps: seq<EcShardPlacement>, p: EcShardPlacement)
    requires OneEach(ps) && p in ps
    ensures JobsFor(st, AllJobs(ps, st.local), p)
  {
    AllJobsAre(st, ps);
  }

  /**
   If at most one local shard of an object has rotted under its checksum and its peers are sound, then a pass
   over all objects that meets no error leaves every local shard of the object original.
   */
  lemma PassRestores(st: Setting, d: Disk, ps: seq<EcShardPlacement>, p: EcShardPlacement, cw: seq<seq<Byte>>, bad: nat, index: nat)
    requires Mds(st.ps) && CollisionFree(st.ps) && Codeword(st.ps, p.dataShards, p.parityShards, cw)
    requires OneEach(ps) && p in ps && Sound(st, d, p, cw, bad) && PeersSound(st, p, cw)
    requires NoErrors(Pass(st, d, AllJobs(ps, st.local)).1) && OwnedHere(st, p, index)
    ensures index < |cw| && At(Pass(st, d, AllJobs(ps, st.local)).0.files, Slot(p.name, index)) == Some(cw[index])
  {
    hide Mds, Codeword, PeersSound, OwnedHere, Pass, AllJobs, NoErrors, JobsFor, OneEach;
    var jobs := AllJobs(ps, st.local);
    var d' := Pass(st, d, jobs).0;
    AllJobsFor(st, ps, p);
    PassKeepsSound(st, d, jobs, p, cw, bad);
    assert SoundAt(st, d', p, cw, bad, index);
    AllJobsAre(st, ps);
    var i :| 0 <= i < |jobs| && jobs[i] == Job(p, index);
    PassLeavesClean(st, d, jobs, i);
  }

  /**
   Gathered shards are not checked: if those that can be read all belong to another codeword, a rotten
   shard is replaced by that codeword's shard and certified by a new checksum.
   */
  lemma HealTrustsWhatItReads(st: Setting, d: Disk, job: Job, cw: seq<seq<Byte>>, other: seq<seq<Byte>>)
    requires Mds(st.ps) && Codeword(st.ps, job.p.dataShards, job.p.parityShards, other) && job.index < |other| == |cw|
    requires Trustworthy(st, d.files, job.p, other, job.index)
    requires |Readable(st, d.files, job.p, job.index)| >= job.p.dataShards
    requires FaultFree(st.faults) && job.Where() in d.files && job.Where() in d.sums && other[job.index] != cw[job.index]
    requires d.sums[job.Where()] == st.ps.sha(cw[job.index]) != st.ps.sha(d.files[job.Where()])
    ensures var (d', event) := Scan(st, d, job);
            && event == Healed && Clean(st.ps, d'.files, d'.sums, job.Where())
            && d'.files[job.Where()] == other[job.index] != cw[job.index]
  {
    hide Mds, Codeword, HealedBytes, Trustworthy, Readable;
    HealGivesOriginal(st, d.files, job.p, other, job.index);
  }

  lemma {:induction false} LongestOfSame(present: Shards, size: nat)
    requires present != [] && forall i :: 0 <= i < |present| ==> |present[i].1| == size
    ensures LongestOf(present) == size
  {
    if |present| > 1 {
      LongestOfSame(present[..|present| - 1], size);
    } else {
      assert present[..0] == [];
    }
  }

  /**
   A parity shard healed from exactly the data shards, at most one of them altered, is the original iff
   none of them is.
   */
  lemma HealedParityIff(st: Setting, files: Shelf, p: EcShardPlacement, cw: seq<seq<Byte>>, data: seq<seq<Byte>>, altered: nat, index: nat)
    requires Mds(st.ps) && EncodeShape(st.ps) && Codeword(st.ps, p.dataShards, p.parityShards, cw)
    requires altered < p.dataShards <= index < |cw|
    requires |data| == p.dataShards && forall i :: 0 <= i < |data| ==> |data[i]| == |cw[0]|
    requires forall i :: 0 <= i < |data| && i != altered ==> data[i] == cw[i]
    requires Gathered(files, st.faults, st.remote, st.local, p.name, p.placements, index) == DataShards(data)
    ensures HealedBytes(st.ps, files, st.faults, st.remote, st.local, p, index) == Some(cw[index]) <==> data == cw[..p.dataShards]
    ensures HealedBytes(st.ps, files, st.faults, st.remote, st.local, p, index).Some?
  {
    LongestOfSame(DataShards(data), |cw[0]|);
    ParityFromDataIff(st.ps, p.dataShards, p.parityShards, cw, data, altered, index);
    assert |cw[0]| > 0;
    hide Mds, EncodeShape, Codeword, Gathered, Rebuilt, LongestOf;
  }

  // ---- the smallest case: one data shard elsewhere, its mirror here ----

  const OB: Object := Object("b", "k")

  function Mirror(): EcShardPlacement {
    EcShardPlacement(OB, 1, 1, [(0, "2"), (1, "1")])
  }

  /** Node 1 holds a rotten parity shard; what node 2 returns for the data shard is `byte`. */
  function MirrorSetting(ps: Primitives, byte: Byte): Setting {
    Setting(ps, "1", map[Slot(OB, 0) := [byte]], Faults({}, {}, {}, {}))
  }

  lemma MirrorGathers(st: Setting, files: Shelf, byte: Byte)
    requires st == MirrorSetting(st.ps, byte)
    ensures Gathered(files, st.faults, st.remote, st.local, OB, Mirror().placements, 1) == DataShards([[byte]])
  {
    var two: Placements := [(0, "2"), (1, "1")];
    var one: Placements := [(0, "2")];
    assert two[..1] == one && one[..0] == [];
    assert Gathered(files, st.faults, st.remote, st.local, OB, one, 1) == [(0, [byte])];
  }

  /** The data shard was a 1 byte. If its node returns a 2, healing certifies a parity shard that is not the original. */
  lemma AlteredDataSpreads(ps: Primitives, rotten: seq<Byte>)
    requires Mds(ps) && EncodeShape(ps) && CollisionFree(ps)
    requires var cw := [[1 as Byte]] + ps.encode(1, 1, [[1]]);
             |cw| == 2 && rotten != cw[1]
    ensures var cw := [[1 as Byte]] + ps.encode(1, 1, [[1]]);
            var slot := Slot(OB, 1);
            var (d, event) := Scan(MirrorSetting(ps, 2), Disk(map[slot := rotten], map[slot := ps.sha(cw[1])]), Job(Mirror(), 1));
            event == Healed && Clean(ps, d.files, d.sums, slot) && d.files[slot] != cw[1]
  {
    var cw := [[1 as Byte]] + ps.encode(1, 1, [[1]]);
    var st, slot := MirrorSetting(ps, 2), Slot(OB, 1);
    var files: Shelf := map[slot := rotten];
    EncodedIsCodeword(ps, 1, 1, [[1]], 1);
    MirrorGathers(st, files, 2);
    assert cw[0] == [1] && cw[..1] == [[1]] != [[2]];
    assert ps.sha(rotten) != ps.sha(cw[1]);
    hide Mds, EncodeShape, Codeword, Gathered, HealedBytes, CollisionFree;
    HealedParityIff(st, files, Mirror(), cw, [[2]], 0, 1);
  }
}
