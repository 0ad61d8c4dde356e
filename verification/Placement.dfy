/**
 Distributed erasure coding: shards are dealt out to the nodes in turn, and a missing shard is rebuilt
 from any k of the others.
 */
module Placement {
  import opened Base
  import opened Arithmetic
  import opened ChunkStore

  type NodeId = string
  type Placements = seq<(nat, NodeId)>

  /** `place_shards`. The node list is indexed modulo its length, so it must not be empty. */
  method PlaceShards(dataShards: nat, parityShards: nat, nodes: seq<NodeId>) returns (placements: Placements)
    requires nodes != []
    ensures placements == RoundRobin(nodes, dataShards + parityShards)
    // every shard is placed, once
    ensures |placements| == dataShards + parityShards
    ensures forall i :: 0 <= i < |placements| ==> placements[i].0 == i
  {
    placements := [];
    for shard := 0 to dataShards + parityShards
      invariant placements == RoundRobin(nodes, shard) && |placements| == shard
      invariant forall i :: 0 <= i < |placements| ==> placements[i].0 == i
    {
      placements := placements + [(shard, nodes[shard % |nodes|])];
    }
  }

  function RoundRobin(nodes: seq<NodeId>, total: nat): Placements
    requires nodes != []
  {
    if total == 0 then [] else RoundRobin(nodes, total - 1) + [(total - 1, nodes[(total - 1) % |nodes|])]
  }

  ghost predicate Distinct(nodes: seq<NodeId>) {
    forall i, j :: 0 <= i < j < |nodes| ==> nodes[i] != nodes[j]
  }

  /** How many of the shards are on the nodes of a set. */
  function HeldBy(placements: Placements, held: set<NodeId>): nat {
    if placements == [] then 0 else
    HeldBy(placements[..|placements| - 1], held) + if placements[|placements| - 1].1 in held then 1 else 0
  }

  /** The nodes that come first in the list. */
  function First(nodes: seq<NodeId>, n: nat): set<NodeId>
    requires n <= |nodes|
  {
    set i | 0 <= i < n :: nodes[i]
  }

  /** The nodes that hold one shard more than the others after `total` shards. */
  function Ahead(nodes: seq<NodeId>, total: nat): set<NodeId>
    requires nodes != []
  {
    First(nodes, total % |nodes|)
  }

  /** What a set of nodes holds after `q` full rounds and `r` shards more. */
  function Share(nodes: seq<NodeId>, held: set<NodeId>, q: nat, r: nat): nat
    requires r <= |nodes|
  {
    Times(|held|, q) + |held * First(nodes, r)|
  }

  lemma DealtOne(nodes: seq<NodeId>, total: nat, q: nat, r: nat, held: set<NodeId>)
    requires r < |nodes| && total == Times(q, |nodes|) + r
    ensures HeldBy(RoundRobin(nodes, total + 1), held) == HeldBy(RoundRobin(nodes, total), held) + if nodes[r] in held then 1 else 0
  {
    DivUnique(total, |nodes|, q, r);
    var before := RoundRobin(nodes, total);
    assert RoundRobin(nodes, total + 1) == before + [(total, nodes[r])];
    assert (before + [(total, nodes[r])])[..|before|] == before;
  }

  lemma FullRound(nodes: seq<NodeId>, held: set<NodeId>, q: nat)
    requires held <= First(nodes, |nodes|)
    ensures Share(nodes, held, q, |nodes|) == Share(nodes, held, q + 1, 0)
  {
    TimesOneMore(|held|, q);
    assert held * First(nodes, |nodes|) == held;
    assert held * First(nodes, 0) == {};
  }

  /** Dealing in turn gives a set of nodes its share: by rounds, and within a round node by node. */
  lemma {:induction false} Dealt(nodes: seq<NodeId>, q: nat, r: nat, held: set<NodeId>)
    requires nodes != [] && r <= |nodes| && Distinct(nodes) && held <= First(nodes, |nodes|)
    ensures HeldBy(RoundRobin(nodes, Times(q, |nodes|) + r), held) == Share(nodes, held, q, r)
    decreases q, r
  {
    hide *;
    TimesUnfolds(q, |nodes|);
    if r > 0 {
      Dealt(nodes, q, r - 1, held);
      DealtOne(nodes, Times(q, |nodes|) + r - 1, q, r - 1, held);
      ShareGrows(nodes, held, q, r - 1);
    } else if q > 0 {
      Dealt(nodes, q - 1, |nodes|, held);
      FullRound(nodes, held, q - 1);
    } else {
      NothingDealt(nodes, held);
    }
  }

  lemma ShareGrows(nodes: seq<NodeId>, held: set<NodeId>, q: nat, r: nat)
    requires r < |nodes| && Distinct(nodes)
    ensures Share(nodes, held, q, r + 1) == Share(nodes, held, q, r) + if nodes[r] in held then 1 else 0
  {
    hide First;
    FirstGrows(nodes, r, held);
  }

  lemma NothingDealt(nodes: seq<NodeId>, held: set<NodeId>)
    requires nodes != []
    ensures HeldBy(RoundRobin(nodes, 0), held) == 0 == Share(nodes, held, 0, 0)
  {
    ZeroTimes(|held|);
    assert held * First(nodes, 0) == {};
  }

  /** A set of nodes holds the rounded-down share of each, and one more for each that is ahead. */
  lemma HeldExactly(nodes: seq<NodeId>, total: nat, held: set<NodeId>)
    requires nodes != [] && Distinct(nodes) && held <= First(nodes, |nodes|)
    ensures HeldBy(RoundRobin(nodes, total), held) == Times(|held|, total / |nodes|) + |held * Ahead(nodes, total)|
  {
    hide HeldBy, RoundRobin, First;
    DivMod(total, |nodes|);
    Dealt(nodes, total / |nodes|, total % |nodes|, held);
  }

  lemma TimesUnfolds(q: nat, n: nat)
    ensures Times(q, n) == if q == 0 then 0 else n + Times(q - 1, n)
  {
  }

  lemma {:induction false} ZeroTimes(n: nat)
    ensures Times(n, 0) == 0
    decreases n
  {
    if n > 0 {
      ZeroTimes(n - 1);
    }
  }

  lemma {:induction false} TimesOneMore(n: nat, q: nat)
    ensures Times(n, q + 1) == Times(n, q) + n
    decreases n
  {
    if n > 0 {
      TimesOneMore(n - 1, q);
    }
  }

  lemma FirstGrows(nodes: seq<NodeId>, r: nat, held: set<NodeId>)
    requires r < |nodes| && Distinct(nodes)
    ensures |held * First(nodes, r + 1)| == |held * First(nodes, r)| + if nodes[r] in held then 1 else 0
  {
    assert nodes[r] !in First(nodes, r);
    assert First(nodes, r + 1) == First(nodes, r) + {nodes[r]};
    if nodes[r] in held {
      assert held * First(nodes, r + 1) == held * First(nodes, r) + {nodes[r]};
    } else {
      assert held * First(nodes, r + 1) == held * First(nodes, r);
    }
  }

  lemma {:induction false} FirstSize(nodes: seq<NodeId>, n: nat)
    requires n <= |nodes| && Distinct(nodes)
    ensures |First(nodes, n)| == n
  {
    if n > 0 {
      FirstSize(nodes, n - 1);
      assert nodes[n - 1] !in First(nodes, n - 1);
      assert First(nodes, n) == First(nodes, n - 1) + {nodes[n - 1]};
    }
  }

  lemma SubsetSize<T>(a: set<T>, b: set<T>)
    requires a <= b
    ensures |a| <= |b|
  {
    assert |b| == |a| + |b - a| by { assert b == a + (b - a); }
  }

  lemma AheadOrNot(nodes: seq<NodeId>, j: nat, r: nat)
    requires Distinct(nodes) && j < |nodes| && r <= |nodes|
    ensures |{nodes[j]} * First(nodes, r)| == if j < r then 1 else 0
  {
    if j < r {
      assert {nodes[j]} * First(nodes, r) == {nodes[j]};
    } else {
      assert {nodes[j]} * First(nodes, r) == {};
    }
  }

  /** Each node gets the floor or the ceiling of its share. */
  lemma FairShare(nodes: seq<NodeId>, total: nat, j: nat)
    requires nodes != [] && Distinct(nodes) && j < |nodes|
    ensures HeldBy(RoundRobin(nodes, total), {nodes[j]}) == total / |nodes| + if j < total % |nodes| then 1 else 0
    ensures total / |nodes| <= HeldBy(RoundRobin(nodes, total), {nodes[j]}) <= CeilDiv(total, |nodes|)
  {
    var held, q, r := {nodes[j]}, total / |nodes|, total % |nodes|;
    HeldExactly(nodes, total, held);
    assert Times(1, q) == q + Times(0, q);
    AheadOrNot(nodes, j, r);
    hide First, HeldBy, RoundRobin, Times;
    DivMod(total, |nodes|);
    TimesAdd(1, q, |nodes|);
    CeilDivUnique(total, |nodes|, if r == 0 then q else q + 1);
  }

  /** The most shards that `f` nodes can hold together. */
  function WorstLoss(total: nat, n: nat, f: nat): nat
    requires n > 0
  {
    Times(f, total / n) + Min(f, total % n)
  }

  lemma LossIsBounded(nodes: seq<NodeId>, total: nat, failed: set<NodeId>)
    requires nodes != [] && Distinct(nodes) && failed <= First(nodes, |nodes|)
    ensures HeldBy(RoundRobin(nodes, total), failed) <= WorstLoss(total, |nodes|, |failed|)
  {
    HeldExactly(nodes, total, failed);
    FirstSize(nodes, total % |nodes|);
    SubsetSize(failed * Ahead(nodes, total), failed);
    SubsetSize(failed * Ahead(nodes, total), Ahead(nodes, total));
  }

  lemma LossIsReached(nodes: seq<NodeId>, total: nat, f: nat)
    requires nodes != [] && Distinct(nodes) && f <= |nodes|
    ensures |First(nodes, f)| == f && First(nodes, f) <= First(nodes, |nodes|)
    ensures HeldBy(RoundRobin(nodes, total), First(nodes, f)) == WorstLoss(total, |nodes|, f)
  {
    var r := total % |nodes|;
    HeldExactly(nodes, total, First(nodes, f));
    FirstSize(nodes, f);
    FirstSize(nodes, r);
    assert First(nodes, f) * First(nodes, r) == if f <= r then First(nodes, f) else First(nodes, r);
  }

  /** In particular, `f` times the rounded-up share bounds the loss. */
  lemma CeilingBoundsLoss(total: nat, n: nat, f: nat)
    requires n > 0
    ensures WorstLoss(total, n, f) <= Times(f, CeilDiv(total, n))
  {
    var q, r := total / n, total % n;
    DivMod(total, n);
    TimesAdd(1, q, n);
    CeilDivUnique(total, n, if r == 0 then q else q + 1);
    TimesOneMore(f, q);
  }

  /** The shards that are not on failed nodes are enough. */
  ghost predicate Survives(placements: Placements, dataShards: nat, failed: set<NodeId>) {
    dataShards + HeldBy(placements, failed) <= |placements|
  }

  /** Every set of `f` nodes may fail iff the worst such set holds at most m shards. */
  lemma AnyNodesMayFailIff(k: nat, m: nat, nodes: seq<NodeId>, f: nat)
    requires nodes != [] && Distinct(nodes) && f <= |nodes|
    ensures (forall failed: set<NodeId> :: failed <= First(nodes, |nodes|) && |failed| == f
                                           ==> Survives(RoundRobin(nodes, k + m), k, failed))
            <==> WorstLoss(k + m, |nodes|, f) <= m
  {
    hide First, HeldBy, RoundRobin, WorstLoss, Distinct;
    var placements := RoundRobin(nodes, k + m);
    AllPlaced(nodes, k + m);
    LossIsReached(nodes, k + m, f);
    assert Survives(placements, k, First(nodes, f)) <==> WorstLoss(k + m, |nodes|, f) <= m;
    forall failed: set<NodeId> | failed <= First(nodes, |nodes|) && |failed| == f
      ensures WorstLoss(k + m, |nodes|, f) <= m ==> Survives(placements, k, failed)
    {
      LossIsBounded(nodes, k + m, failed);
    }
  }

  lemma {:induction false} AllPlaced(nodes: seq<NodeId>, total: nat)
    requires nodes != []
    ensures |RoundRobin(nodes, total)| == total
    ensures forall i :: 0 <= i < total ==> RoundRobin(nodes, total)[i] == (i, nodes[i % |nodes|])
  {
    if total > 0 {
      AllPlaced(nodes, total - 1);
    }
  }

  // ---- rebuilding a shard ----

  type Shards = seq<(nat, seq<Byte>)>

  predicate InRange(present: Shards, total: nat) {
    forall i :: 0 <= i < |present| ==> present[i].0 < total
  }

  /** The shard vector with what is present filled in; of two shards with the same index the later wins. */
  function Filled(present: Shards, total: nat, size: nat): (r: seq<Option<seq<Byte>>>)
    requires InRange(present, total)
    ensures |r| == total
  {
    if present == [] then seq(total, _ => None) else
    var last := present[|present| - 1];
    Filled(present[..|present| - 1], total, size)[last.0 := Some(Resize(last.1, size))]
  }

  /** What rebuilding gives: nothing for parameters, indices or counts that are refused. */
  function Rebuilt(ps: Primitives, k: nat, m: nat, size: nat, present: Shards, target: nat): Option<seq<Byte>> {
    if !RsParams(k, m) || !InRange(present, k + m) || Present(Filled(present, k + m, size)) < k then None else
    var all := ps.reconstruct(k, m, Filled(present, k + m, size));
    if all.Some? && target < |all.value| then Some(all.value[target]) else None
  }

  /** `reconstruct_shard`; `None` is an error. */
  method ReconstructShard(ps: Primitives, k: nat, m: nat, size: nat, present: Shards, target: nat) returns (r: Option<seq<Byte>>)
    ensures r == Rebuilt(ps, k, m, size, present, target)
  {
    hide Resize;
    if !RsParams(k, m) {
      return None;
    }
    var shards: seq<Option<seq<Byte>>> := seq(k + m, _ => None);
    for i := 0 to |present|
      invariant InRange(present[..i], k + m) && shards == Filled(present[..i], k + m, size)
    {
      var (index, bytes) := present[i];
      assert present[..i + 1][..i] == present[..i];
      if index >= k + m {
        assert !InRange(present, k + m);
        return None;
      }
      shards := shards[index := Some(Resize(bytes, size))];
    }
    assert present[..|present|] == present;
    var available := 0;
    for i := 0 to |shards|
      invariant available == Present(shards[..i])
    {
      assert shards[..i + 1][..i] == shards[..i];
      available := available + if shards[i].Some? then 1 else 0;
    }
    assert shards[..|shards|] == shards;
    if available < k {
      return None;
    }
    var all := ps.reconstruct(k, m, shards);
    return if all.Some? && target < |all.value| then Some(all.value[target]) else None;
  }

  function Indices(present: Shards): set<nat> {
    set i | 0 <= i < |present| :: present[i].0
  }

  /** Every shard is, once padded, the one of this codeword. */
  ghost predicate Genuine(present: Shards, cw: seq<seq<Byte>>, size: nat) {
    forall i :: 0 <= i < |present| ==> present[i].0 < |cw| && Resize(present[i].1, size) == cw[present[i].0]
  }

  lemma {:induction false} FilledIsErasure(present: Shards, cw: seq<seq<Byte>>, size: nat)
    requires Genuine(present, cw, size)
    ensures InRange(present, |cw|) && ErasureOf(Filled(present, |cw|, size), cw)
    ensures forall i :: 0 <= i < |cw| ==> (Filled(present, |cw|, size)[i].Some? <==> i in Indices(present))
  {
    hide Resize;
    if present != [] {
      var before, last := present[..|present| - 1], present[|present| - 1];
      FilledIsErasure(before, cw, size);
      assert Indices(present) == Indices(before) + {last.0} by { assert present == before + [last]; }
    }
  }

  lemma {:induction false} PresentCounts(shards: seq<Option<seq<Byte>>>, indices: set<nat>)
    requires forall i: nat :: i in indices <==> i < |shards| && shards[i].Some?
    ensures Present(shards) == |indices|
  {
    if shards == [] {
      assert indices == {};
    } else {
      var n := |shards| - 1;
      PresentCounts(shards[..n], indices - {n});
    }
  }

  /** From genuine shards the original comes back, iff at least k different ones are there. */
  lemma GenuineRebuilds(ps: Primitives, k: nat, m: nat, cw: seq<seq<Byte>>, present: Shards, target: nat)
    requires Mds(ps) && Codeword(ps, k, m, cw) && target < k + m
    requires Genuine(present, cw, |cw[0]|)
    ensures Rebuilt(ps, k, m, |cw[0]|, present, target) == if |Indices(present)| >= k then Some(cw[target]) else None
  {
    hide Filled, Present, Indices, Resize, InRange, ErasureOf, Genuine;
    FilledIsErasure(present, cw, |cw[0]|);
    var shards := Filled(present, k + m, |cw[0]|);
    IndicesBelow(present, k + m);
    PresentCounts(shards, Indices(present));
  }

  lemma IndicesBelow(present: Shards, total: nat)
    requires InRange(present, total)
    ensures forall i :: i in Indices(present) ==> i < total
  {
  }

  /** The shards of a codeword whose nodes have not failed. */
  function Surviving(placements: Placements, cw: seq<seq<Byte>>, failed: set<NodeId>): Shards
  {
    if placements == [] then [] else
    var (index, node) := placements[|placements| - 1];
    Surviving(placements[..|placements| - 1], cw, failed) + if node in failed || index >= |cw| then [] else [(index, cw[index])]
  }

  ghost predicate InOrder(placements: Placements) {
    forall i :: 0 <= i < |placements| ==> placements[i].0 == i
  }

  lemma {:induction false} SurvivorsAreGenuine(placements: Placements, cw: seq<seq<Byte>>, failed: set<NodeId>, size: nat)
    requires forall i :: 0 <= i < |cw| ==> |cw[i]| == size
    ensures Genuine(Surviving(placements, cw, failed), cw, size)
  {
    hide Resize;
    if placements != [] {
      var (index, node) := placements[|placements| - 1];
      SurvivorsAreGenuine(placements[..|placements| - 1], cw, failed, size);
      if index < |cw| {
        FullSize(cw[index]);
      }
    }
  }

  lemma FullSize(bytes: seq<Byte>)
    ensures Resize(bytes, |bytes|) == bytes
  {
  }

  lemma {:induction false} SurvivorsAreMany(placements: Placements, cw: seq<seq<Byte>>, failed: set<NodeId>)
    requires InOrder(placements) && |placements| <= |cw|
    ensures var s := Surviving(placements, cw, failed);
            |Indices(s)| == |placements| - HeldBy(placements, failed) && InRange(s, |placements|)
  {
    hide Indices;
    if placements == [] {
      NoIndices();
    } else {
      var n := |placements| - 1;
      SurvivorsAreMany(placements[..n], cw, failed);
      var before := Surviving(placements[..n], cw, failed);
      if placements[n].1 in failed {
        assert Surviving(placements, cw, failed) == before;
      } else {
        IndicesBelow(before, n);
        OneMoreIndex(before, (n, cw[n]));
      }
    }
  }

  lemma NoIndices()
    ensures |Indices([])| == 0
  {
    assert Indices([]) == {};
  }

  lemma OneMoreIndex(present: Shards, shard: (nat, seq<Byte>))
    requires shard.0 !in Indices(present)
    ensures Indices(present + [shard]) == Indices(present) + {shard.0}
    ensures |Indices(present + [shard])| == |Indices(present)| + 1
  {
    var more := present + [shard];
    forall i | i in Indices(present) + {shard.0} ensures i in Indices(more) {
      if i == shard.0 {
        assert more[|present|].0 == i;
      } else {
        var j :| 0 <= j < |present| && present[j].0 == i;
        assert more[j].0 == i;
      }
    }
  }

  /** After any failures the placement tolerates, every shard can be rebuilt from those that are left. */
  lemma RebuildsAfterNodeFailures(ps: Primitives, k: nat, m: nat, cw: seq<seq<Byte>>, nodes: seq<NodeId>, failed: set<NodeId>, target: nat)
    requires Mds(ps) && Codeword(ps, k, m, cw) && target < k + m
    requires nodes != [] && Distinct(nodes) && failed <= First(nodes, |nodes|)
    requires WorstLoss(k + m, |nodes|, |failed|) <= m
    ensures Rebuilt(ps, k, m, |cw[0]|, Surviving(RoundRobin(nodes, k + m), cw, failed), target) == Some(cw[target])
  {
    AllPlaced(nodes, k + m);
    LossIsBounded(nodes, k + m, failed);
    SurvivorsAreGenuine(RoundRobin(nodes, k + m), cw, failed, |cw[0]|);
    SurvivorsAreMany(RoundRobin(nodes, k + m), cw, failed);
    hide Surviving, Indices, Genuine, Mds, RoundRobin;
    GenuineRebuilds(ps, k, m, cw, Surviving(RoundRobin(nodes, k + m), cw, failed), target);
  }

  // ---- altered data and the parity made from it ----

  /** Two codewords that agree on all data shards but one, and on one parity shard, are the same. */
  lemma OneParityShardDecides(ps: Primitives, k: nat, m: nat, a: seq<seq<Byte>>, b: seq<seq<Byte>>, d: nat, target: nat)
    requires Mds(ps) && Codeword(ps, k, m, a) && Codeword(ps, k, m, b) && d < k <= target < k + m
    requires (forall i :: 0 <= i < k && i != d ==> a[i] == b[i]) && a[target] == b[target]
    ensures a == b
  {
    var shared := seq(k + m, i requires 0 <= i < k + m => if (i < k && i != d) || i == target then Some(a[i]) else None);
    assert ErasureOf(shared, a) && ErasureOf(shared, b);
    hide Mds, Codeword, ErasureOf, Present;
    BelowSize(k);
    PresentCounts(shared, Below(k) - {d} + {target});
    Determined(ps, k, m, a, shared);
    Determined(ps, k, m, b, shared);
  }

  lemma Determined(ps: Primitives, k: nat, m: nat, cw: seq<seq<Byte>>, shards: seq<Option<seq<Byte>>>)
    requires Mds(ps) && Codeword(ps, k, m, cw) && ErasureOf(shards, cw) && Present(shards) >= k
    ensures ps.reconstruct(k, m, shards) == Some(cw)
  {
    hide Codeword, ErasureOf, Present;
  }

  function Below(n: nat): (r: set<nat>)
    ensures forall i: nat :: i in r <==> i < n
  {
    if n == 0 then {} else Below(n - 1) + {n - 1}
  }

  lemma {:induction false} BelowSize(n: nat)
    ensures |Below(n)| == n
  {
    if n > 0 {
      BelowSize(n - 1);
    }
  }

  /** The data shards, in order. */
  function DataShards(data: seq<seq<Byte>>): Shards {
    seq(|data|, i requires 0 <= i < |data| => (i, data[i]))
  }

  lemma DataShardsAre(data: seq<seq<Byte>>, all: seq<seq<Byte>>, size: nat)
    requires |data| <= |all| && all[..|data|] == data && forall i :: 0 <= i < |data| ==> |data[i]| == size
    ensures Genuine(DataShards(data), all, size) && |Indices(DataShards(data))| == |data|
  {
    var present := DataShards(data);
    forall i | 0 <= i < |present| ensures present[i].0 < |all| && Resize(present[i].1, size) == all[present[i].0] {
      FullSize(data[i]);
      assert all[..|data|][i] == all[i];
    }
    BelowSize(|data|);
    forall i | i in Below(|data|) ensures i in Indices(present) {
      assert present[i].0 == i;
    }
    assert Indices(present) == Below(|data|);
  }

  lemma EncodedIsCodeword(ps: Primitives, k: nat, m: nat, data: seq<seq<Byte>>, size: nat)
    requires EncodeShape(ps) && RsParams(k, m) && |data| == k && size > 0 && forall i :: 0 <= i < k ==> |data[i]| == size
    ensures Codeword(ps, k, m, data + ps.encode(k, m, data))
  {
    var all := data + ps.encode(k, m, data);
    assert all[..k] == data && all[k..] == ps.encode(k, m, data);
  }

  /** A parity shard made from data shards of which at most one is altered is the original iff none is. */
  lemma ParityFromDataIff(ps: Primitives, k: nat, m: nat, cw: seq<seq<Byte>>, data: seq<seq<Byte>>, d: nat, target: nat)
    requires Mds(ps) && EncodeShape(ps) && Codeword(ps, k, m, cw) && d < k <= target < k + m
    requires |data| == k && (forall i :: 0 <= i < k ==> |data[i]| == |cw[0]|)
    requires forall i :: 0 <= i < k && i != d ==> data[i] == cw[i]
    ensures Rebuilt(ps, k, m, |cw[0]|, DataShards(data), target) == Some(cw[target]) <==> data == cw[..k]
    ensures Rebuilt(ps, k, m, |cw[0]|, DataShards(data), target) == Some((data + ps.encode(k, m, data))[target])
  {
    var other := data + ps.encode(k, m, data);
    EncodedIsCodeword(ps, k, m, data, |cw[0]|);
    assert other[..k] == data && |other[0]| == |cw[0]| && |other| == k + m;
    DataShardsAre(data, other, |cw[0]|);
    GenuineRebuilds(ps, k, m, other, DataShards(data), target);
    assert RsParams(k, m) && |cw| == k + m && ps.encode(k, m, cw[..k]) == cw[k..];
    hide Mds, Codeword, EncodeShape, Rebuilt, Indices, Genuine;
    if other[target] == cw[target] {
      OneParityShardDecides(ps, k, m, other, cw, d, target);
    }
    if data == cw[..k] {
      assert other == cw;
    }
  }
}
