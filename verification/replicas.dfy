/** The demo's replica bookkeeping: four replicas with a view, a sequence
    number, primary and faulty flags and a key-value store; the primary of a
    view; and the counts behind the prepare and commit certificates and the
    health report. */
module Replicas {
  import opened Base
  import Layout
  import KvStore

  /** N, the number of replicas. */
  const NumReplicas: nat := 4
  /** f, the number of Byzantine replicas tolerated. */
  const FaultyThreshold: nat := 1
  /** 2f+1, the size of a prepare or commit certificate. */
  const Quorum: nat := 2 * FaultyThreshold + 1

  /** The demo and the memory layout agree on N and f. */
  lemma ThresholdsAgree()
    ensures NumReplicas == Layout.MaxReplicas && FaultyThreshold == Layout.MaxFaulty
    ensures 3 * FaultyThreshold + 1 == NumReplicas
  {
  }

  datatype Replica = Replica(
    id: int,
    view: int,
    seqNum: int,
    isPrimary: bool,
    isFaulty: bool,
    store: KvStore.Store)

  /** The replica array and the global sequence counter. */
  datatype System = System(replicas: seq<Replica>, currentSeq: int)

  /** The primary of view `view`: `view % N` with C's `%`, whose remainder
      truncates toward zero and so takes the sign of the dividend. A negative
      view gives a non-positive result. */
  function PrimaryForView(view: int): (p: int)
    ensures view >= 0 ==> 0 <= p < NumReplicas && p == view % NumReplicas
    ensures view < 0 ==> p <= 0 && p + NumReplicas > 0
    ensures (view - p) % NumReplicas == 0
  {
    if view >= 0 then view % NumReplicas
    else
      var q, r := (-view) / NumReplicas, (-view) % NumReplicas;
      assert view + r == NumReplicas * -q;
      MultipleRem(-q);
      -r
  }

  lemma MultipleRem(k: int)
    ensures (NumReplicas * k) % NumReplicas == 0
  {
  }

  /** The primary rotates round-robin through the replicas as the view advances. */
  lemma PrimaryRotates(view: nat)
    ensures PrimaryForView(view + 1) == (PrimaryForView(view) + 1) % NumReplicas
    ensures PrimaryForView(view + NumReplicas) == PrimaryForView(view)
  {
  }

  /** Every replica is the primary of some view within any N consecutive views. */
  lemma EveryReplicaLeads(id: nat, start: nat)
    requires id < NumReplicas
    ensures exists v :: start <= v < start + NumReplicas && PrimaryForView(v) == id
  {
    var v := start + (id - start % NumReplicas + NumReplicas) % NumReplicas;
    assert PrimaryForView(v) == id;
  }

  /** All replicas in view 0 with sequence number 0, none faulty, stores
      cleared; the primary flag is set on the primary of view 0. */
  function InitializeSystem(): (sys: System)
    ensures |sys.replicas| == NumReplicas && sys.currentSeq == 0
    ensures forall i :: 0 <= i < NumReplicas ==>
      var r := sys.replicas[i];
      && r.id == i && r.view == 0 && r.seqNum == 0 && !r.isFaulty
      && r.store == KvStore.EmptyStore()
      && (r.isPrimary <==> i == 0)
  {
    System(
      seq(NumReplicas, i => Replica(i, 0, 0, i == PrimaryForView(0), false, KvStore.EmptyStore())),
      0)
  }

  /** Sets one replica's faulty flag; an id outside [0, N) is ignored. */
  function SetReplicaFaulty(sys: System, id: int, faulty: bool): (r: System)
    requires |sys.replicas| == NumReplicas
    ensures |r.replicas| == NumReplicas && r.currentSeq == sys.currentSeq
    ensures !(0 <= id < NumReplicas) ==> r == sys
    ensures 0 <= id < NumReplicas ==> r.replicas[id].isFaulty == faulty
    ensures forall i :: 0 <= i < NumReplicas ==>
      r.replicas[i] == (if i == id then sys.replicas[i].(isFaulty := faulty) else sys.replicas[i])
  {
    if 0 <= id < NumReplicas
    then sys.(replicas := sys.replicas[id := sys.replicas[id].(isFaulty := faulty)])
    else sys
  }

  /** The FAULT command toggles the flag; toggling twice restores the system. */
  lemma ToggleTwiceRestores(sys: System, id: int)
    requires |sys.replicas| == NumReplicas
    ensures 0 <= id < NumReplicas ==>
      var once := SetReplicaFaulty(sys, id, !sys.replicas[id].isFaulty);
      SetReplicaFaulty(once, id, !once.replicas[id].isFaulty) == sys
  {
    if 0 <= id < NumReplicas {
      var once := SetReplicaFaulty(sys, id, !sys.replicas[id].isFaulty);
      var twice := SetReplicaFaulty(once, id, !once.replicas[id].isFaulty);
      assert twice.replicas == sys.replicas;
    }
  }

  /** Number of replicas not marked faulty. */
  function CountNonFaulty(rs: seq<Replica>): nat
  {
    if |rs| == 0 then 0
    else CountNonFaulty(rs[..|rs| - 1]) + (if rs[|rs| - 1].isFaulty then 0 else 1)
  }

  /** Number of replicas marked faulty. */
  function CountFaulty(rs: seq<Replica>): nat
  {
    if |rs| == 0 then 0
    else CountFaulty(rs[..|rs| - 1]) + (if rs[|rs| - 1].isFaulty then 1 else 0)
  }

  /** Every replica is counted exactly once, as faulty or as not. */
  lemma {:induction false} CountsPartition(rs: seq<Replica>)
    ensures CountNonFaulty(rs) + CountFaulty(rs) == |rs|
    decreases |rs|
  {
    if |rs| > 0 {
      CountsPartition(rs[..|rs| - 1]);
    }
  }

  /** No faulty replica means every replica counts, and conversely. */
  lemma {:induction false} NoneFaulty(rs: seq<Replica>)
    ensures CountFaulty(rs) == 0 <==> forall i :: 0 <= i < |rs| ==> !rs[i].isFaulty
    decreases |rs|
  {
    if |rs| > 0 {
      var init := rs[..|rs| - 1];
      NoneFaulty(init);
      assert forall i :: 0 <= i < |init| ==> init[i] == rs[i];
    }
  }

  /** Changing one replica's flag moves the non-faulty count by that change alone. */
  lemma {:induction false} CountNonFaultyUpdate(rs: seq<Replica>, i: nat, faulty: bool)
    requires i < |rs|
    ensures CountNonFaulty(rs[i := rs[i].(isFaulty := faulty)]) ==
      CountNonFaulty(rs) - (if rs[i].isFaulty then 0 else 1) + (if faulty then 0 else 1)
    decreases |rs|
  {
    var last := |rs| - 1;
    var rs' := rs[i := rs[i].(isFaulty := faulty)];
    assert rs'[..last] == if i == last then rs[..last] else rs[..last][i := rs[i].(isFaulty := faulty)];
    if i < last {
      CountNonFaultyUpdate(rs[..last], i, faulty);
    }
  }

  /** Repairing a replica never loses a vote; marking one faulty never gains one. */
  lemma SetFaultyMonotone(sys: System, id: int, faulty: bool)
    requires |sys.replicas| == NumReplicas
    ensures !faulty ==> CountNonFaulty(SetReplicaFaulty(sys, id, faulty).replicas) >= CountNonFaulty(sys.replicas)
    ensures faulty ==> CountNonFaulty(SetReplicaFaulty(sys, id, faulty).replicas) <= CountNonFaulty(sys.replicas)
  {
    if 0 <= id < NumReplicas {
      CountNonFaultyUpdate(sys.replicas, id, faulty);
      assert SetReplicaFaulty(sys, id, faulty).replicas
        == sys.replicas[id := sys.replicas[id].(isFaulty := faulty)];
    }
  }

  /** A prepare or commit certificate forms: at least 2f+1 valid votes. */
  predicate QuorumReached(rs: seq<Replica>)
  {
    CountNonFaulty(rs) >= Quorum
  }

  /** The health report: at most f faulty replicas. */
  predicate Healthy(rs: seq<Replica>)
  {
    CountFaulty(rs) <= FaultyThreshold
  }

  /** With N = 3f+1 replicas, a certificate forms exactly when the system is healthy. */
  lemma QuorumIffHealthy(rs: seq<Replica>)
    requires |rs| == NumReplicas
    ensures QuorumReached(rs) <==> Healthy(rs)
  {
    CountsPartition(rs);
  }

  /** The vote count of the prepare and commit phases: one vote per replica not
      marked faulty, and whether that makes a certificate. */
  method CountValidVotes(rs: seq<Replica>) returns (votes: nat, certificate: bool)
    ensures votes == CountNonFaulty(rs)
    ensures certificate <==> QuorumReached(rs)
  {
    votes := 0;
    var i := 0;
    while i < |rs|
      invariant 0 <= i <= |rs|
      invariant votes == CountNonFaulty(rs[..i])
    {
      assert rs[..i + 1][..i] == rs[..i];
      if !rs[i].isFaulty {
        votes := votes + 1;
      }
      i := i + 1;
    }
    assert rs[..|rs|] == rs;
    certificate := votes >= Quorum;
  }

  /** The prepare phase: valid PREPARE messages and whether a prepare certificate forms. */
  method PreparePhase(sys: System) returns (prepares: nat, certificate: bool)
    requires |sys.replicas| == NumReplicas
    ensures prepares == CountNonFaulty(sys.replicas)
    ensures certificate <==> Healthy(sys.replicas)
  {
    prepares, certificate := CountValidVotes(sys.replicas);
    QuorumIffHealthy(sys.replicas);
  }

  /** The commit phase counts COMMIT messages the same way. */
  method CommitPhase(sys: System) returns (commits: nat, certificate: bool)
    requires |sys.replicas| == NumReplicas
    ensures commits == CountNonFaulty(sys.replicas)
    ensures certificate <==> Healthy(sys.replicas)
  {
    commits, certificate := CountValidVotes(sys.replicas);
    QuorumIffHealthy(sys.replicas);
  }

  /** The fault status of the status screen: the faulty count and whether the
      system can still tolerate it. */
  method FaultStatus(sys: System) returns (faultyCount: nat, healthy: bool)
    requires |sys.replicas| == NumReplicas
    ensures faultyCount + CountNonFaulty(sys.replicas) == NumReplicas
    ensures healthy <==> QuorumReached(sys.replicas)
  {
    var rs := sys.replicas;
    faultyCount := 0;
    var i := 0;
    while i < NumReplicas
      invariant 0 <= i <= NumReplicas
      invariant faultyCount == CountFaulty(rs[..i])
    {
      assert rs[..i + 1][..i] == rs[..i];
      if rs[i].isFaulty {
        faultyCount := faultyCount + 1;
      }
      i := i + 1;
    }
    assert rs[..NumReplicas] == rs;
    healthy := faultyCount <= FaultyThreshold;
    CountsPartition(rs);
    QuorumIffHealthy(rs);
  }

  /** A freshly initialised system is healthy and every phase reaches its certificate. */
  lemma InitialSystemHealthy()
    ensures CountFaulty(InitializeSystem().replicas) == 0
    ensures Healthy(InitializeSystem().replicas) && QuorumReached(InitializeSystem().replicas)
  {
    var rs := InitializeSystem().replicas;
    NoneFaulty(rs);
    QuorumIffHealthy(rs);
  }
}
