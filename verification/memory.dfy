/** The memory layout engine: the four static regions as one state record,
    and its entry points written as the linear scans they are, each proved to
    compute what the Scratch, Window and Checkpoints modules define. */
module MemoryLayout {
  import opened Base
  import opened Layout
  import Scratch
  import Window
  import Checkpoints

  /** The static regions and the persistence flag. */
  datatype Memory = Memory(
    agreement: AgreementRegion,
    checkpoint: CheckpointRegion,
    event: EventRegion,
    scratch: ScratchRegion,
    usingNvm: bool)

  /** Every array has its compile-time size. */
  ghost predicate WellFormed(m: Memory)
  {
    && WellFormedAgreement(m.agreement)
    && WellFormedCheckpoint(m.checkpoint)
    && WellFormedEvent(m.event)
    && WellFormedScratch(m.scratch)
  }

  /** Zeroes all four regions; the persistence flag is not a region and is kept. */
  function MemoryInit(m: Memory): (r: Memory)
    ensures WellFormed(r)
    ensures r.usingNvm == m.usingNvm
    ensures forall i :: 0 <= i < |r.agreement.slots| ==> r.agreement.slots[i] == FreshSlot(0)
    ensures forall i :: 0 <= i < |r.checkpoint.certificates| ==>
      var c := r.checkpoint.certificates[i];
      c.seqNum == 0 && !c.valid && c.checkpointCount == 0
    ensures forall i :: 0 <= i < |r.scratch.bufferUsed| ==> r.scratch.bufferUsed[i] == 0
  {
    Memory(
      AgreementRegion(Repeat(FreshSlot(0), WindowSize)),
      CheckpointRegion(Repeat(FreshCert(0), CheckpointCerts), ZeroMsgs(MaxReplicas)),
      EventRegion(ZeroMsgs(MaxClients), ZeroMsgs(MaxClients), ZeroMsgs(MaxReplicas), ZeroMsgs(MaxReplicas)),
      ScratchRegion(ZeroMsgs(MaxReplicas), Repeat(0, MaxReplicas)),
      m.usingNvm)
  }

  /** Records the persistence choice; no region moves or changes. */
  function SetNvm(m: Memory, useNvm: bool): (r: Memory)
    ensures r.usingNvm == useNvm
    ensures r.agreement == m.agreement && r.checkpoint == m.checkpoint
    ensures r.event == m.event && r.scratch == m.scratch
  {
    m.(usingNvm := useNvm)
  }

  /** What `tinybft_get_region` points at. */
  datatype RegionRef =
    | AgreementRef(agreement: AgreementRegion)
    | CheckpointRef(checkpoint: CheckpointRegion)
    | EventRef(event: EventRegion)
    | ScratchRef(scratch: ScratchRegion)

  function RefTag(r: RegionRef): RegionTag
  {
    match r
    case AgreementRef(_) => AgreementTag
    case CheckpointRef(_) => CheckpointTag
    case EventRef(_) => EventTag
    case ScratchRef(_) => ScratchTag
  }

  /** Region lookup by enum value: each of the four tags reaches its own
      region, and every other value gives NULL. */
  function GetRegion(m: Memory, region: int): (r: Option<RegionRef>)
    ensures r.Some? <==> 0 <= region < RegionCount
    ensures r.Some? ==> TagCode(RefTag(r.value)) == region
    ensures r.Some? && r.value.AgreementRef? ==> r.value.agreement == m.agreement
    ensures r.Some? && r.value.CheckpointRef? ==> r.value.checkpoint == m.checkpoint
    ensures r.Some? && r.value.EventRef? ==> r.value.event == m.event
    ensures r.Some? && r.value.ScratchRef? ==> r.value.scratch == m.scratch
  {
    match TagOf(region)
    case None => None
    case Some(AgreementTag) => Some(AgreementRef(m.agreement))
    case Some(CheckpointTag) => Some(CheckpointRef(m.checkpoint))
    case Some(EventTag) => Some(EventRef(m.event))
    case Some(ScratchTag) => Some(ScratchRef(m.scratch))
  }

  /** Distinct tags reach distinct regions. */
  lemma GetRegionDistinct(m: Memory, a: int, b: int)
    requires GetRegion(m, a).Some? && GetRegion(m, b).Some? && a != b
    ensures GetRegion(m, a) != GetRegion(m, b)
  {
  }

  /** First-fit scratch allocation; only the used-length table changes. */
  method AllocFromScratch(m: Memory, size: u32) returns (handle: Option<nat>, m': Memory)
    requires WellFormed(m)
    ensures Scratch.Grant(handle, m'.scratch.bufferUsed) == Scratch.Alloc(m.scratch.bufferUsed, size)
    ensures m' == m.(scratch := m.scratch.(bufferUsed := m'.scratch.bufferUsed))
    ensures WellFormed(m')
  {
    handle, m' := None, m;
    if size > MaxMsgSize {
      return;
    }
    var used := m.scratch.bufferUsed;
    var i := 0;
    while i < MaxReplicas
      invariant 0 <= i <= MaxReplicas
      invariant forall j :: 0 <= j < i ==> used[j] != 0
    {
      if used[i] == 0 {
        handle := Some(i);
        m' := m.(scratch := m.scratch.(bufferUsed := used[i := size]));
        return;
      }
      i := i + 1;
    }
  }

  /** Releases a scratch buffer found by identity. The destination region and
      the size take no part: no bytes are copied, and a held buffer is always
      freed; an unknown or already free buffer is left alone. */
  method MoveToRegion(m: Memory, dstRegion: int, scratchPtr: Option<nat>, size: u32) returns (m': Memory)
    requires WellFormed(m)
    ensures m'.scratch.bufferUsed == Scratch.Release(m.scratch.bufferUsed, scratchPtr)
    ensures m' == m.(scratch := m.scratch.(bufferUsed := m'.scratch.bufferUsed))
    ensures WellFormed(m')
  {
    var used := m.scratch.bufferUsed;
    var bufferIdx := 0;
    var found := false;
    var i := 0;
    while i < MaxReplicas
      invariant 0 <= i <= MaxReplicas
      invariant !found ==> forall j :: 0 <= j < i ==> scratchPtr != Some(j)
      invariant found ==> bufferIdx < MaxReplicas && scratchPtr == Some(bufferIdx)
    {
      if scratchPtr == Some(i) {
        bufferIdx := i;
        found := true;
        break;
      }
      i := i + 1;
    }
    if !found || used[bufferIdx] == 0 {
      return m;
    }
    m' := m.(scratch := m.scratch.(bufferUsed := used[bufferIdx := 0]));
  }

  /** Linear search of the agreement window. */
  method FindAgreementSlot(m: Memory, seqNum: u32) returns (slot: Option<nat>)
    requires WellFormed(m)
    ensures slot == Window.Find(m.agreement.slots, seqNum)
  {
    var slots := m.agreement.slots;
    var i := 0;
    while i < WindowSize
      invariant 0 <= i <= WindowSize
      invariant forall j :: 0 <= j < i ==> slots[j].seqNum != seqNum
    {
      if slots[i].seqNum == seqNum {
        return Some(i);
      }
      i := i + 1;
    }
    return None;
  }

  /** The eviction scan: strict comparison starting from UINT32_MAX, so the
      lowest index wins ties and index 0 is kept when every slot holds UINT32_MAX. */
  method OldestSlot(slots: seq<AgreementSlot>) returns (oldestIdx: nat)
    requires |slots| == WindowSize
    ensures oldestIdx == Window.Oldest(slots)
  {
    ghost var seqs := Window.Seqs(slots);
    oldestIdx := 0;
    var oldestSeq: u32 := UINT32_MAX;
    var i := 0;
    while i < WindowSize
      invariant 0 <= i <= WindowSize
      invariant MinScanned(seqs, i, oldestIdx, oldestSeq)
      invariant MinScan(seqs, i, oldestIdx, oldestSeq) == ArgMinFirst(seqs)
    {
      if slots[i].seqNum < oldestSeq {
        oldestSeq := slots[i].seqNum;
        oldestIdx := i;
      }
      i := i + 1;
    }
  }

  /** Evicts the slot with the smallest sequence number, zeroes it and stamps
      `seqNum`; no other region changes. */
  method InitAgreementSlot(m: Memory, seqNum: u32) returns (slot: nat, m': Memory)
    requires WellFormed(m)
    ensures Window.Admitted(slot, m'.agreement.slots) == Window.Init(m.agreement.slots, seqNum)
    ensures m' == m.(agreement := AgreementRegion(m'.agreement.slots))
    ensures WellFormed(m')
  {
    var slots := m.agreement.slots;
    slot := OldestSlot(slots);
    m' := m.(agreement := AgreementRegion(slots[slot := FreshSlot(seqNum)]));
  }

  /** The reuse scan over the certificates: strict comparison starting from
      UINT32_MAX, skipping valid certificates, index 0 when nothing qualifies. */
  method ReusableCert(certs: seq<CheckpointCert>) returns (oldestIdx: nat)
    requires |certs| == CheckpointCerts
    ensures oldestIdx == Checkpoints.Victim(certs)
  {
    ghost var keys := Checkpoints.ReuseKeys(certs);
    var numCerts := WindowSize / CheckpointInterval + 1;
    oldestIdx := 0;
    var oldestSeq: u32 := UINT32_MAX;
    var i := 0;
    while i < numCerts
      invariant 0 <= i <= numCerts
      invariant MinScanned(keys, i, oldestIdx, oldestSeq)
      invariant MinScan(keys, i, oldestIdx, oldestSeq) == ArgMinFirst(keys)
    {
      if certs[i].seqNum < oldestSeq && !certs[i].valid {
        oldestSeq := certs[i].seqNum;
        oldestIdx := i;
      }
      i := i + 1;
    }
  }

  /** Hands back the certificate for `seqNum` untouched, or else reuses the
      invalid certificate with the smallest sequence number (index 0 when
      there is none), zeroed and stamped with `seqNum`. Only the first
      W/K+1 entries are ever looked at. */
  method FindCheckpointCert(m: Memory, seqNum: u32) returns (cert: nat, m': Memory)
    requires WellFormed(m)
    ensures Checkpoints.Located(cert, m'.checkpoint.certificates)
      == Checkpoints.FindOrInit(m.checkpoint.certificates, seqNum)
    ensures m' == m.(checkpoint := m.checkpoint.(certificates := m'.checkpoint.certificates))
    ensures WellFormed(m')
  {
    var certs := m.checkpoint.certificates;
    var numCerts := WindowSize / CheckpointInterval + 1;
    var i := 0;
    while i < numCerts
      invariant 0 <= i <= numCerts
      invariant forall j :: 0 <= j < i ==> certs[j].seqNum != seqNum
    {
      if certs[i].seqNum == seqNum {
        return i, m;
      }
      i := i + 1;
    }
    cert := ReusableCert(certs);
    m' := m.(checkpoint := m.checkpoint.(certificates := certs[cert := FreshCert(seqNum)]));
  }

  /** Sequence number 0 doubles as "empty": right after initialisation a search
      for 0 hits slot 0, and a checkpoint lookup for 0 hands back certificate 0
      without resetting it. */
  lemma ZeroFoundAfterInit(m: Memory)
    ensures Window.Find(MemoryInit(m).agreement.slots, 0) == Some(0)
    ensures var certs := MemoryInit(m).checkpoint.certificates;
      Checkpoints.FindOrInit(certs, 0) == Checkpoints.Located(0, certs)
  {
    var r := MemoryInit(m);
    assert r.agreement.slots[0].seqNum == 0;
    assert r.checkpoint.certificates[0].seqNum == 0;
  }

  /** After initialisation the window is empty in the sense the FIFO lemmas
      need, and no checkpoint certificate is valid. */
  lemma InitStartsEmpty(m: Memory)
    ensures Window.AllEmpty(MemoryInit(m).agreement.slots)
    ensures Checkpoints.AllInvalid(MemoryInit(m).checkpoint.certificates)
    ensures Scratch.UsedCount(MemoryInit(m).scratch.bufferUsed) == 0
  {
    Scratch.UsedCountZero(MemoryInit(m).scratch.bufferUsed);
  }

  /** From a freshly initialised window, admitting 1, 2, 3, 4 and then 5
      evicts 1 and leaves 2, 3, 4 and 5 resident. */
  lemma FifthAdmissionEvictsFirst(m: Memory)
    ensures multiset(Window.Seqs(Window.InitAll(MemoryInit(m).agreement.slots, [1, 2, 3, 4, 5])))
      == multiset{2, 3, 4, 5}
  {
    var w := MemoryInit(m).agreement.slots;
    var ss: seq<u32> := [1, 2, 3, 4, 5];
    InitStartsEmpty(m);
    Window.WindowKeepsLastW(w, ss);
    assert ss[|ss| - |w|..] == [2, 3, 4, 5];
  }
}
