/** Configuration constants, region and message tags, and the shapes of the
    fixed-size certificate, slot and region records of the memory layout. */
module Layout {
  import opened Base

  /** Largest number of Byzantine replicas that `n` replicas tolerate: the
      largest `f` with `3f + 1 <= n`. */
  function MaxFaultyFor(n: nat): (f: nat)
    requires n >= 1
    ensures 3 * f + 1 <= n
    ensures n < 3 * (f + 1) + 1
  {
    (n - 1) / 3
  }

  /** N, the number of replicas. */
  const MaxReplicas: nat := 4
  /** f, derived from N. */
  const MaxFaulty: nat := MaxFaultyFor(MaxReplicas)
  /** W, the number of agreement slots. */
  const WindowSize: nat := 4
  /** K, the checkpoint interval. */
  const CheckpointInterval: nat := 2
  const MaxClients: nat := 4
  const MaxMsgSize: nat := 1024
  const MaxStateSize: nat := 16384
  const BlockSize: nat := 1024
  /** Number of checkpoint certificates held at once. */
  const CheckpointCerts: nat := WindowSize / CheckpointInterval + 1

  /** The default build: four replicas tolerate one fault, and three checkpoint
      certificates cover a window of four with interval two. */
  lemma DefaultConfiguration()
    ensures MaxReplicas == 4 && MaxFaulty == 1
    ensures 3 * MaxFaulty + 1 <= MaxReplicas
    ensures CheckpointCerts == 3
  {
  }

  /** The four memory regions, with `MEMORY_REGION_COUNT` as the sentinel. */
  datatype RegionTag = AgreementTag | CheckpointTag | EventTag | ScratchTag

  const RegionCount: nat := 4

  function TagCode(t: RegionTag): nat
  {
    match t
    case AgreementTag => 0
    case CheckpointTag => 1
    case EventTag => 2
    case ScratchTag => 3
  }

  /** Reads an enum value; exactly the codes 0..3 name a region, each a different one. */
  function TagOf(code: int): (t: Option<RegionTag>)
    ensures t.Some? <==> 0 <= code < RegionCount
    ensures t.Some? ==> TagCode(t.value) == code
  {
    if code == 0 then Some(AgreementTag)
    else if code == 1 then Some(CheckpointTag)
    else if code == 2 then Some(EventTag)
    else if code == 3 then Some(ScratchTag)
    else None
  }

  /** Reading back the code of a region gives that region. */
  lemma TagRoundTrip(r: RegionTag)
    ensures TagOf(TagCode(r)) == Some(r)
  {
  }

  /** The ten protocol message kinds. */
  datatype MsgType =
    | Request | Reply | PrePrepare | Prepare | Commit | Checkpoint
    | ViewChange | NewView | StateTransferReq | StateTransferResp

  const MsgTypeCount: nat := 10

  function MsgCode(t: MsgType): nat
  {
    match t
    case Request => 0
    case Reply => 1
    case PrePrepare => 2
    case Prepare => 3
    case Commit => 4
    case Checkpoint => 5
    case ViewChange => 6
    case NewView => 7
    case StateTransferReq => 8
    case StateTransferResp => 9
  }

  /** Exactly the codes 0..9 name a message kind, each a different one. */
  function MsgTypeOf(code: int): (t: Option<MsgType>)
    ensures t.Some? <==> 0 <= code < MsgTypeCount
    ensures t.Some? ==> MsgCode(t.value) == code
  {
    if code == 0 then Some(Request)
    else if code == 1 then Some(Reply)
    else if code == 2 then Some(PrePrepare)
    else if code == 3 then Some(Prepare)
    else if code == 4 then Some(Commit)
    else if code == 5 then Some(Checkpoint)
    else if code == 6 then Some(ViewChange)
    else if code == 7 then Some(NewView)
    else if code == 8 then Some(StateTransferReq)
    else if code == 9 then Some(StateTransferResp)
    else None
  }

  /** Reading back the code of a message kind gives that kind. */
  lemma MsgTypeRoundTrip(m: MsgType)
    ensures MsgTypeOf(MsgCode(m)) == Some(m)
  {
  }

  /** Message header; the payload bytes that follow it are not modelled. */
  datatype MsgHeader = MsgHeader(
    msgType: MsgType,
    senderId: u32,
    receiverId: u32,
    view: u32,
    seqNum: u32,
    dataLen: u32)

  datatype PrepareCert = PrepareCert(
    view: u32,
    seqNum: u32,
    valid: bool,
    prePrepare: Bytes,
    prepares: seq<Bytes>,
    prepareCount: u32)

  datatype CommitCert = CommitCert(
    view: u32,
    seqNum: u32,
    valid: bool,
    commits: seq<Bytes>,
    commitCount: u32)

  datatype CheckpointCert = CheckpointCert(
    seqNum: u32,
    valid: bool,
    checkpoints: seq<Bytes>,
    checkpointCount: u32)

  /** One entry of the agreement window. */
  datatype AgreementSlot = AgreementSlot(
    seqNum: u32,
    prepareCert: PrepareCert,
    commitCert: CommitCert)

  datatype AgreementRegion = AgreementRegion(slots: seq<AgreementSlot>)

  datatype CheckpointRegion = CheckpointRegion(
    certificates: seq<CheckpointCert>,
    checkpointMsgs: seq<Bytes>)

  datatype EventRegion = EventRegion(
    clientRequests: seq<Bytes>,
    clientReplies: seq<Bytes>,
    viewChangeMsgs: seq<Bytes>,
    newViewMsgs: seq<Bytes>)

  /** The scratch pool: message buffers and, in parallel, their used lengths (0 = free). */
  datatype ScratchRegion = ScratchRegion(
    buffers: seq<Bytes>,
    bufferUsed: seq<u32>)

  /** `count` message buffers of `MaxMsgSize` bytes. */
  ghost predicate MsgArray(a: seq<Bytes>, count: nat)
  {
    |a| == count && forall i :: 0 <= i < |a| ==> |a[i]| == MaxMsgSize
  }

  /** A slot pairs a prepare certificate and a commit certificate, each with one vote buffer per replica. */
  ghost predicate WellFormedSlot(s: AgreementSlot)
  {
    && |s.prepareCert.prePrepare| == MaxMsgSize
    && MsgArray(s.prepareCert.prepares, MaxReplicas)
    && MsgArray(s.commitCert.commits, MaxReplicas)
  }

  ghost predicate WellFormedCert(c: CheckpointCert)
  {
    MsgArray(c.checkpoints, MaxReplicas)
  }

  ghost predicate WellFormedAgreement(a: AgreementRegion)
  {
    |a.slots| == WindowSize && forall i :: 0 <= i < |a.slots| ==> WellFormedSlot(a.slots[i])
  }

  ghost predicate WellFormedCheckpoint(c: CheckpointRegion)
  {
    && |c.certificates| == CheckpointCerts
    && (forall i :: 0 <= i < |c.certificates| ==> WellFormedCert(c.certificates[i]))
    && MsgArray(c.checkpointMsgs, MaxReplicas)
  }

  ghost predicate WellFormedEvent(e: EventRegion)
  {
    && MsgArray(e.clientRequests, MaxClients)
    && MsgArray(e.clientReplies, MaxClients)
    && MsgArray(e.viewChangeMsgs, MaxReplicas)
    && MsgArray(e.newViewMsgs, MaxReplicas)
  }

  ghost predicate WellFormedScratch(s: ScratchRegion)
  {
    MsgArray(s.buffers, MaxReplicas) && |s.bufferUsed| == MaxReplicas
  }

  /** `count` zeroed message buffers. */
  function ZeroMsgs(count: nat): (a: seq<Bytes>)
    ensures MsgArray(a, count)
  {
    Repeat(Zeros(MaxMsgSize), count)
  }

  /** A slot after `memset(slot, 0, ...)` with its sequence number stamped. */
  function FreshSlot(seqNum: u32): (s: AgreementSlot)
    ensures WellFormedSlot(s)
    ensures s.seqNum == seqNum
  {
    AgreementSlot(
      seqNum,
      PrepareCert(0, 0, false, Zeros(MaxMsgSize), ZeroMsgs(MaxReplicas), 0),
      CommitCert(0, 0, false, ZeroMsgs(MaxReplicas), 0))
  }

  /** A checkpoint certificate after `memset(cert, 0, ...)` with its sequence number stamped. */
  function FreshCert(seqNum: u32): (c: CheckpointCert)
    ensures WellFormedCert(c)
    ensures c.seqNum == seqNum && !c.valid && c.checkpointCount == 0
  {
    CheckpointCert(seqNum, false, ZeroMsgs(MaxReplicas), 0)
  }
}
