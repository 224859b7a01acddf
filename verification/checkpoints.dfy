/** The checkpoint store: a fixed array of W/K+1 certificates, searched by
    sequence number and otherwise refilled by reusing an invalid certificate. */
module Checkpoints {
  import opened Base
  import opened Layout

  type Certs = seq<CheckpointCert>

  /** Outcome of find-or-init: the certificate handed back and the store afterwards. */
  datatype Located = Located(index: nat, certs: Certs)

  function CertSeqs(c: Certs): seq<u32>
  {
    Project(c, (x: CheckpointCert) => x.seqNum)
  }

  /** Lowest-index certificate for `seqNum`, or None. */
  function Find(c: Certs, seqNum: u32): (r: Option<nat>)
    ensures r.Some? <==> exists j :: 0 <= j < |c| && c[j].seqNum == seqNum
    ensures r.Some? ==> r.value < |c| && c[r.value].seqNum == seqNum
    ensures r.Some? ==> forall j :: 0 <= j < r.value ==> c[j].seqNum != seqNum
  {
    IndexOf(CertSeqs(c), seqNum)
  }

  /** A certificate the reuse scan may pick: not valid, and with a sequence
      number below UINT32_MAX (the scan's starting bound, compared strictly). */
  ghost predicate Reusable(c: Certs, i: nat)
    requires i < |c|
  {
    !c[i].valid && c[i].seqNum < UINT32_MAX
  }

  /** The certificate to reuse: among reusable ones the smallest sequence
      number at the lowest index; index 0 when none is reusable, valid or not. */
  ghost predicate IsVictim(c: Certs, i: nat)
  {
    && i < |c|
    && ((exists j :: 0 <= j < |c| && Reusable(c, j)) ==>
          && Reusable(c, i)
          && (forall j :: 0 <= j < |c| && Reusable(c, j) ==> c[i].seqNum <= c[j].seqNum)
          && (forall j :: 0 <= j < i && Reusable(c, j) ==> c[i].seqNum < c[j].seqNum))
    && ((forall j :: 0 <= j < |c| ==> !Reusable(c, j)) ==> i == 0)
  }

  /** What the reuse scan compares: a valid certificate never passes the
      strict test against UINT32_MAX, so it counts as UINT32_MAX. */
  function ReuseKeys(c: Certs): seq<u32>
  {
    Project(c, (x: CheckpointCert) => if x.valid then UINT32_MAX else x.seqNum)
  }

  function Victim(c: Certs): (i: nat)
    requires |c| > 0
    ensures IsVictim(c, i)
  {
    var i := ArgMinFirst(ReuseKeys(c));
    VictimIsFirstMinKey(c, i);
    i
  }

  lemma VictimIsFirstMinKey(c: Certs, i: nat)
    requires |c| > 0 && IsFirstMin(ReuseKeys(c), i)
    ensures IsVictim(c, i)
  {
    var k := ReuseKeys(c);
    assert forall j :: 0 <= j < |c| ==> (Reusable(c, j) <==> k[j] < UINT32_MAX);
    if forall j :: 0 <= j < |c| ==> !Reusable(c, j) {
      assert k[0] == UINT32_MAX;
    }
  }

  /** Returns the certificate for `seqNum` untouched when there is one;
      otherwise zeroes the victim and stamps `seqNum` on it. */
  function FindOrInit(c: Certs, seqNum: u32): (r: Located)
    requires |c| > 0
    ensures r.index < |c| && |r.certs| == |c|
    ensures r.certs[r.index].seqNum == seqNum
    ensures Find(c, seqNum).Some? ==> r == Located(Find(c, seqNum).value, c)
    ensures Find(c, seqNum).None? ==>
      && IsVictim(c, r.index)
      && r.certs[r.index] == FreshCert(seqNum)
      && forall j :: 0 <= j < |c| && j != r.index ==> r.certs[j] == c[j]
  {
    match Find(c, seqNum)
    case Some(i) => Located(i, c)
    case None =>
      var i := Victim(c);
      Located(i, c[i := FreshCert(seqNum)])
  }

  /** Asking again for the same number hands back the same certificate and
      changes nothing more. */
  lemma FindOrInitIdempotent(c: Certs, seqNum: u32)
    requires |c| > 0
    ensures var r := FindOrInit(c, seqNum); FindOrInit(r.certs, seqNum) == r
  {
    var r := FindOrInit(c, seqNum);
    if Find(c, seqNum).None? {
      assert forall j :: 0 <= j < |c| && j != r.index ==> r.certs[j].seqNum != seqNum;
      assert Find(r.certs, seqNum) == Some(r.index);
    }
  }

  ghost predicate AllInvalid(c: Certs)
  {
    forall i :: 0 <= i < |c| ==> !c[i].valid
  }

  /** Nothing ever marks a certificate valid. */
  lemma FindOrInitKeepsInvalid(c: Certs, seqNum: u32)
    requires |c| > 0 && AllInvalid(c)
    ensures AllInvalid(FindOrInit(c, seqNum).certs)
  {
  }

  /** While all certificates are invalid, reuse is plain oldest-first: the
      smallest sequence number, lowest index among ties. */
  lemma InvalidStoreReusesOldest(c: Certs, seqNum: u32)
    requires |c| > 0 && AllInvalid(c)
    requires Find(c, seqNum).None?
    ensures var i := FindOrInit(c, seqNum).index;
      && (forall j :: 0 <= j < |c| ==> c[i].seqNum <= c[j].seqNum)
      && (forall j :: 0 <= j < i ==> c[i].seqNum < c[j].seqNum)
  {
    var i := FindOrInit(c, seqNum).index;
    forall j | 0 <= j < |c|
      ensures c[i].seqNum <= c[j].seqNum
    {
      if !Reusable(c, j) {
        assert c[j].seqNum == UINT32_MAX;
      }
    }
  }

  /** Once every certificate is valid, a new number still gets a certificate:
      index 0 is reset even though it was valid. */
  lemma AllValidFallsBackToFirst(c: Certs, seqNum: u32)
    requires |c| > 0
    requires forall j :: 0 <= j < |c| ==> c[j].valid
    requires Find(c, seqNum).None?
    ensures FindOrInit(c, seqNum).index == 0
    ensures FindOrInit(c, seqNum).certs[0] == FreshCert(seqNum)
  {
  }
}
