/** The agreement window: a fixed array of slots keyed by sequence number,
    searched linearly and refilled by evicting the slot with the smallest
    sequence number. */
module Window {
  import opened Base
  import opened Layout

  type Window = seq<AgreementSlot>

  /** Outcome of admitting a sequence number: the slot reused and the window afterwards. */
  datatype Admitted = Admitted(index: nat, window: Window)

  /** The sequence numbers of the slots, in slot order. */
  function Seqs(w: Window): seq<u32>
  {
    Project(w, (s: AgreementSlot) => s.seqNum)
  }

  /** Lowest-index slot holding `seqNum`, or None. Sequence number 0 also marks
      an empty slot, so 0 is found in any slot never admitted. */
  function Find(w: Window, seqNum: u32): (r: Option<nat>)
    ensures r.Some? <==> exists j :: 0 <= j < |w| && w[j].seqNum == seqNum
    ensures r.Some? ==> r.value < |w| && w[r.value].seqNum == seqNum
    ensures r.Some? ==> forall j :: 0 <= j < r.value ==> w[j].seqNum != seqNum
  {
    IndexOf(Seqs(w), seqNum)
  }

  /** The slot to reuse: smallest sequence number, lowest index among ties. */
  function Oldest(w: Window): (i: nat)
    requires |w| > 0
    ensures i < |w|
    ensures forall j :: 0 <= j < |w| ==> w[i].seqNum <= w[j].seqNum
    ensures forall j :: 0 <= j < i ==> w[i].seqNum < w[j].seqNum
  {
    ArgMinFirst(Seqs(w))
  }

  /** Admits `seqNum` by zeroing the oldest slot and stamping the number on it.
      No check is made that `seqNum` is already present. */
  function Init(w: Window, seqNum: u32): (r: Admitted)
    requires |w| > 0
    ensures r.index < |w| && |r.window| == |w|
    ensures r.window[r.index] == FreshSlot(seqNum)
    ensures forall j :: 0 <= j < |w| ==> w[r.index].seqNum <= w[j].seqNum
    ensures forall j :: 0 <= j < r.index ==> w[r.index].seqNum < w[j].seqNum
    ensures forall j :: 0 <= j < |w| && j != r.index ==> r.window[j] == w[j]
    ensures Find(r.window, seqNum).Some?
  {
    var i := Oldest(w);
    Admitted(i, w[i := FreshSlot(seqNum)])
  }

  /** When the caller looked first and missed, the admitted number is found in
      exactly the slot that was reused. */
  lemma InitThenFind(w: Window, seqNum: u32)
    requires |w| > 0
    requires Find(w, seqNum).None?
    ensures Find(Init(w, seqNum).window, seqNum) == Some(Init(w, seqNum).index)
  {
    var r := Init(w, seqNum);
    assert forall j :: 0 <= j < |w| && j != r.index ==> r.window[j].seqNum != seqNum;
  }

  /** Every nonzero sequence number occupies at most one slot. */
  ghost predicate DistinctSeqs(w: Window)
  {
    forall i, j :: 0 <= i < j < |w| && w[i].seqNum == w[j].seqNum ==> w[i].seqNum == 0
  }

  /** Following the find-then-init discipline keeps sequence numbers distinct. */
  lemma GuardedInitKeepsDistinct(w: Window, seqNum: u32)
    requires |w| > 0 && DistinctSeqs(w)
    requires Find(w, seqNum).None?
    ensures DistinctSeqs(Init(w, seqNum).window)
  {
    var r := Init(w, seqNum);
    forall i, j | 0 <= i < j < |w| && r.window[i].seqNum == r.window[j].seqNum
      ensures r.window[i].seqNum == 0
    {
      assert i != r.index && j != r.index;
    }
  }

  /** Init alone does not keep them distinct: admitting a number already
      present evicts another slot and leaves two slots with that number. */
  lemma InitCanDuplicate()
    ensures var w := [FreshSlot(1), FreshSlot(2), FreshSlot(3), FreshSlot(4)];
      var r := Init(w, 3);
      r.index == 0 && r.window[0].seqNum == 3 && r.window[2].seqNum == 3
  {
    var w := [FreshSlot(1), FreshSlot(2), FreshSlot(3), FreshSlot(4)];
    assert Seqs(w) == [1, 2, 3, 4];
  }

  /** Admits each number of `ss` in turn. */
  function InitAll(w: Window, ss: seq<u32>): (r: Window)
    requires |w| > 0
    ensures |r| == |w|
    decreases |ss|
  {
    if |ss| == 0 then w
    else Init(InitAll(w, ss[..|ss| - 1]), ss[|ss| - 1]).window
  }

  ghost predicate StrictlyIncreasing(ss: seq<u32>)
  {
    forall i, j :: 0 <= i < j < |ss| ==> ss[i] < ss[j]
  }


  /** The window after memory initialisation: every slot has sequence number 0. */
  ghost predicate AllEmpty(w: Window)
  {
    forall i :: 0 <= i < |w| ==> w[i].seqNum == 0
  }

  /** Admitting a number removes the evicted slot's number from the resident
      multiset and adds the new one; the evicted number is the smallest resident. */
  lemma InitResidents(w: Window, seqNum: u32)
    requires |w| > 0
    ensures var r := Init(w, seqNum); var v := w[r.index].seqNum;
      && v in Seqs(w)
      && (forall x :: x in Seqs(w) ==> v <= x)
      && multiset(Seqs(r.window)) == multiset(Seqs(w)) - multiset{v} + multiset{seqNum}
  {
    var r := Init(w, seqNum);
    assert Seqs(r.window) == Seqs(w)[r.index := seqNum];
  }

  /** While some resident is still 0, the smallest resident is a 0. */
  lemma EvictEmpty(cur: seq<u32>, prev: seq<u32>, z: nat, v: u32, s: u32)
    requires multiset(cur) == multiset(prev) + multiset(Repeat<u32>(0, z)) && z > 0
    requires v in cur && forall x :: x in cur ==> v <= x
    ensures multiset(cur) - multiset{v} + multiset{s} == multiset(prev + [s]) + multiset(Repeat<u32>(0, z - 1))
  {
    assert Repeat<u32>(0, z) == Repeat<u32>(0, z - 1) + [0];
    assert 0 in multiset(cur);
    assert 0 in cur;
    assert v == 0;
  }

  /** Once every resident was admitted in increasing order, the smallest
      resident is the earliest of them. */
  lemma EvictEarliest(cur: seq<u32>, t: seq<u32>, v: u32, s: u32)
    requires multiset(cur) == multiset(t) && |t| > 0 && StrictlyIncreasing(t)
    requires v in cur && forall x :: x in cur ==> v <= x
    ensures multiset(cur) - multiset{v} + multiset{s} == multiset(t[1..] + [s])
  {
    assert t == [t[0]] + t[1..];
    assert t[0] in multiset(cur);
    assert t[0] in cur;
    assert v in multiset(cur);
    assert v in multiset(t);
    assert v in t;
    var j :| 0 <= j < |t| && t[j] == v;
    assert t[0] <= t[j];
    assert v == t[0];
  }

  /** Residents `cur` of a window that has admitted the increasing numbers
      `ss` after starting empty: the last min(|ss|, |cur|) of them, and 0 elsewhere. */
  ghost predicate Latest(cur: seq<u32>, ss: seq<u32>)
  {
    var k := Min(|ss|, |cur|);
    multiset(cur) == multiset(ss[|ss| - k..]) + multiset(Repeat<u32>(0, |cur| - k))
  }

  ghost predicate HoldsLatest(w: Window, ss: seq<u32>)
  {
    Latest(Seqs(w), ss)
  }

  lemma IncreasingSlice(xs: seq<u32>, a: nat, b: nat)
    requires StrictlyIncreasing(xs) && a <= b <= |xs|
    ensures StrictlyIncreasing(xs[a..b])
  {
    var ys := xs[a..b];
    forall i, j | 0 <= i < j < |ys|
      ensures ys[i] < ys[j]
    {
      assert ys[i] == xs[a + i] && ys[j] == xs[a + j];
    }
  }

  /** One admission keeps `HoldsLatest` true. */
  lemma ResidentsStep(w: Window, prev: seq<u32>, s: u32)
    requires |w| > 0 && HoldsLatest(w, prev)
    requires StrictlyIncreasing(prev + [s])
    ensures HoldsLatest(Init(w, s).window, prev + [s])
  {
    InitResidents(w, s);
    LatestStep(Seqs(w), Seqs(Init(w, s).window), prev, s, w[Init(w, s).index].seqNum);
  }

  /** Evicting the smallest resident `v` in favour of `s` keeps `Latest`. */
  lemma LatestStep(cur: seq<u32>, nxt: seq<u32>, prev: seq<u32>, s: u32, v: u32)
    requires |cur| == |nxt| > 0
    requires Latest(cur, prev) && StrictlyIncreasing(prev + [s])
    requires v in cur && forall x :: x in cur ==> v <= x
    requires multiset(nxt) == multiset(cur) - multiset{v} + multiset{s}
    ensures Latest(nxt, prev + [s])
  {
    if |prev| < |cur| {
      LatestFilling(cur, nxt, prev, s, v);
    } else {
      LatestFull(cur, nxt, prev, s, v);
    }
  }

  lemma LatestFilling(cur: seq<u32>, nxt: seq<u32>, prev: seq<u32>, s: u32, v: u32)
    requires |prev| < |cur| == |nxt|
    requires Latest(cur, prev)
    requires v in cur && forall x :: x in cur ==> v <= x
    requires multiset(nxt) == multiset(cur) - multiset{v} + multiset{s}
    ensures Latest(nxt, prev + [s])
  {
    var ss := prev + [s];
    assert Min(|prev|, |cur|) == |prev| && prev[0..] == prev;
    EvictEmpty(cur, prev, |cur| - |prev|, v, s);
    assert Min(|ss|, |nxt|) == |ss| && ss[0..] == ss;
  }

  lemma LatestFull(cur: seq<u32>, nxt: seq<u32>, prev: seq<u32>, s: u32, v: u32)
    requires 0 < |cur| == |nxt| <= |prev|
    requires Latest(cur, prev) && StrictlyIncreasing(prev + [s])
    requires v in cur && forall x :: x in cur ==> v <= x
    requires multiset(nxt) == multiset(cur) - multiset{v} + multiset{s}
    ensures Latest(nxt, prev + [s])
  {
    var a := |prev| - |cur|;
    assert Min(|prev|, |cur|) == |cur| && Repeat<u32>(0, 0) == [];
    FullStep(cur, prev, a, v, s);
    assert Min(|prev| + 1, |nxt|) == |nxt|;
  }

  /** The step once the window holds only admitted numbers, the last of `prev` from `a` on. */
  lemma FullStep(cur: seq<u32>, prev: seq<u32>, a: nat, v: u32, s: u32)
    requires a < |prev|
    requires StrictlyIncreasing(prev + [s])
    requires multiset(cur) == multiset(prev[a..])
    requires v in cur && forall x :: x in cur ==> v <= x
    ensures multiset(cur) - multiset{v} + multiset{s} == multiset((prev + [s])[a + 1..])
  {
    var ss := prev + [s];
    var t := prev[a..];
    assert t == ss[a..|prev|];
    IncreasingSlice(ss, a, |prev|);
    EvictEarliest(cur, t, v, s);
    assert ss[a + 1..] == t[1..] + [s];
  }

  /** Admitting strictly increasing numbers into an empty window keeps exactly
      the most recent ones: the last min(|ss|, |w|) of them, plus 0 in every
      slot not yet reused. */
  lemma {:induction false} ResidentsAreLatest(w: Window, ss: seq<u32>)
    requires |w| > 0 && AllEmpty(w)
    requires StrictlyIncreasing(ss)
    ensures HoldsLatest(InitAll(w, ss), ss)
    decreases |ss|
  {
    var n := |ss|;
    if n == 0 {
      assert Seqs(w) == Repeat<u32>(0, |w|);
    } else {
      var prev := ss[..n - 1];
      assert ss == prev + [ss[n - 1]];
      assert StrictlyIncreasing(prev);
      ResidentsAreLatest(w, prev);
      ResidentsStep(InitAll(w, prev), prev, ss[n - 1]);
    }
  }

  /** Once more than W numbers have been admitted, the resident sequence numbers
      are exactly the last W admitted. */
  lemma WindowKeepsLastW(w: Window, ss: seq<u32>)
    requires |w| > 0 && AllEmpty(w)
    requires StrictlyIncreasing(ss) && |ss| >= |w|
    ensures multiset(Seqs(InitAll(w, ss))) == multiset(ss[|ss| - |w|..])
    ensures forall x :: x in Seqs(InitAll(w, ss)) <==> x in ss[|ss| - |w|..]
  {
    ResidentsAreLatest(w, ss);
    var cur := Seqs(InitAll(w, ss));
    assert |cur| == |w| && Latest(cur, ss);
    LatestWhenFull(cur, ss);
    SameMembers(cur, ss[|ss| - |w|..]);
  }

  /** Once at least as many numbers arrived as there are slots, no zero is left. */
  lemma LatestWhenFull(cur: seq<u32>, ss: seq<u32>)
    requires |ss| >= |cur| && Latest(cur, ss)
    ensures multiset(cur) == multiset(ss[|ss| - |cur|..])
  {
    assert Repeat<u32>(0, 0) == [];
  }

  lemma SameMembers(a: seq<u32>, b: seq<u32>)
    requires multiset(a) == multiset(b)
    ensures forall x :: x in a <==> x in b
  {
    forall x
      ensures x in a <==> x in b
    {
      assert x in a <==> x in multiset(a);
      assert x in b <==> x in multiset(b);
    }
  }
}
