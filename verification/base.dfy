/** Machine integer ranges, an Option type and the two linear scans that the
    memory layout engine performs over its fixed arrays: "first index holding
    a value" and "lowest index of the minimum". */
module Base {

  /** `uint8_t` */
  type u8 = x: int | 0 <= x < 0x100

  /** `uint32_t` */
  type u32 = x: int | 0 <= x < 0x1_0000_0000

  const UINT32_MAX: u32 := 0xFFFF_FFFF

  /** A C pointer that may be NULL, or a lookup that may miss. */
  datatype Option<+T> = None | Some(value: T)

  /** A fixed-size byte array. */
  type Bytes = seq<u8>

  /** `n` copies of `x`: a fixed array filled with one value. */
  function Repeat<T>(x: T, n: nat): (r: seq<T>)
    ensures |r| == n
    ensures forall i :: 0 <= i < n ==> r[i] == x
  {
    seq(n, _ => x)
  }

  /** `n` zero bytes, what `memset(.., 0, ..)` leaves behind. */
  function Zeros(n: nat): Bytes
  {
    Repeat(0, n)
  }

  /** The key of every element, in order: the array of sequence numbers a
      linear scan compares. */
  function Project<T>(xs: seq<T>, key: T -> u32): (k: seq<u32>)
    ensures |k| == |xs|
    ensures forall i :: 0 <= i < |xs| ==> k[i] == key(xs[i])
  {
    seq(|xs|, i requires 0 <= i < |xs| => key(xs[i]))
  }

  function Min(a: int, b: int): int
  {
    if a <= b then a else b
  }

  /** The scan `for (i = from; i < |xs|; i++) if (xs[i] == x) return i;`. */
  function IndexFrom<T(==)>(xs: seq<T>, x: T, from: nat): (r: Option<nat>)
    requires from <= |xs|
    ensures r.Some? ==> from <= r.value < |xs| && xs[r.value] == x
    ensures r.Some? ==> forall j :: from <= j < r.value ==> xs[j] != x
    ensures r.None? ==> forall j :: from <= j < |xs| ==> xs[j] != x
    decreases |xs| - from
  {
    if from == |xs| then None
    else if xs[from] == x then Some(from)
    else IndexFrom(xs, x, from + 1)
  }

  /** Lowest index holding `x`, or None when `x` does not occur. */
  function IndexOf<T(==)>(xs: seq<T>, x: T): (r: Option<nat>)
    ensures r.Some? <==> x in xs
    ensures r.Some? ==> r.value < |xs| && xs[r.value] == x
    ensures r.Some? ==> forall j :: 0 <= j < r.value ==> xs[j] != x
  {
    IndexFrom(xs, x, 0)
  }

  /** `i` is the lowest index at which `xs` takes its minimum value. */
  ghost predicate IsFirstMin(xs: seq<u32>, i: nat)
  {
    && i < |xs|
    && (forall j :: 0 <= j < |xs| ==> xs[i] <= xs[j])
    && (forall j :: 0 <= j < i ==> xs[i] < xs[j])
  }

  /** State of the scan `idx := 0; least := UINT32_MAX; for i ... if (xs[i] < least) { least := xs[i]; idx := i; }`
      after it has looked at `xs[..i]`. */
  ghost predicate MinScanned(xs: seq<u32>, i: nat, idx: nat, least: u32)
  {
    && i <= |xs|
    && idx < |xs|
    && ((idx == 0 && least == UINT32_MAX) || (idx < i && xs[idx] == least))
    && (forall j :: 0 <= j < i ==> least <= xs[j])
    && (forall j :: 0 <= j < idx ==> least < xs[j])
  }

  /** The rest of that scan, from position `i` with the current choice `idx`, `least`. */
  function MinScan(xs: seq<u32>, i: nat, idx: nat, least: u32): (r: nat)
    requires MinScanned(xs, i, idx, least)
    ensures IsFirstMin(xs, r)
    decreases |xs| - i
  {
    if i == |xs| then idx
    else if xs[i] < least then MinScan(xs, i + 1, i, xs[i])
    else MinScan(xs, i + 1, idx, least)
  }

  /** The scan above from its start: it picks the lowest index of the minimum,
      and index 0 when every entry equals UINT32_MAX. */
  function ArgMinFirst(xs: seq<u32>): (r: nat)
    requires |xs| > 0
    ensures IsFirstMin(xs, r)
    ensures (forall j :: 0 <= j < |xs| ==> xs[j] == UINT32_MAX) ==> r == 0
  {
    MinScan(xs, 0, 0, UINT32_MAX)
  }
}
