/** The demo's per-replica key-value store: ten fixed slots, update-or-insert
    with truncation of keys to 31 and values to 255 bytes, and lookup of the
    first used slot holding a key. A C string is modelled by the bytes before
    its terminator; the empty string is a key whose first byte is NUL. */
module KvStore {
  import opened Base

  const MaxKeySize: nat := 32
  const MaxValueSize: nat := 256
  const MaxKeys: nat := 10

  /** One byte of a C string other than its terminator; a `char` here stands
      for one byte, so its code is 1..255. */
  type CChar = c: char | c != '\0' && c as int < 256 witness 'a'

  /** The bytes of a C string before its terminator. */
  type CString = seq<CChar>

  /** One slot; an unused slot holds empty strings, as `memset` leaves it. */
  datatype KvPair = KvPair(key: CString, value: CString, used: bool)

  type Store = seq<KvPair>

  const EmptyPair: KvPair := KvPair("", "", false)

  /** The store of a freshly initialised replica. */
  function EmptyStore(): (s: Store)
    ensures |s| == MaxKeys
    ensures forall i :: 0 <= i < |s| ==> !s[i].used
  {
    Repeat(EmptyPair, MaxKeys)
  }

  /** `strncpy(dst, src, n); dst[n] = '\0';`: at most the first `n` bytes. */
  function Truncate(s: CString, n: nat): (r: CString)
    ensures |r| == Min(|s|, n)
    ensures r == s[..|r|]
  {
    if |s| <= n then s else s[..n]
  }

  /** The slot answers a lookup for `key`. */
  predicate Holds(p: KvPair, key: CString)
  {
    p.used && p.key == key
  }

  /** Lowest-index used slot whose key equals `key`. */
  function FindKey(s: Store, key: CString): (r: Option<nat>)
    ensures r.Some? <==> exists i :: 0 <= i < |s| && Holds(s[i], key)
    ensures r.Some? ==> r.value < |s| && Holds(s[r.value], key)
    ensures r.Some? ==> forall j :: 0 <= j < r.value ==> !Holds(s[j], key)
  {
    var hits := seq(|s|, i requires 0 <= i < |s| => Holds(s[i], key));
    assert forall i :: 0 <= i < |s| ==> hits[i] == Holds(s[i], key);
    IndexOf(hits, true)
  }

  /** Lowest-index unused slot. */
  function FirstUnused(s: Store): (r: Option<nat>)
    ensures r.Some? <==> exists i :: 0 <= i < |s| && !s[i].used
    ensures r.Some? ==> r.value < |s| && !s[r.value].used
    ensures r.Some? ==> forall j :: 0 <= j < r.value ==> s[j].used
  {
    var flags := seq(|s|, i requires 0 <= i < |s| => s[i].used);
    assert forall i :: 0 <= i < |s| ==> flags[i] == s[i].used;
    IndexOf(flags, false)
  }

  /** Update-or-insert. An empty key is ignored. A used slot already holding
      the key gets the truncated value; otherwise the lowest unused slot gets
      the truncated key and value; a full store is left unchanged. */
  function Update(s: Store, key: CString, value: CString): (r: Store)
    ensures |r| == |s|
    ensures |key| == 0 ==> r == s
    ensures |key| > 0 && FindKey(s, key).Some? ==>
      var i := FindKey(s, key).value;
      && r[i] == s[i].(value := Truncate(value, MaxValueSize - 1))
      && forall j :: 0 <= j < |s| && j != i ==> r[j] == s[j]
    ensures |key| > 0 && FindKey(s, key).None? && FirstUnused(s).Some? ==>
      var i := FirstUnused(s).value;
      && r[i] == KvPair(Truncate(key, MaxKeySize - 1), Truncate(value, MaxValueSize - 1), true)
      && forall j :: 0 <= j < |s| && j != i ==> r[j] == s[j]
    ensures |key| > 0 && FindKey(s, key).None? && FirstUnused(s).None? ==> r == s
  {
    if |key| == 0 then s
    else match FindKey(s, key)
      case Some(i) => s[i := s[i].(value := Truncate(value, MaxValueSize - 1))]
      case None =>
        match FirstUnused(s)
        case Some(i) =>
          s[i := KvPair(Truncate(key, MaxKeySize - 1), Truncate(value, MaxValueSize - 1), true)]
        case None => s
  }

  /** The GET loop: the value in the first used slot holding `key`, or "not found". */
  function Lookup(s: Store, key: CString): (r: Option<CString>)
    ensures r.Some? <==> exists i :: 0 <= i < |s| && Holds(s[i], key)
    ensures r.Some? ==> exists i :: 0 <= i < |s| && Holds(s[i], key) && r.value == s[i].value &&
                                    forall j :: 0 <= j < i ==> !Holds(s[j], key)
  {
    match FindKey(s, key)
    case Some(i) => Some(s[i].value)
    case None => None
  }

  /** The C loop of `update_kv_store`: one pass that returns on the first
      match and remembers the first unused slot seen. */
  method UpdateKvStore(s: Store, key: CString, value: CString) returns (r: Store)
    ensures r == Update(s, key, value)
  {
    if |key| == 0 {
      return s;
    }
    var emptySlot := -1;
    var i := 0;
    while i < |s|
      invariant 0 <= i <= |s|
      invariant forall j :: 0 <= j < i ==> !Holds(s[j], key)
      invariant emptySlot < 0 ==> forall j :: 0 <= j < i ==> s[j].used
      invariant emptySlot >= 0 ==> FirstUnused(s) == Some(emptySlot as nat) && emptySlot < i
    {
      if s[i].used && s[i].key == key {
        return s[i := s[i].(value := Truncate(value, MaxValueSize - 1))];
      }
      if !s[i].used && emptySlot < 0 {
        emptySlot := i;
      }
      i := i + 1;
    }
    r := s;
    if emptySlot >= 0 {
      r := s[emptySlot := KvPair(Truncate(key, MaxKeySize - 1), Truncate(value, MaxValueSize - 1), true)];
    }
  }

  /** The lookup loop of `execute_get_command` for one replica. */
  method GetValue(s: Store, key: CString) returns (r: Option<CString>)
    ensures r == Lookup(s, key)
  {
    var j := 0;
    while j < |s|
      invariant 0 <= j <= |s|
      invariant forall k :: 0 <= k < j ==> !Holds(s[k], key)
    {
      if s[j].used && s[j].key == key {
        return Some(s[j].value);
      }
      j := j + 1;
    }
    return None;
  }

  /** Every used slot holds a non-empty key that fits in 31 bytes and a
      value that fits in 255. */
  ghost predicate WellStored(s: Store)
  {
    forall i :: 0 <= i < |s| && s[i].used ==>
      0 < |s[i].key| < MaxKeySize && |s[i].value| < MaxValueSize
  }

  /** At most one used slot per key. */
  ghost predicate UniqueKeys(s: Store)
  {
    forall i, j :: 0 <= i < j < |s| && s[i].used && s[j].used ==> s[i].key != s[j].key
  }

  lemma EmptyStoreInvariants()
    ensures WellStored(EmptyStore()) && UniqueKeys(EmptyStore())
    ensures forall key :: Lookup(EmptyStore(), key).None?
  {
  }

  /** Whatever the key, an update keeps every stored string within its array. */
  lemma UpdateWellStored(s: Store, key: CString, value: CString)
    requires WellStored(s)
    ensures WellStored(Update(s, key, value))
  {
  }

  /** A key that fits is stored as given. */
  lemma ShortKeyStoredVerbatim(key: CString)
    requires |key| < MaxKeySize
    ensures Truncate(key, MaxKeySize - 1) == key
  {
  }

  /** For keys that fit, an update never creates a second slot for a key. */
  lemma UpdateKeepsKeysUnique(s: Store, key: CString, value: CString)
    requires UniqueKeys(s)
    requires |key| < MaxKeySize
    ensures UniqueKeys(Update(s, key, value))
  {
    var r := Update(s, key, value);
    if |key| > 0 && FindKey(s, key).None? && FirstUnused(s).Some? {
      var n := FirstUnused(s).value;
      forall i, j | 0 <= i < j < |r| && r[i].used && r[j].used
        ensures r[i].key != r[j].key
      {
        if i == n {
          assert !Holds(s[j], key);
        } else if j == n {
          assert !Holds(s[i], key);
        }
      }
    }
  }

  /** Put then get: a key that fits reads back the truncated value, provided
      it was already present or a slot was free; on a full store the put is
      dropped. */
  lemma PutThenGet(s: Store, key: CString, value: CString)
    requires 0 < |key| < MaxKeySize
    ensures FindKey(s, key).Some? || FirstUnused(s).Some? ==>
      Lookup(Update(s, key, value), key) == Some(Truncate(value, MaxValueSize - 1))
    ensures FindKey(s, key).None? && FirstUnused(s).None? ==>
      Lookup(Update(s, key, value), key).None?
  {
    var r := Update(s, key, value);
    match FindKey(s, key)
    case Some(i) =>
      assert Holds(r[i], key);
      assert forall j :: 0 <= j < i ==> r[j] == s[j];
      assert FindKey(r, key) == Some(i);
    case None =>
      if FirstUnused(s).Some? {
        var i := FirstUnused(s).value;
        assert Holds(r[i], key);
        assert forall j :: 0 <= j < i ==> r[j] == s[j] && !Holds(s[j], key);
        assert FindKey(r, key) == Some(i);
      }
  }

  /** For keys that fit, a put leaves every other key's lookup as it was. */
  lemma PutLeavesOtherKeys(s: Store, key: CString, value: CString, other: CString)
    requires |key| < MaxKeySize
    requires other != key
    ensures Lookup(Update(s, key, value), other) == Lookup(s, other)
  {
    var r := Update(s, key, value);
    assert forall j :: 0 <= j < |s| ==> (Holds(r[j], other) <==> Holds(s[j], other));
    assert forall j :: 0 <= j < |s| && Holds(s[j], other) ==> r[j] == s[j];
    if FindKey(s, other).Some? {
      assert FindKey(r, other) == FindKey(s, other);
    }
  }

  /** A 32-byte key is stored cut to 31 bytes, so putting it twice
      misses the first copy and fills a second slot with the same key; the
      key itself never reads back, while its 31-byte prefix does. */
  lemma LongKeyDuplicates()
    ensures var key := Repeat<CChar>('k', MaxKeySize);
      var once := Update(EmptyStore(), key, "a");
      var twice := Update(once, key, "b");
      && twice[0].used && twice[1].used && twice[0].key == twice[1].key
      && !UniqueKeys(twice)
      && Lookup(twice, key).None?
      && Lookup(twice, key[..MaxKeySize - 1]) == Some("a")
  {
    var key := Repeat<CChar>('k', MaxKeySize);
    var short := key[..MaxKeySize - 1];
    var once := Update(EmptyStore(), key, "a");
    assert FindKey(EmptyStore(), key).None?;
    assert FirstUnused(EmptyStore()) == Some(0);
    assert once[0] == KvPair(short, "a", true);
    assert short != key by { assert |short| != |key|; }
    assert !Holds(once[0], key);
    assert FindKey(once, key).None?;
    assert once[1] == EmptyPair;
    assert FirstUnused(once) == Some(1);
    var twice := Update(once, key, "b");
    assert twice[1] == KvPair(short, "b", true);
    assert twice[0] == once[0];
    assert FindKey(twice, key).None?;
    assert FindKey(twice, short) == Some(0);
  }
}
