/**
 Looking a key up in a frozen copy of a Zend hash table: the hash function with its eight-fold
 unrolled loop (`phpspy.c`), the hash slot it selects, and the walk along the collision chain
 (`copy_zarray_bucket` in `phpspy_trace.c`).
 */
module ZendHash {
  import opened Text

  // ---------- the hash function ----------

  const TWO_63: nat := 0x8000_0000_0000_0000

  /** A C `char` as an integer; whether it is signed depends on the machine. */
  function CharValue(c: char, signed: bool): int {
    if signed && c as int >= 128 then c as int - 256 else c as int
  }

  function Wrap(x: int): nat { x % TWO_64 }

  /** One textbook round: times 33, plus the character, modulo 2^64. */
  function Round(h: nat, v: int): nat { Wrap(33 * h + v) }

  function Fold(h: nat, s: Bytes, signed: bool): nat
    decreases |s|
  {
    if s == [] then h else Fold(Round(h, CharValue(s[0], signed)), s[1..], signed)
  }

  /** The textbook hash: left fold from 5381, top bit set. */
  function Hash(s: Bytes, signed: bool): nat {
    var h := Fold(5381, s, signed);
    if h < TWO_63 then h + TWO_63 else h
  }

  /** `((hash << 5) + hash) + c`, each operation modulo 2^64. */
  function Mix(h: nat, v: int): nat { Wrap(Wrap(Wrap(32 * h) + h) + v) }

  lemma MixIsRound(h: nat, v: int)
    ensures Mix(h, v) == Round(h, v)
  {
    WrapAdds(32 * h, h);
    WrapAdds(33 * h, v);
  }

  lemma WrapAdds(x: int, y: int)
    ensures Wrap(Wrap(x) + y) == Wrap(x + y)
  {
  }

  method Turn(h: nat, s: Bytes, i: nat, signed: bool) returns (h': nat, i': nat)
    requires i < |s|
    ensures i' == i + 1 && h' == Round(h, CharValue(s[i], signed))
    ensures Fold(h, s[i..], signed) == Fold(h', s[i'..], signed)
  {
    h' := Mix(h, CharValue(s[i], signed));
    MixIsRound(h, CharValue(s[i], signed));
    i' := i + 1;
    assert s[i..][1..] == s[i'..];
  }

  /** The unrolled loop and its fall-through tail compute the textbook hash for every length. */
  method UnrolledHash(s: Bytes, signed: bool) returns (h: nat)
    ensures h == Hash(s, signed)
  {
    hide Fold, Round;
    h := 5381;
    var i: nat, len: nat := 0, |s|;
    assert s[0..] == s;
    while len >= 8
      invariant i + len == |s|
      invariant Fold(h, s[i..], signed) == Fold(5381, s, signed)
      decreases len
    {
      h, i := Turn(h, s, i, signed);
      h, i := Turn(h, s, i, signed);
      h, i := Turn(h, s, i, signed);
      h, i := Turn(h, s, i, signed);
      h, i := Turn(h, s, i, signed);
      h, i := Turn(h, s, i, signed);
      h, i := Turn(h, s, i, signed);
      h, i := Turn(h, s, i, signed);
      len := len - 8;
    }
    // switch (len): each case falls through to the next
    if len >= 7 { h, i := Turn(h, s, i, signed); }
    if len >= 6 { h, i := Turn(h, s, i, signed); }
    if len >= 5 { h, i := Turn(h, s, i, signed); }
    if len >= 4 { h, i := Turn(h, s, i, signed); }
    if len >= 3 { h, i := Turn(h, s, i, signed); }
    if len >= 2 { h, i := Turn(h, s, i, signed); }
    if len >= 1 { h, i := Turn(h, s, i, signed); }
    assert s[i..] == [];
    assert Fold(h, [], signed) == h by { FoldNothing(h, signed); }
    if h < TWO_63 {
      h := h + TWO_63;
    }
  }

  lemma FoldNothing(h: nat, signed: bool)
    ensures Fold(h, [], signed) == h
  {
  }

  // ---------- the hash slot ----------

  function Pow2(e: nat): (p: nat)
    ensures p > 0
  {
    if e == 0 then 1 else 2 * Pow2(e - 1)
  }

  /** Bitwise or of `w`-bit numbers. */
  function BitOr(a: nat, b: nat, w: nat): nat {
    if w == 0 then 0
    else 2 * BitOr(a / 2, b / 2, w - 1) + if a % 2 == 1 || b % 2 == 1 then 1 else 0
  }

  lemma {:induction false} Pow2Grows(p: nat, w: nat)
    requires p <= w
    ensures Pow2(p) <= Pow2(w)
  {
    if p < w { Pow2Grows(p, w - 1); }
  }

  lemma ModDouble(a: nat, m: nat)
    requires m > 0
    ensures a % (2 * m) == 2 * ((a / 2) % m) + a % 2
  {
    var q, r := (a / 2) / m, (a / 2) % m;
    assert a == 2 * (m * q + r) + a % 2;
    assert a == (2 * m) * q + (2 * r + a % 2) by {
      assert 2 * (m * q) == (2 * m) * q;
    }
    DivModUnique(a, 2 * m, q, 2 * r + a % 2);
  }

  lemma DivModUnique(a: nat, m: nat, q: nat, r: nat)
    requires m > 0 && a == m * q + r && r < m
    ensures a % m == r
  {
    var d := a / m - q;
    assert a % m == r - m * d by {
      assert a == m * (a / m) + a % m;
      assert m * (a / m) == m * q + m * d;
    }
    assert d >= 1 ==> m * d >= m;
    assert d <= -1 ==> m * d <= 0 - m;
  }

  lemma {:induction false} OrWithOnes(a: nat, w: nat)
    ensures BitOr(a, Pow2(w) - 1, w) == Pow2(w) - 1
  {
    if w > 0 {
      assert (Pow2(w) - 1) / 2 == Pow2(w - 1) - 1;
      OrWithOnes(a / 2, w - 1);
    }
  }

  lemma Pow2Step(e: nat)
    ensures Pow2(e) == if e == 0 then 1 else 2 * Pow2(e - 1)
  {
  }

  lemma OrStep(a: nat, p: nat, w: nat)
    requires 0 < p <= w && Pow2(p) <= Pow2(w) && Pow2(p - 1) <= Pow2(w - 1)
    ensures BitOr(a, Pow2(w) - Pow2(p), w) == 2 * BitOr(a / 2, Pow2(w - 1) - Pow2(p - 1), w - 1) + a % 2
  {
    var b := Pow2(w - 1) - Pow2(p - 1);
    assert Pow2(w) - Pow2(p) == 2 * b;
    assert (2 * b) / 2 == b && (2 * b) % 2 == 0;
  }

  lemma MaskStep(or: nat, x: nat, m: nat, a: nat)
    requires 0 < m <= x && or == x - m + (a / 2) % m
    ensures 2 * or + a % 2 == 2 * x - 2 * m + a % (2 * m)
  {
    ModDouble(a, m);
  }

  /** Or-ing with the mask of a power of two keeps the remainder and sets every bit above it. */
  lemma {:induction false} OrWithMask(a: nat, p: nat, w: nat)
    requires p <= w
    ensures Pow2(p) <= Pow2(w)
    ensures BitOr(a, Pow2(w) - Pow2(p), w) == Pow2(w) - Pow2(p) + a % Pow2(p)
  {
    hide BitOr, Pow2;
    Pow2Grows(p, w);
    if p == 0 {
      Pow2Step(0);
      OrWithOnes(a, w);
    } else {
      Pow2Grows(p - 1, w - 1);
      Pow2Step(p);
      Pow2Step(w);
      OrStep(a, p, w);
      OrWithMask(a / 2, p - 1, w - 1);
      MaskStep(BitOr(a / 2, Pow2(w - 1) - Pow2(p - 1), w - 1), Pow2(w - 1), Pow2(p - 1), a);
    }
  }

  /** A 32-bit pattern read as a signed number. */
  function Signed32(x: nat): int { if x < 0x8000_0000 then x else x - 0x1_0000_0000 }

  /** Where Zend looks: index `(int32_t)(h | nTableMask)` from `arData`. */
  function ZendIndex(h: nat, mask: nat): int { Signed32(BitOr(h % 0x1_0000_0000, mask, 32)) }

  /** Where phpspy looks: `arData - size + h % size`, with the size recovered from the mask. */
  function PhpspyIndex(h: nat, mask: nat): int
    requires Signed32(mask) < 0
  {
    var size := -1 * Signed32(mask);
    h % size - size
  }

  lemma {:induction false} Pow2Sum(a: nat, b: nat)
    ensures Pow2(a + b) == Pow2(a) * Pow2(b)
  {
    hide Pow2;
    if a > 0 {
      Pow2Sum(a - 1, b);
      Pow2Step(a);
      Pow2Step(a + b);
      DoubleProduct(Pow2(a - 1), Pow2(b));
    } else {
      Pow2Step(0);
    }
  }

  lemma DoubleProduct(x: nat, y: nat)
    ensures (2 * x) * y == 2 * (x * y)
  {
  }

  lemma MulAssoc(x: nat, y: nat, z: nat)
    ensures (x * y) * z == x * (y * z)
  {
  }

  lemma MulDistributes(x: nat, y: nat, z: nat)
    ensures x * (y + z) == x * y + x * z
  {
  }

  lemma DivMod(a: nat, m: nat)
    requires m > 0
    ensures a == m * (a / m) + a % m && a % m < m
  {
  }

  lemma ModOfMod(h: nat, m: nat, n: nat, k: nat)
    requires m > 0 && n == m * k > 0
    ensures (h % n) % m == h % m
  {
    var q, r := h / n, h % n;
    DivMod(h, n);
    DivMod(r, m);
    MulAssoc(m, k, q);
    MulDistributes(m, k * q, r / m);
    DivModUnique(h, m, k * q + r / m, r % m);
  }

  /** For every table size that is a power of two, up to Zend's largest, both pick the same hash slot. */
  lemma SameSlot(h: nat, p: nat)
    requires p <= 30
    ensures Pow2(p) <= 0x8000_0000
    ensures var mask := 0x1_0000_0000 - Pow2(p);
            Signed32(mask) == 0 - Pow2(p) && ZendIndex(h, mask) == PhpspyIndex(h, mask)
  {
    hide Pow2, BitOr;
    Pow2Values();
    Pow2Grows(p, 31);
    OrWithMask(h % 0x1_0000_0000, p, 32);
    Pow2Sum(p, 32 - p);
    ModOfMod(h, Pow2(p), Pow2(32), Pow2(32 - p));
  }

  lemma Pow2Values()
    ensures Pow2(31) == 0x8000_0000 && Pow2(32) == 0x1_0000_0000
  {
    assert Pow2(4) == 16;
    assert Pow2(8) == 256;
    assert Pow2(12) == 4096;
    assert Pow2(16) == 65536;
    assert Pow2(20) == 0x10_0000;
    assert Pow2(24) == 0x100_0000;
    assert Pow2(28) == 0x1000_0000;
    assert Pow2(31) == 0x8000_0000;
  }

  // ---------- the collision chain ----------

  const NO_BUCKET: nat := 0xffff_ffff
  const STR_SIZE: nat := 256

  /** A bucket without a string key holds an integer index instead; a deleted one is not live. */
  datatype Bucket = Bucket(key: Option<Bytes>, next: nat, live: bool)

  /** A frozen table: its hash slots and its buckets. */
  datatype Table = Table(slots: seq<nat>, buckets: seq<Bucket>)

  /** `path` is the chain of buckets from `head` to the end mark. */
  predicate IsChain(buckets: seq<Bucket>, head: nat, path: seq<nat>)
    decreases |path|
  {
    if path == [] then head == NO_BUCKET
    else head == path[0] != NO_BUCKET && head < |buckets| && IsChain(buckets, buckets[head].next, path[1..])
  }

  function SlotOf(t: Table, key: Bytes, signed: bool): nat
    requires t.slots != []
  {
    Hash(key, signed) % |t.slots|
  }

  /** What `strcmp` sees of a key copied into a 256-byte buffer. */
  function Copied(key: Bytes): Bytes {
    CString(if |key| < STR_SIZE then key else key[..STR_SIZE - 1])
  }

  /** The walk stops at a bucket whose key compares equal, and at one without a string key. */
  predicate Stops(b: Bucket, key: Bytes) { b.key.None? || Copied(b.key.value) == key }

  function FirstStop(buckets: seq<Bucket>, path: seq<nat>, key: Bytes): (r: Option<nat>)
    requires forall i :: 0 <= i < |path| ==> path[i] < |buckets|
  {
    if path == [] then None
    else if Stops(buckets[path[0]], key) then Some(path[0])
    else FirstStop(buckets, path[1..], key)
  }

  lemma {:induction false} ChainInRange(buckets: seq<Bucket>, head: nat, path: seq<nat>)
    requires IsChain(buckets, head, path)
    ensures forall i :: 0 <= i < |path| ==> path[i] < |buckets|
    decreases |path|
  {
    if path != [] {
      ChainInRange(buckets, buckets[head].next, path[1..]);
      assert forall i :: 1 <= i < |path| ==> path[i] == path[1..][i - 1];
    }
  }

  /** `copy_zarray_bucket`: the index of the bucket copied, or an error. On a chain that ends the walk
      ends, at the first bucket it stops at. */
  method CopyBucket(t: Table, key: Bytes, signed: bool, ghost path: seq<nat>) returns (r: Option<nat>)
    requires t.slots != [] && IsChain(t.buckets, t.slots[SlotOf(t, key, signed)], path)
    ensures forall i :: 0 <= i < |path| ==> path[i] < |t.buckets|
    ensures r == FirstStop(t.buckets, path, key)
  {
    hide Hash, Stops;
    ChainInRange(t.buckets, t.slots[SlotOf(t, key, signed)], path);
    var h := UnrolledHash(key, signed);
    var at := t.slots[h % |t.slots|];
    ghost var rest: seq<nat> := path;
    while true
      invariant IsChain(t.buckets, at, rest)
      invariant forall i :: 0 <= i < |rest| ==> rest[i] < |t.buckets|
      invariant FirstStop(t.buckets, rest, key) == FirstStop(t.buckets, path, key)
      decreases |rest|
    {
      if at == NO_BUCKET {
        return None;
      }
      if Stops(t.buckets[at], key) {
        return Some(at);
      }
      at := t.buckets[at].next;
      rest := rest[1..];
    }
  }

  // ---------- agreement with a map ----------

  /** Along `path`, `m` is right: the key's own bucket is on it, and so is no other bucket of that key.
      Integer-keyed buckets may be anywhere. */
  ghost predicate Represents(t: Table, m: map<Bytes, nat>, key: Bytes, path: seq<nat>) {
    && (forall i :: 0 <= i < |path| ==> path[i] < |t.buckets|)
    && (key in m ==> m[key] in path && m[key] < |t.buckets| && t.buckets[m[key]].key == Some(key))
    && (forall i :: 0 <= i < |path| && t.buckets[path[i]].key.Some? ==>
          var k := t.buckets[path[i]].key.value;
          && |k| < STR_SIZE && '\0' !in k
          && k in m && m[k] == path[i])
  }

  /** An integer-keyed bucket comes before the key's own bucket, or stands on a chain without one. */
  ghost predicate Shadowed(t: Table, m: map<Bytes, nat>, key: Bytes, path: seq<nat>)
    requires Represents(t, m, key, path)
  {
    exists i :: 0 <= i < |path| && t.buckets[path[i]].key.None? &&
      forall j :: 0 <= j < i ==> key in m ==> path[j] != m[key]
  }

  function Expected(m: map<Bytes, nat>, key: Bytes): Option<nat> {
    if key in m then Some(m[key]) else None
  }

  lemma CopiedShort(k: Bytes)
    requires |k| < STR_SIZE && '\0' !in k
    ensures Copied(k) == k
  {
    CStringNul(k);
  }

  /** Where the walk ends. */
  lemma {:induction false} FirstStopCases(buckets: seq<Bucket>, path: seq<nat>, key: Bytes) returns (i: nat)
    requires forall j :: 0 <= j < |path| ==> path[j] < |buckets|
    ensures i <= |path| && forall j :: 0 <= j < i ==> !Stops(buckets[path[j]], key)
    ensures i < |path| ==> Stops(buckets[path[i]], key) && FirstStop(buckets, path, key) == Some(path[i])
    ensures i == |path| ==> FirstStop(buckets, path, key) == None
  {
    hide Stops;
    i := 0;
    if path != [] && !Stops(buckets[path[0]], key) {
      var k := FirstStopCases(buckets, path[1..], key);
      i := k + 1;
      assert forall j :: 1 <= j < |path| ==> path[j] == path[1..][j - 1];
    }
  }

  /** A string-keyed bucket on the chain stops the walk exactly if it is the key's own. */
  lemma StopsOnlyAtOwn(t: Table, m: map<Bytes, nat>, key: Bytes, path: seq<nat>, i: nat)
    requires Represents(t, m, key, path) && i < |path| && t.buckets[path[i]].key.Some?
    ensures Stops(t.buckets[path[i]], key) <==> key in m && m[key] == path[i]
  {
    CopiedShort(t.buckets[path[i]].key.value);
  }

  /** A walk along `path` agrees with the map exactly when no integer-keyed bucket shadows the key. */
  lemma WalkAgreesIffNotShadowed(t: Table, m: map<Bytes, nat>, key: Bytes, path: seq<nat>)
    requires Represents(t, m, key, path)
    ensures FirstStop(t.buckets, path, key) == Expected(m, key) <==> !Shadowed(t, m, key, path)
  {
    hide Stops, FirstStop, Copied;
    var i := FirstStopCases(t.buckets, path, key);
    forall j | 0 <= j < |path|
      ensures Stops(t.buckets[path[j]], key) <==>
                t.buckets[path[j]].key.None? || (key in m && m[key] == path[j])
    {
      if t.buckets[path[j]].key.Some? {
        StopsOnlyAtOwn(t, m, key, path, j);
      } else {
        StopsWithoutKey(t.buckets[path[j]], key);
      }
    }
    if i < |path| && t.buckets[path[i]].key.None? {
      assert forall j :: 0 <= j < i ==> key in m ==> path[j] != m[key];
    }
  }

  lemma StopsWithoutKey(b: Bucket, key: Bytes)
    requires b.key.None?
    ensures Stops(b, key)
  {
  }

  // ---------- well-formed tables ----------

  predicate KeyOk(key: Bytes) { |key| < STR_SIZE && '\0' !in key }

  /** Every hash slot starts a chain that ends, of live buckets only. */
  ghost predicate ChainsEnd(t: Table) {
    forall i :: 0 <= i < |t.slots| ==> HasChain(t, t.slots[i])
  }

  ghost predicate HasChain(t: Table, head: nat) {
    exists path :: IsChain(t.buckets, head, path) && LiveAlong(t, path)
  }

  ghost predicate LiveAlong(t: Table, path: seq<nat>) {
    forall i :: 0 <= i < |path| ==> path[i] < |t.buckets| && t.buckets[path[i]].live
  }

  /** `m` maps each string key to its one live bucket, and has no other keys. */
  ghost predicate Holds(t: Table, m: map<Bytes, nat>) {
    && (forall k :: k in m ==> m[k] < |t.buckets| && t.buckets[m[k]].live && t.buckets[m[k]].key == Some(k))
    && (forall j :: 0 <= j < |t.buckets| && t.buckets[j].live && t.buckets[j].key.Some? ==>
          t.buckets[j].key.value in m && m[t.buckets[j].key.value] == j)
  }

  /** The key's bucket is on the chain of the slot its hash selects. */
  ghost predicate Filed(t: Table, key: Bytes, j: nat, signed: bool)
    requires t.slots != []
  {
    exists path :: IsChain(t.buckets, t.slots[SlotOf(t, key, signed)], path) && j in path
  }

  /** A table as Zend keeps it, holding `m` under its string keys and anything under integer keys. */
  ghost predicate WellFormed(t: Table, m: map<Bytes, nat>, signed: bool) {
    && (exists p :: 0 <= p <= 30 && |t.slots| == Pow2(p))
    && ChainsEnd(t)
    && Holds(t, m)
    && forall k :: k in m ==> KeyOk(k) && Filed(t, k, m[k], signed)
  }

  /** A chain is determined by where it starts. */
  lemma {:induction false} ChainUnique(buckets: seq<Bucket>, head: nat, a: seq<nat>, b: seq<nat>)
    requires IsChain(buckets, head, a) && IsChain(buckets, head, b)
    ensures a == b
    decreases |a|
  {
    if a != [] && b != [] {
      ChainUnique(buckets, buckets[head].next, a[1..], b[1..]);
      assert a == [a[0]] + a[1..] && b == [b[0]] + b[1..];
    }
  }

  /** The chain a lookup of `key` walks. */
  ghost function ChainOf(t: Table, m: map<Bytes, nat>, key: Bytes, signed: bool): (path: seq<nat>)
    requires WellFormed(t, m, signed)
    ensures IsChain(t.buckets, t.slots[SlotOf(t, key, signed)], path) && LiveAlong(t, path)
  {
    assert HasChain(t, t.slots[SlotOf(t, key, signed)]);
    var path :| IsChain(t.buckets, t.slots[SlotOf(t, key, signed)], path) && LiveAlong(t, path);
    path
  }

  lemma WellFormedRepresents(t: Table, m: map<Bytes, nat>, key: Bytes, signed: bool)
    requires WellFormed(t, m, signed)
    ensures Represents(t, m, key, ChainOf(t, m, key, signed))
  {
    hide Hash, Pow2;
    var path := ChainOf(t, m, key, signed);
    if key in m {
      assert Filed(t, key, m[key], signed);
      var other :| IsChain(t.buckets, t.slots[SlotOf(t, key, signed)], other) && m[key] in other;
      ChainUnique(t.buckets, t.slots[SlotOf(t, key, signed)], path, other);
    }
    forall i | 0 <= i < |path| && t.buckets[path[i]].key.Some?
      ensures var k := t.buckets[path[i]].key.value; |k| < STR_SIZE && '\0' !in k && k in m && m[k] == path[i]
    {
      assert t.buckets[path[i]].live;
    }
  }

  /** On every well-formed table, for every key: the walk from the key's hash slot agrees with the map
      if and only if no integer-keyed bucket comes before the key's own on that chain. */
  lemma LookupAgreesIffNotShadowed(t: Table, m: map<Bytes, nat>, key: Bytes, signed: bool)
    requires WellFormed(t, m, signed)
    ensures Represents(t, m, key, ChainOf(t, m, key, signed))
    ensures FirstStop(t.buckets, ChainOf(t, m, key, signed), key) == Expected(m, key) <==>
            !Shadowed(t, m, key, ChainOf(t, m, key, signed))
  {
    hide WellFormed, Represents, Shadowed, FirstStop, Expected;
    WellFormedRepresents(t, m, key, signed);
    WalkAgreesIffNotShadowed(t, m, key, ChainOf(t, m, key, signed));
  }

  ghost predicate StringKeysOnly(t: Table) {
    forall j :: 0 <= j < |t.buckets| && t.buckets[j].live ==> t.buckets[j].key.Some?
  }

  /** With string keys only, that is always: the key's bucket, or an error exactly if it has none. */
  lemma StringTableLookup(t: Table, m: map<Bytes, nat>, key: Bytes, signed: bool)
    requires WellFormed(t, m, signed) && StringKeysOnly(t)
    ensures FirstStop(t.buckets, ChainOf(t, m, key, signed), key) == Expected(m, key)
  {
    hide WellFormed, FirstStop, Expected;
    LookupAgreesIffNotShadowed(t, m, key, signed);
  }

  /** `copy_zarray_bucket` on a well-formed table. With string keys only it returns the key's bucket, or
      an error exactly if the key is absent; with integer keys it does unless one shadows the key. */
  method LookUp(t: Table, ghost m: map<Bytes, nat>, key: Bytes, signed: bool) returns (r: Option<nat>)
    requires WellFormed(t, m, signed)
    ensures Represents(t, m, key, ChainOf(t, m, key, signed))
    ensures r == Expected(m, key) <==> !Shadowed(t, m, key, ChainOf(t, m, key, signed))
    ensures StringKeysOnly(t) ==> r == Expected(m, key)
  {
    hide Hash, Pow2, FirstStop, Represents, Expected;
    ghost var path := ChainOf(t, m, key, signed);
    r := CopyBucket(t, key, signed, path);
    LookupAgreesIffNotShadowed(t, m, key, signed);
    if StringKeysOnly(t) {
      StringTableLookup(t, m, key, signed);
    }
  }

  /** The hash slot that is read is the one Zend would read. */
  lemma ReadsZendSlot(t: Table, m: map<Bytes, nat>, key: Bytes, signed: bool)
    requires WellFormed(t, m, signed)
    ensures |t.slots| <= 0x8000_0000
    ensures SlotOf(t, key, signed) - |t.slots| == ZendIndex(Hash(key, signed), 0x1_0000_0000 - |t.slots|)
  {
    hide Hash, Pow2, ChainsEnd, Holds, ZendIndex;
    var p :| 0 <= p <= 30 && |t.slots| == Pow2(p);
    SameSlot(Hash(key, signed), p);
  }

  /** Eight slots, and one integer-keyed bucket on slot `h`. */
  function OneIntegerKey(h: nat): Table {
    Table(seq(8, i => if i == h then 0 else NO_BUCKET), [Bucket(None, NO_BUCKET, true)])
  }

  lemma OneIntegerKeyChains(h: nat, i: nat)
    requires i < 8
    ensures var t := OneIntegerKey(h);
            var path := if i == h then [0] else [];
            IsChain(t.buckets, t.slots[i], path) && LiveAlong(t, path)
  {
    var t := OneIntegerKey(h);
    assert IsChain(t.buckets, NO_BUCKET, []) && [0][1..] == [];
  }

  lemma OneIntegerKeyWellFormed(t: Table, h: nat)
    requires t == OneIntegerKey(h)
    ensures |t.slots| == 8 && WellFormed(t, map[], true)
  {
    assert |t.slots| == 8 == Pow2(3) && t.buckets == [Bucket(None, NO_BUCKET, true)];
    assert Holds(t, map[]);
    hide OneIntegerKey, Pow2, IsChain, LiveAlong;
    forall i | 0 <= i < |t.slots|
      ensures HasChain(t, t.slots[i])
    {
      OneIntegerKeyChains(h, i);
    }
  }

  /** An absent key is reported present, off an integer-keyed bucket on the slot of "a". */
  lemma IntegerKeyShadows()
    ensures exists t: Table ::
              && |t.slots| == 8 && WellFormed(t, map[], true)
              && LiveAlong(t, ChainOf(t, map[], "a", true))
              && FirstStop(t.buckets, ChainOf(t, map[], "a", true), "a") == Some(0)
  {
    hide Hash, WellFormed, IsChain;
    var h := Hash("a", true) % 8;
    var t := OneIntegerKey(h);
    OneIntegerKeyWellFormed(t, h);
    OneIntegerKeyChains(h, h);
    ChainUnique(t.buckets, 0, [0], ChainOf(t, map[], "a", true));
    assert FirstStop(t.buckets, [0], "a") == Some(0);
  }
}
