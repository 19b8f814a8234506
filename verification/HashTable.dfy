/** The bucket structure of the hash index as values: byte-string comparison, ordered maps
    searched by it, and a table of them indexed by an arbitrary hash.
 */
module HashTable {
  import opened Common

  type Bytes = seq<Byte>

  // ---------- TVecCharCmp ----------

  /** memcmp(a, b, n) < 0 */
  predicate MemLess(a: Bytes, b: Bytes, n: nat)
    requires n <= |a| && n <= |b|
  {
    n > 0 && (a[0] < b[0] || (a[0] == b[0] && MemLess(a[1..], b[1..], n - 1)))
  }

  /** Only as many bytes as both keys have are compared. */
  predicate Less(a: Bytes, b: Bytes) {
    MemLess(a, b, if |a| < |b| then |a| else |b|)
  }

  /** The first byte that differs decides, and the smaller byte comes first. */
  lemma {:induction false} LessIsBytewise(a: Bytes, b: Bytes)
    ensures Less(a, b) <==> exists k :: 0 <= k < |a| && k < |b| && a[..k] == b[..k] && a[k] < b[k]
    decreases |a|
  {
    if a != [] && b != [] && a[0] == b[0] {
      var a', b' := a[1..], b[1..];
      LessIsBytewise(a', b');
      if k :| 0 <= k < |a'| && k < |b'| && a'[..k] == b'[..k] && a'[k] < b'[k] {
        assert a[..k + 1] == [a[0]] + a'[..k] && b[..k + 1] == [b[0]] + b'[..k];
        assert a[k + 1] < b[k + 1];
      }
      if k :| 0 <= k < |a| && k < |b| && a[..k] == b[..k] && a[k] < b[k] {
        assert a'[..k - 1] == a[..k][1..] && b'[..k - 1] == b[..k][1..];
        assert a'[k - 1] < b'[k - 1];
      }
    } else if a != [] && b != [] {
      if a[0] < b[0] { assert a[..0] == b[..0]; }
      if k :| 0 <= k < |a| && k < |b| && a[..k] == b[..k] && a[k] < b[k] {
        assert k > 0 ==> a[..k][0] == b[..k][0];
      }
    }
  }

  /** The comparison cannot tell two keys apart exactly when one is a prefix of the other. */
  lemma {:induction false} IncomparableIffPrefix(a: Bytes, b: Bytes)
    ensures !Less(a, b) && !Less(b, a) <==> a <= b || b <= a
    decreases |a|
  {
    if a != [] && b != [] && a[0] == b[0] {
      IncomparableIffPrefix(a[1..], b[1..]);
      assert a == [a[0]] + a[1..] && b == [a[0]] + b[1..];
      assert a <= b <==> a[1..] <= b[1..];
      assert b <= a <==> b[1..] <= a[1..];
    }
  }

  lemma {:induction false} LessAsymmetric(a: Bytes, b: Bytes)
    requires Less(a, b)
    ensures !Less(b, a)
    decreases |a|
  {
    if a[0] == b[0] {
      LessAsymmetric(a[1..], b[1..]);
    }
  }

  lemma {:induction false} LessTransitive(a: Bytes, b: Bytes, c: Bytes)
    requires Less(a, b) && Less(b, c)
    ensures Less(a, c)
    decreases |a|
  {
    if a[0] == b[0] == c[0] {
      LessTransitive(a[1..], b[1..], c[1..]);
    }
  }

  /** The comparison tells any two keys apart. */
  ghost predicate TellsApart(keys: iset<Bytes>) {
    forall a, b :: a in keys && b in keys && a != b ==> Less(a, b) || Less(b, a)
  }

  ghost predicate PrefixFree(keys: iset<Bytes>) {
    forall a, b :: a in keys && b in keys && a <= b ==> a == b
  }

  /** The keys a map can hold side by side: exactly those of which none is a prefix of
      another. */
  lemma {:induction false} TellsApartIffPrefixFree(keys: iset<Bytes>)
    ensures TellsApart(keys) <==> PrefixFree(keys)
  {
    forall a, b | a in keys && b in keys && a != b
      ensures Less(a, b) || Less(b, a) <==> !(a <= b) && !(b <= a)
    {
      IncomparableIffPrefix(a, b);
    }
  }

  /** The keys of one index are copied to one length, so its maps meet no others. */
  lemma {:induction false} OneLengthTellsApart(keyLen: nat)
    ensures TellsApart(iset k: Bytes | |k| == keyLen)
  {
    TellsApartIffPrefixFree(iset k: Bytes | |k| == keyLen);
  }

  // ---------- TMap: an ordered map ----------

  datatype Entry = Entry(key: Bytes, val: Bytes)

  type TMap = seq<Entry>

  /** Strictly increasing keys of one length. */
  ghost predicate Ordered(m: TMap, keyLen: nat) {
    && (forall i :: 0 <= i < |m| ==> |m[i].key| == keyLen)
    && (forall i, j :: 0 <= i < j < |m| ==> Less(m[i].key, m[j].key))
  }

  /** The first entry whose key is not less than `key`. */
  function LowerBound(m: TMap, key: Bytes): (i: nat)
    ensures i <= |m|
  {
    if m == [] || !Less(m[0].key, key) then 0 else 1 + LowerBound(m[1..], key)
  }

  predicate HasKey(m: TMap, key: Bytes) {
    var i := LowerBound(m, key);
    i < |m| && !Less(key, m[i].key)
  }

  function MapFind(m: TMap, key: Bytes): Option<Bytes> {
    if HasKey(m, key) then Some(m[LowerBound(m, key)].val) else None
  }

  /** map::insert: an entry with an equivalent key is kept. */
  function MapInsert(m: TMap, key: Bytes, val: Bytes): TMap {
    var i := LowerBound(m, key);
    if HasKey(m, key) then m else m[..i] + [Entry(key, val)] + m[i..]
  }

  lemma {:induction false} LowerBoundSplits(m: TMap, keyLen: nat, key: Bytes)
    requires Ordered(m, keyLen) && |key| == keyLen
    ensures forall i :: 0 <= i < LowerBound(m, key) ==> Less(m[i].key, key)
    ensures forall i :: LowerBound(m, key) <= i < |m| ==> m[i].key == key || Less(key, m[i].key)
    ensures forall i :: LowerBound(m, key) < i < |m| ==> Less(key, m[i].key)
  {
    var n := LowerBound(m, key);
    if m != [] && n > 0 {
      LowerBoundSplits(m[1..], keyLen, key);
      assert forall i :: 1 <= i < |m| ==> m[i] == m[1..][i - 1];
    } else if m != [] {
      IncomparableIffPrefix(m[0].key, key);
      forall i | 0 < i < |m| ensures Less(key, m[i].key) {
        assert Less(m[0].key, m[i].key);
        if m[0].key != key { LessTransitive(key, m[0].key, m[i].key); }
      }
    }
  }

  /** Searching by the comparison finds an entry exactly when its key is there. */
  lemma {:induction false} MapFindIsLookup(m: TMap, keyLen: nat, key: Bytes, val: Bytes)
    requires Ordered(m, keyLen) && |key| == keyLen
    ensures MapFind(m, key) == Some(val) <==> Entry(key, val) in m
  {
    LowerBoundSplits(m, keyLen, key);
    var n := LowerBound(m, key);
    IncomparableIffPrefix(key, key);
    if Entry(key, val) in m {
      var i :| 0 <= i < |m| && m[i] == Entry(key, val);
      assert i == n;
    }
  }

  lemma {:induction false} PlacedInOrder(m: TMap, keyLen: nat, n: nat, e: Entry)
    requires Ordered(m, keyLen) && |e.key| == keyLen && n <= |m|
    requires forall i :: 0 <= i < n ==> Less(m[i].key, e.key)
    requires forall i :: n <= i < |m| ==> Less(e.key, m[i].key)
    ensures Ordered(m[..n] + [e] + m[n..], keyLen)
  {
    var r := m[..n] + [e] + m[n..];
    assert forall i :: 0 <= i < |r| ==> r[i] == if i < n then m[i] else if i == n then e else m[i - 1];
  }

  lemma {:induction false} MapInsertKeepsOrder(m: TMap, keyLen: nat, key: Bytes, val: Bytes)
    requires Ordered(m, keyLen) && |key| == keyLen
    ensures Ordered(MapInsert(m, key, val), keyLen)
  {
    LowerBoundSplits(m, keyLen, key);
    if !HasKey(m, key) {
      PlacedInOrder(m, keyLen, LowerBound(m, key), Entry(key, val));
    }
  }

  /** Insertion adds the one entry, and only when the key is new. */
  lemma {:induction false} MapInsertThenFind(m: TMap, keyLen: nat, key: Bytes, val: Bytes, k: Bytes)
    requires Ordered(m, keyLen) && |key| == |k| == keyLen
    ensures MapFind(MapInsert(m, key, val), k)
      == if k == key && MapFind(m, key).None? then Some(val) else MapFind(m, k)
  {
    var r := MapInsert(m, key, val);
    MapInsertKeepsOrder(m, keyLen, key, val);
    if MapFind(m, key).None? {
      forall v ensures Entry(k, v) in r <==> Entry(k, v) in m || Entry(k, v) == Entry(key, val) {
        var n := LowerBound(m, key);
        assert m == m[..n] + m[n..];
      }
      forall v ensures MapFind(r, k) == Some(v) <==> Entry(k, v) in r {
        MapFindIsLookup(r, keyLen, k, v);
      }
      forall v ensures MapFind(m, k) == Some(v) <==> Entry(k, v) in m {
        MapFindIsLookup(m, keyLen, k, v);
      }
    }
  }

  // ---------- The table ----------

  datatype Table = Table(hash: Bytes -> nat, keyLen: nat, buckets: seq<TMap>)

  ghost predicate Ok(t: Table) {
    && |t.buckets| > 0
    && forall b :: 0 <= b < |t.buckets| ==> BucketOk(t, b)
  }

  ghost predicate BucketOk(t: Table, b: nat)
    requires b < |t.buckets|
  {
    && Ordered(t.buckets[b], t.keyLen)
    && forall i :: 0 <= i < |t.buckets[b]| ==> t.hash(t.buckets[b][i].key) % |t.buckets| == b
  }

  function BucketOf(t: Table, key: Bytes): (b: nat)
    requires |t.buckets| > 0
    ensures b < |t.buckets|
  {
    t.hash(key) % |t.buckets|
  }

  function Find(t: Table, key: Bytes): Option<Bytes>
    requires |t.buckets| > 0
  {
    MapFind(t.buckets[BucketOf(t, key)], key)
  }

  function Insert(t: Table, key: Bytes, val: Bytes): Table
    requires |t.buckets| > 0
  {
    var b := BucketOf(t, key);
    t.(buckets := t.buckets[b := MapInsert(t.buckets[b], key, val)])
  }

  lemma {:induction false} InsertKeepsOk(t: Table, key: Bytes, val: Bytes)
    requires Ok(t) && |key| == t.keyLen
    ensures Ok(Insert(t, key, val))
  {
    var b, u := BucketOf(t, key), Insert(t, key, val);
    assert BucketOk(t, b);
    MapInsertKeepsOrder(t.buckets[b], t.keyLen, key, val);
    forall c | 0 <= c < |u.buckets| ensures BucketOk(u, c) {
      assert BucketOk(t, c);
    }
  }

  /** One insertion in the flat map: the first value of a key stays. */
  lemma {:induction false} InsertThenFind(t: Table, key: Bytes, val: Bytes, k: Bytes)
    requires Ok(t) && |key| == |k| == t.keyLen
    ensures Find(Insert(t, key, val), k) == if k == key && Find(t, key).None? then Some(val) else Find(t, k)
  {
    assert BucketOk(t, BucketOf(t, key));
    MapInsertThenFind(t.buckets[BucketOf(t, key)], t.keyLen, key, val, k);
  }

  /** What a run of insertions should leave: the value of the first one with that key. */
  function FirstInsert(log: seq<Entry>, k: Bytes): Option<Bytes> {
    if log == [] then None
    else if log[0].key == k then Some(log[0].val)
    else FirstInsert(log[1..], k)
  }

  function InsertAll(t: Table, log: seq<Entry>): (u: Table)
    requires |t.buckets| > 0
    ensures |u.buckets| == |t.buckets| && u.keyLen == t.keyLen
  {
    if log == [] then t
    else Insert(InsertAll(t, log[..|log| - 1]), log[|log| - 1].key, log[|log| - 1].val)
  }

  function Empty(hash: Bytes -> nat, keyLen: nat, size: nat): Table {
    Table(hash, keyLen, seq(size, _ => []))
  }

  lemma {:induction false} FirstInsertAppend(log: seq<Entry>, e: Entry, k: Bytes)
    ensures FirstInsert(log + [e], k)
      == if FirstInsert(log, k).Some? then FirstInsert(log, k)
         else if e.key == k then Some(e.val) else None
  {
    if log != [] {
      assert (log + [e])[1..] == log[1..] + [e];
      FirstInsertAppend(log[1..], e, k);
    }
  }

  /** The table refines a flat map in which the first insertion of a key wins, whatever the
      hash and the number of buckets. */
  lemma {:induction false} FindReturnsFirstInsert(hash: Bytes -> nat, keyLen: nat, size: nat, log: seq<Entry>, k: Bytes)
    requires size > 0 && |k| == keyLen && forall i :: 0 <= i < |log| ==> |log[i].key| == keyLen
    ensures var t := InsertAll(Empty(hash, keyLen, size), log); Ok(t) && Find(t, k) == FirstInsert(log, k)
    decreases |log|
  {
    if log != [] {
      var n := |log| - 1;
      var t, e := InsertAll(Empty(hash, keyLen, size), log[..n]), log[n];
      FindReturnsFirstInsert(hash, keyLen, size, log[..n], k);
      FindReturnsFirstInsert(hash, keyLen, size, log[..n], e.key);
      InsertKeepsOk(t, e.key, e.val);
      InsertThenFind(t, e.key, e.val, k);
      assert log == log[..n] + [e];
      FirstInsertAppend(log[..n], e, k);
    }
  }

  // ---------- The cursor ----------

  function Flatten(bs: seq<TMap>): seq<Entry> {
    if bs == [] then [] else bs[0] + Flatten(bs[1..])
  }

  /** A bucket, and an iterator in it: the key it stands on, or None for end(). Iterators
      of a map stay where they are when something is inserted. */
  datatype Cursor = Cursor(bucket: nat, iter: Option<Bytes>)

  /** The iterator that stands on the entry at a position. */
  function IterAt(m: TMap, i: nat): Option<Bytes> {
    if i < |m| then Some(m[i].key) else None
  }

  ghost predicate CursorOk(t: Table, c: Cursor) {
    && Ok(t) && c.bucket < |t.buckets|
    && (c.iter.Some? ==> |c.iter.value| == t.keyLen && HasKey(t.buckets[c.bucket], c.iter.value))
  }

  function Start(t: Table): Cursor
    requires |t.buckets| > 0
  {
    Cursor(0, IterAt(t.buckets[0], 0))
  }

  /** What a cursor has still to visit. */
  function Left(t: Table, c: Cursor): seq<Entry>
    requires c.bucket < |t.buckets|
  {
    var m := t.buckets[c.bucket];
    (if c.iter.Some? then m[LowerBound(m, c.iter.value)..] else []) + Flatten(t.buckets[c.bucket + 1..])
  }

  /** The next entry and where the cursor stands then, over any run of empty buckets. */
  ghost function NextEntry(t: Table, c: Cursor): Option<(Entry, Cursor)>
    requires CursorOk(t, c)
    decreases |t.buckets| - c.bucket
  {
    var m := t.buckets[c.bucket];
    if c.iter.Some? then
      var i := LowerBound(m, c.iter.value);
      Some((m[i], Cursor(c.bucket, IterAt(m, i + 1))))
    else if c.bucket + 1 < |t.buckets| then
      IterAtOk(t, c.bucket + 1, 0);
      NextEntry(t, Cursor(c.bucket + 1, IterAt(t.buckets[c.bucket + 1], 0)))
    else None
  }

  /** An iterator at a position stands on the entry there. */
  lemma {:induction false} IterAtOk(t: Table, b: nat, i: nat)
    requires Ok(t) && b < |t.buckets| && i <= |t.buckets[b]|
    ensures CursorOk(t, Cursor(b, IterAt(t.buckets[b], i)))
    ensures Left(t, Cursor(b, IterAt(t.buckets[b], i))) == t.buckets[b][i..] + Flatten(t.buckets[b + 1..])
  {
    assert BucketOk(t, b);
    var m := t.buckets[b];
    if i < |m| {
      LowerBoundSplits(m, t.keyLen, m[i].key);
      var n := LowerBound(m, m[i].key);
      if n < i {
        LessAsymmetric(m[n].key, m[i].key);
      } else if i < n {
        LessAsymmetric(m[i].key, m[i].key);
      }
      IncomparableIffPrefix(m[i].key, m[i].key);
    }
  }

  lemma {:induction false} TakeHead<T>(m: seq<T>, i: nat, rest: seq<T>)
    requires i < |m|
    ensures m[i..] + rest == [m[i]] + (m[i + 1..] + rest)
  {
    assert m[i..] == [m[i]] + m[i + 1..];
  }

  lemma {:induction false} NextHere(t: Table, c: Cursor)
    requires CursorOk(t, c) && c.iter.Some?
    ensures var m := t.buckets[c.bucket]; var i := LowerBound(m, c.iter.value);
      && i < |m| && CursorOk(t, Cursor(c.bucket, IterAt(m, i + 1)))
      && Left(t, c) == [m[i]] + Left(t, Cursor(c.bucket, IterAt(m, i + 1)))
  {
    var m := t.buckets[c.bucket];
    var i := LowerBound(m, c.iter.value);
    var rest := Flatten(t.buckets[c.bucket + 1..]);
    IterAtOk(t, c.bucket, i + 1);
    TakeHead(m, i, rest);
  }

  /** `NextEntry` takes the entries left off one by one. */
  lemma {:induction false} NextTakesFirst(t: Table, c: Cursor)
    requires CursorOk(t, c)
    ensures match NextEntry(t, c)
      case None => Left(t, c) == []
      case Some((e, c')) => CursorOk(t, c') && Left(t, c) == [e] + Left(t, c')
    decreases |t.buckets| - c.bucket
  {
    if c.iter.Some? {
      NextHere(t, c);
    } else if c.bucket + 1 < |t.buckets| {
      BucketDone(t, c);
      NextTakesFirst(t, Cursor(c.bucket + 1, IterAt(t.buckets[c.bucket + 1], 0)));
    } else {
      assert Flatten(t.buckets[c.bucket + 1..]) == [];
    }
  }

  /** At the end of a bucket the cursor has the following buckets left. */
  lemma {:induction false} BucketDone(t: Table, c: Cursor)
    requires CursorOk(t, c) && c.iter.None? && c.bucket + 1 < |t.buckets|
    ensures var c' := Cursor(c.bucket + 1, IterAt(t.buckets[c.bucket + 1], 0));
      CursorOk(t, c') && Left(t, c) == Left(t, c') && NextEntry(t, c) == NextEntry(t, c')
  {
    var b := c.bucket + 1;
    IterAtOk(t, b, 0);
    assert t.buckets[b..][0] == t.buckets[b] && t.buckets[b..][1..] == t.buckets[b + 1..];
    assert t.buckets[b][0..] == t.buckets[b];
  }

  lemma {:induction false} FlattenMember(bs: seq<TMap>, e: Entry)
    ensures e in Flatten(bs) <==> exists b :: 0 <= b < |bs| && e in bs[b]
  {
    if bs != [] {
      FlattenMember(bs[1..], e);
      assert forall b :: 1 <= b < |bs| ==> bs[b] == bs[1..][b - 1];
    }
  }

  ghost predicate DistinctKeys(s: seq<Entry>) {
    forall i, j :: 0 <= i < j < |s| ==> s[i].key != s[j].key
  }

  lemma DistinctConcat(s: seq<Entry>, t: seq<Entry>)
    requires DistinctKeys(s) && DistinctKeys(t)
    requires forall x, y :: x in s && y in t ==> x.key != y.key
    ensures DistinctKeys(s + t)
  {
  }

  lemma {:induction false} BucketsDistinct(t: Table, b: nat)
    requires Ok(t) && b <= |t.buckets|
    ensures DistinctKeys(Flatten(t.buckets[b..]))
    decreases |t.buckets| - b
  {
    if b < |t.buckets| {
      BucketsDistinct(t, b + 1);
      var m, rest := t.buckets[b], t.buckets[b + 1..];
      assert BucketOk(t, b);
      assert t.buckets[b..][0] == m && t.buckets[b..][1..] == rest;
      forall i, j | 0 <= i < j < |m| ensures m[i].key != m[j].key {
        LessAsymmetric(m[i].key, m[j].key);
      }
      forall x, y | x in m && y in Flatten(rest) ensures x.key != y.key {
        FlattenMember(rest, y);
        var c :| 0 <= c < |rest| && y in rest[c];
        assert BucketOk(t, b + 1 + c) && rest[c] == t.buckets[b + 1 + c];
      }
      DistinctConcat(m, Flatten(rest));
    }
  }

  /** A full scan visits each stored entry once: no key comes twice, and an entry is visited
      exactly when `Find` returns its value. */
  lemma {:induction false} ScanVisitsEachEntryOnce(t: Table)
    requires Ok(t)
    ensures CursorOk(t, Start(t)) && Left(t, Start(t)) == Flatten(t.buckets)
    ensures DistinctKeys(Flatten(t.buckets))
    ensures forall k, v :: |k| == t.keyLen ==> (Entry(k, v) in Flatten(t.buckets) <==> Find(t, k) == Some(v))
  {
    BucketsDistinct(t, 0);
    IterAtOk(t, 0, 0);
    assert t.buckets[0..] == t.buckets && t.buckets[0][0..] == t.buckets[0];
    forall k, v | |k| == t.keyLen
      ensures Entry(k, v) in Flatten(t.buckets) <==> Find(t, k) == Some(v)
    {
      FlattenMember(t.buckets, Entry(k, v));
      assert BucketOk(t, BucketOf(t, k));
      MapFindIsLookup(t.buckets[BucketOf(t, k)], t.keyLen, k, v);
      if b :| 0 <= b < |t.buckets| && Entry(k, v) in t.buckets[b] {
        assert BucketOk(t, b);
      }
    }
  }

  /** A scan goes through the buckets in order, and through each by the bytes of the keys,
      the smaller first. */
  lemma {:induction false} ScanIsInOrder(t: Table, i: nat, j: nat)
    requires Ok(t) && i < j < |Flatten(t.buckets)|
    ensures var a, b := Flatten(t.buckets)[i].key, Flatten(t.buckets)[j].key;
      || t.hash(a) % |t.buckets| < t.hash(b) % |t.buckets|
      || (t.hash(a) % |t.buckets| == t.hash(b) % |t.buckets|
          && exists k :: 0 <= k < |a| && k < |b| && a[..k] == b[..k] && a[k] < b[k])
  {
    assert t.buckets[0..] == t.buckets;
    OrderFrom(t, 0, i, j);
    LessIsBytewise(Flatten(t.buckets)[i].key, Flatten(t.buckets)[j].key);
  }

  lemma {:induction false} OrderFrom(t: Table, n: nat, i: nat, j: nat)
    requires Ok(t) && n <= |t.buckets| && i < j < |Flatten(t.buckets[n..])|
    ensures var es := Flatten(t.buckets[n..]);
      || BucketOf(t, es[i].key) < BucketOf(t, es[j].key)
      || (BucketOf(t, es[i].key) == BucketOf(t, es[j].key) && Less(es[i].key, es[j].key))
    decreases |t.buckets| - n
  {
    var es, m := Flatten(t.buckets[n..]), t.buckets[n];
    assert t.buckets[n..][0] == m && t.buckets[n..][1..] == t.buckets[n + 1..];
    assert BucketOk(t, n);
    if i >= |m| {
      OrderFrom(t, n + 1, i - |m|, j - |m|);
    } else if j >= |m| {
      FlattenMember(t.buckets[n + 1..], es[j]);
      var c :| 0 <= c < |t.buckets[n + 1..]| && es[j] in t.buckets[n + 1..][c];
      assert BucketOk(t, n + 1 + c) && t.buckets[n + 1..][c] == t.buckets[n + 1 + c];
    }
  }

  // ---------- Inserting while a scan is under way ----------

  /** What is left, entry by entry: the rest of the cursor's bucket and all later buckets. */
  lemma {:induction false} LeftMember(t: Table, c: Cursor, e: Entry)
    requires CursorOk(t, c)
    ensures e in Left(t, c) <==>
      || (c.iter.Some? && e in t.buckets[c.bucket] && !Less(e.key, c.iter.value))
      || exists b :: c.bucket < b < |t.buckets| && e in t.buckets[b]
  {
    var later := t.buckets[c.bucket + 1..];
    FlattenMember(later, e);
    assert forall b :: 0 <= b < |later| ==> later[b] == t.buckets[c.bucket + 1 + b];
    if b :| c.bucket < b < |t.buckets| && e in t.buckets[b] {
      assert e in later[b - c.bucket - 1];
    }
    if c.iter.Some? {
      assert BucketOk(t, c.bucket);
      RestMember(t.buckets[c.bucket], t.keyLen, c.iter.value, e);
    }
  }

  lemma {:induction false} RestMember(m: TMap, keyLen: nat, key: Bytes, e: Entry)
    requires Ordered(m, keyLen) && |key| == keyLen
    ensures e in m[LowerBound(m, key)..] <==> e in m && !Less(e.key, key)
  {
    LowerBoundSplits(m, keyLen, key);
    var n := LowerBound(m, key);
    if e in m {
      var i :| 0 <= i < |m| && m[i] == e;
      if i >= n {
        assert m[n..][i - n] == e;
        IncomparableIffPrefix(key, key);
        if Less(key, e.key) { LessAsymmetric(key, e.key); }
      }
    }
    if e in m[n..] {
      var i :| 0 <= i < |m[n..]| && m[n..][i] == e;
      assert m[n + i] == e;
      IncomparableIffPrefix(key, key);
      if Less(key, e.key) { LessAsymmetric(key, e.key); }
    }
  }

  lemma {:induction false} StoredKeyLen(t: Table, e: Entry)
    requires Ok(t) && e in Flatten(t.buckets)
    ensures |e.key| == t.keyLen
  {
    FlattenMember(t.buckets, e);
    var b :| 0 <= b < |t.buckets| && e in t.buckets[b];
    assert BucketOk(t, b);
  }

  lemma {:induction false} LeftIsStored(t: Table, c: Cursor, e: Entry)
    requires CursorOk(t, c) && e in Left(t, c)
    ensures e in Flatten(t.buckets)
  {
    LeftMember(t, c, e);
    FlattenMember(t.buckets, e);
  }

  /** An insertion stores its entry if the key is new, and loses none. */
  lemma {:induction false} InsertMember(t: Table, key: Bytes, val: Bytes, b: nat, e: Entry)
    requires Ok(t) && |key| == t.keyLen && b < |t.buckets|
    ensures e in Insert(t, key, val).buckets[b] <==>
      || e in t.buckets[b]
      || (b == BucketOf(t, key) && Find(t, key).None? && e == Entry(key, val))
  {
    var m := t.buckets[b];
    var i := LowerBound(m, key);
    assert m == m[..i] + m[i..];
  }

  /** The key would come at or behind the cursor's iterator, or in a later bucket. */
  ghost predicate Ahead(t: Table, c: Cursor, key: Bytes)
    requires |t.buckets| > 0
  {
    || BucketOf(t, key) > c.bucket
    || (BucketOf(t, key) == c.bucket && c.iter.Some? && !Less(key, c.iter.value))
  }

  /** `e` is what an insertion stores. */
  ghost predicate Stores(t: Table, key: Bytes, val: Bytes, e: Entry)
    requires |t.buckets| > 0
  {
    Find(t, key).None? && e == Entry(key, val)
  }

  lemma {:induction false} IteratorStays(t: Table, key: Bytes, val: Bytes, c: Cursor)
    requires CursorOk(t, c) && |key| == t.keyLen
    ensures CursorOk(Insert(t, key, val), c)
  {
    InsertKeepsOk(t, key, val);
    if c.iter.Some? {
      assert BucketOk(t, c.bucket);
      MapInsertThenFind(t.buckets[c.bucket], t.keyLen, key, val, c.iter.value);
    }
  }

  lemma {:induction false} LeftAfterInsert(t: Table, key: Bytes, val: Bytes, c: Cursor, e: Entry)
    requires CursorOk(t, c) && |key| == t.keyLen
    ensures e in Left(Insert(t, key, val), c) <==>
      e in Left(t, c) || (Stores(t, key, val, e) && Ahead(t, c, key))
  {
    var u := Insert(t, key, val);
    IteratorStays(t, key, val, c);
    LeftMember(t, c, e);
    LeftMember(u, c, e);
    forall b | 0 <= b < |t.buckets|
      ensures e in u.buckets[b] <==> e in t.buckets[b] || (b == BucketOf(t, key) && Stores(t, key, val, e))
    {
      InsertMember(t, key, val, b, e);
    }
  }

  /** An insertion leaves the iterators of a scan where they are, and the new entry joins
      what is left exactly when its place is ahead of them. */
  lemma {:induction false} InsertKeepsCursor(t: Table, key: Bytes, val: Bytes, c: Cursor)
    requires CursorOk(t, c) && |key| == t.keyLen
    ensures CursorOk(Insert(t, key, val), c)
    ensures forall e :: e in Left(Insert(t, key, val), c) <==>
      e in Left(t, c) || (Stores(t, key, val, e) && Ahead(t, c, key))
  {
    IteratorStays(t, key, val, c);
    forall e
      ensures e in Left(Insert(t, key, val), c) <==>
        e in Left(t, c) || (Stores(t, key, val, e) && Ahead(t, c, key))
    {
      LeftAfterInsert(t, key, val, c, e);
    }
  }

  datatype ScanOp = Put(key: Bytes, val: Bytes) | Visit

  /** A scan under way: what it has visited, and whether it has run out. `due` is what it
      owes: the entries stored when it began and those inserted ahead of it since. */
  datatype Tour = Tour(table: Table, cursor: Cursor, visited: seq<Entry>, finished: bool, due: seq<Entry>)

  /** Whether the scan would still come to a key that is inserted now. */
  ghost predicate Awaited(x: Tour, key: Bytes)
    requires |x.table.buckets| > 0
  {
    !x.finished && Find(x.table, key).None? && Ahead(x.table, x.cursor, key)
  }

  /** Once run out, the scan is not asked again. */
  ghost function TourStep(x: Tour, op: ScanOp): Tour
    requires CursorOk(x.table, x.cursor)
  {
    match op
    case Put(key, val) =>
      x.(table := Insert(x.table, key, val),
         due := if Awaited(x, key) then x.due + [Entry(key, val)] else x.due)
    case Visit =>
      if x.finished then x
      else
        match NextEntry(x.table, x.cursor)
        case None => x.(finished := true)
        case Some((e, c)) => x.(cursor := c, visited := x.visited + [e])
  }

  ghost predicate OpOk(op: ScanOp, keyLen: nat) {
    op.Put? ==> |op.key| == keyLen
  }

  ghost predicate OpsOk(ops: seq<ScanOp>, keyLen: nat) {
    forall i :: 0 <= i < |ops| ==> OpOk(ops[i], keyLen)
  }

  lemma {:induction false} StepKeepsCursor(x: Tour, op: ScanOp)
    requires CursorOk(x.table, x.cursor) && OpOk(op, x.table.keyLen)
    ensures CursorOk(TourStep(x, op).table, TourStep(x, op).cursor)
    ensures TourStep(x, op).table.keyLen == x.table.keyLen
  {
    match op
    case Put(key, val) => IteratorStays(x.table, key, val, x.cursor);
    case Visit => NextTakesFirst(x.table, x.cursor);
  }

  ghost function Begin(t0: Table): (x: Tour)
    requires Ok(t0)
    ensures x.table == t0 && CursorOk(x.table, x.cursor)
  {
    IterAtOk(t0, 0, 0);
    Tour(t0, Start(t0), [], false, Flatten(t0.buckets))
  }

  /** A run of insertions and visits. */
  ghost function Resume(x: Tour, ops: seq<ScanOp>): (y: Tour)
    requires CursorOk(x.table, x.cursor) && OpsOk(ops, x.table.keyLen)
    ensures CursorOk(y.table, y.cursor) && y.table.keyLen == x.table.keyLen
    decreases |ops|
  {
    if ops == [] then x
    else
      assert OpOk(ops[0], x.table.keyLen);
      StepKeepsCursor(x, ops[0]);
      Resume(TourStep(x, ops[0]), ops[1..])
  }

  /** The visited entries are stored, those and the ones left have distinct keys, and
      together they are the entries due. */
  ghost predicate Touring(x: Tour) {
    && CursorOk(x.table, x.cursor)
    && DistinctKeys(x.visited)
    && (forall v, e :: v in x.visited && e in Left(x.table, x.cursor) ==> v.key != e.key)
    && (forall v :: v in x.visited ==> v in Flatten(x.table.buckets))
    && (forall e :: e in x.due <==> e in x.visited || (!x.finished && e in Left(x.table, x.cursor)))
  }

  lemma {:induction false} InsertKeepsStored(t: Table, key: Bytes, val: Bytes, e: Entry)
    requires Ok(t) && |key| == t.keyLen && e in Flatten(t.buckets)
    ensures e in Flatten(Insert(t, key, val).buckets) && (Find(t, key).None? ==> e.key != key)
  {
    FlattenMember(t.buckets, e);
    FlattenMember(Insert(t, key, val).buckets, e);
    var b :| 0 <= b < |t.buckets| && e in t.buckets[b];
    InsertMember(t, key, val, b, e);
    ScanVisitsEachEntryOnce(t);
    StoredKeyLen(t, e);
    assert e == Entry(e.key, e.val);
  }

  lemma {:induction false} PutKeepsTour(x: Tour, key: Bytes, val: Bytes)
    requires Touring(x) && |key| == x.table.keyLen
    ensures Touring(TourStep(x, Put(key, val)))
  {
    InsertKeepsCursor(x.table, key, val, x.cursor);
    forall v | v in x.visited
      ensures v in Flatten(Insert(x.table, key, val).buckets) && (Find(x.table, key).None? ==> v.key != key)
    {
      InsertKeepsStored(x.table, key, val, v);
    }
  }

  lemma {:induction false} LeftDistinct(t: Table, c: Cursor)
    requires CursorOk(t, c)
    ensures DistinctKeys(Left(t, c))
  {
    BucketsDistinct(t, c.bucket);
    var bs := t.buckets[c.bucket..];
    assert bs[0] == t.buckets[c.bucket] && bs[1..] == t.buckets[c.bucket + 1..];
    var m := bs[0];
    var n := if c.iter.Some? then LowerBound(m, c.iter.value) else |m|;
    assert Left(t, c) == Flatten(bs)[n..];
  }

  lemma {:induction false} VisitKeepsTour(x: Tour)
    requires Touring(x) && !x.finished
    ensures Touring(TourStep(x, Visit))
  {
    NextTakesFirst(x.table, x.cursor);
    LeftDistinct(x.table, x.cursor);
    match NextEntry(x.table, x.cursor)
    case None =>
    case Some((e, c)) =>
      var l, l' := Left(x.table, x.cursor), Left(x.table, c);
      assert l[0] == e && l[1..] == l';
      LeftIsStored(x.table, x.cursor, e);
      DistinctConcat(x.visited, [e]);
      forall f | f in l' ensures f.key != e.key && f in l {
        var i :| 0 <= i < |l'| && l'[i] == f;
        assert l[i + 1] == f;
      }
  }

  lemma {:induction false} StepKeepsTour(x: Tour, op: ScanOp)
    requires Touring(x) && OpOk(op, x.table.keyLen)
    ensures Touring(TourStep(x, op))
  {
    match op
    case Put(key, val) => PutKeepsTour(x, key, val);
    case Visit => if !x.finished { VisitKeepsTour(x); }
  }

  lemma {:induction false} BeginsTour(t0: Table)
    requires Ok(t0)
    ensures Touring(Begin(t0))
  {
    ScanVisitsEachEntryOnce(t0);
  }

  lemma {:induction false} RunKeepsTour(x: Tour, ops: seq<ScanOp>)
    requires Touring(x) && OpsOk(ops, x.table.keyLen)
    ensures Touring(Resume(x, ops))
    decreases |ops|
  {
    if ops != [] {
      assert OpOk(ops[0], x.table.keyLen);
      StepKeepsCursor(x, ops[0]);
      StepKeepsTour(x, ops[0]);
      RunKeepsTour(TourStep(x, ops[0]), ops[1..]);
    }
  }

  lemma {:induction false} StepSettles(x: Tour, op: ScanOp, e: Entry)
    requires CursorOk(x.table, x.cursor) && OpOk(op, x.table.keyLen) && e in Flatten(x.table.buckets)
    ensures e in Flatten(TourStep(x, op).table.buckets)
    ensures e in TourStep(x, op).due <==> e in x.due
  {
    if op.Put? {
      InsertKeepsStored(x.table, op.key, op.val, e);
    }
  }

  /** A scan runs out: after one visit for each entry left, the next one finds nothing. */
  lemma {:induction false} ScanRunsOut(x: Tour, ops: seq<ScanOp>)
    requires CursorOk(x.table, x.cursor) && OpsOk(ops, x.table.keyLen)
    requires |ops| > |Left(x.table, x.cursor)| && forall i :: 0 <= i < |ops| ==> ops[i] == Visit
    ensures Resume(x, ops).finished
    decreases |ops|
  {
    NextTakesFirst(x.table, x.cursor);
    StepKeepsCursor(x, Visit);
    if x.finished || NextEntry(x.table, x.cursor).None? {
      StaysFinished(TourStep(x, Visit), ops[1..]);
    } else {
      ScanRunsOut(TourStep(x, Visit), ops[1..]);
    }
  }

  lemma {:induction false} StaysFinished(x: Tour, ops: seq<ScanOp>)
    requires CursorOk(x.table, x.cursor) && OpsOk(ops, x.table.keyLen) && x.finished
    ensures Resume(x, ops).finished
    decreases |ops|
  {
    if ops != [] {
      assert OpOk(ops[0], x.table.keyLen);
      StepKeepsCursor(x, ops[0]);
      StaysFinished(TourStep(x, ops[0]), ops[1..]);
    }
  }

  /** An entry once stored is due or not for good. */
  lemma {:induction false} StoredIsSettled(x: Tour, ops: seq<ScanOp>, e: Entry)
    requires CursorOk(x.table, x.cursor) && OpsOk(ops, x.table.keyLen) && e in Flatten(x.table.buckets)
    ensures e in Flatten(Resume(x, ops).table.buckets)
    ensures e in Resume(x, ops).due <==> e in x.due
    decreases |ops|
  {
    if ops != [] {
      assert OpOk(ops[0], x.table.keyLen);
      StepKeepsCursor(x, ops[0]);
      StepSettles(x, ops[0], e);
      StoredIsSettled(TourStep(x, ops[0]), ops[1..], e);
    }
  }

  lemma {:induction false} StoredIsFound(t: Table, e: Entry)
    requires Ok(t) && e in Flatten(t.buckets)
    ensures Find(t, e.key) == Some(e.val)
  {
    ScanVisitsEachEntryOnce(t);
    StoredKeyLen(t, e);
    assert e == Entry(e.key, e.val);
  }

  /** A scan survives any insertions made while it is under way: it never visits a key
      twice, visits nothing that is not stored, and when it runs out it has visited every
      entry that was there when it began. */
  lemma {:induction false} ScanSurvivesInserts(t0: Table, ops: seq<ScanOp>)
    requires Ok(t0) && OpsOk(ops, t0.keyLen)
    ensures var x := Resume(Begin(t0), ops);
      && DistinctKeys(x.visited)
      && (forall e :: e in x.visited ==> Find(x.table, e.key) == Some(e.val))
      && (x.finished ==> forall e :: e in Flatten(t0.buckets) ==> e in x.visited)
  {
    var x := Resume(Begin(t0), ops);
    BeginsTour(t0);
    RunKeepsTour(Begin(t0), ops);
    forall e | e in x.visited ensures Find(x.table, e.key) == Some(e.val) {
      StoredIsFound(x.table, e);
    }
    forall e | e in Flatten(t0.buckets) ensures e in x.due {
      StoredIsSettled(Begin(t0), ops, e);
    }
  }

  /** A new entry is stored, and due exactly when the scan awaits its key. */
  lemma {:induction false} JustStored(x: Tour, key: Bytes, val: Bytes)
    requires Touring(x) && |key| == x.table.keyLen && Find(x.table, key).None?
    ensures var y := TourStep(x, Put(key, val));
      Entry(key, val) in Flatten(y.table.buckets) && (Entry(key, val) in y.due <==> Awaited(x, key))
  {
    var t, e := x.table, Entry(key, val);
    InsertKeepsOk(t, key, val);
    InsertMember(t, key, val, BucketOf(t, key), e);
    FlattenMember(Insert(t, key, val).buckets, e);
    if e in x.due {
      if e !in x.visited { LeftIsStored(t, x.cursor, e); }
      InsertKeepsStored(t, key, val, e);
    }
  }

  /** Of the entries inserted meanwhile, a scan that has run out has visited exactly those
      that came ahead of it. */
  lemma {:induction false} ScanMeetsWhatComesAhead(t0: Table, ops: seq<ScanOp>, key: Bytes, val: Bytes,
          later: seq<ScanOp>)
    requires Ok(t0) && OpsOk(ops, t0.keyLen) && OpsOk(later, t0.keyLen)
    requires |key| == t0.keyLen && Find(Resume(Begin(t0), ops).table, key).None?
    ensures var x := Resume(Begin(t0), ops); var y := TourStep(x, Put(key, val));
      && CursorOk(y.table, y.cursor) && y.table.keyLen == t0.keyLen
      && var z := Resume(y, later);
         z.finished ==> (Entry(key, val) in z.visited <==> !x.finished && Ahead(x.table, x.cursor, key))
  {
    var x := Resume(Begin(t0), ops);
    var y := TourStep(x, Put(key, val));
    BeginsTour(t0);
    RunKeepsTour(Begin(t0), ops);
    StepKeepsCursor(x, Put(key, val));
    PutKeepsTour(x, key, val);
    JustStored(x, key, val);
    StoredIsSettled(y, later, Entry(key, val));
    RunKeepsTour(y, later);
  }
}
