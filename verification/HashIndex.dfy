/** The hash index and the array of indexes, as the program's two classes. */
module HashIndex {
  import opened Common
  import opened HashTable

  class CIndex {
    const m_Size: nat
    const m_keyLen: nat
    const m_ValLen: nat
    const m_HashFunc: Bytes -> nat
    var m_VecMap: seq<TMap>
    // the scan: a bucket and two iterators of it, the second one being end()
    var m_SearchHashVal: nat
    var m_begin_iter: Option<Bytes>
    var m_end_iter: Option<Bytes>

    ghost function Contents(): Table
      reads this
    {
      Table(m_HashFunc, m_keyLen, m_VecMap)
    }

    ghost predicate Valid()
      reads this
    {
      m_Size == |m_VecMap| && Ok(Contents())
    }

    ghost function Position(): Cursor
      reads this
    {
      Cursor(m_SearchHashVal, m_begin_iter)
    }

    /** A scan is under way and has not run out. */
    ghost predicate Scanning()
      reads this
    {
      Valid() && CursorOk(Contents(), Position()) && m_end_iter.None?
    }

    ghost function Remaining(): seq<Entry>
      requires Scanning()
      reads this
    {
      Left(Contents(), Position())
    }

    constructor (iSize: nat, iKeyLen: nat, iValLen: nat, hashFunc: Bytes -> nat)
      requires iSize > 0
      ensures Valid() && Contents() == Empty(hashFunc, iKeyLen, iSize) && m_ValLen == iValLen
    {
      m_Size := iSize;
      m_keyLen := iKeyLen;
      m_ValLen := iValLen;
      m_HashFunc := hashFunc;
      m_VecMap := seq(iSize, _ => []);
      m_SearchHashVal, m_begin_iter, m_end_iter := 0, None, None;
    }

    /** The first `m_keyLen` bytes at `key` are the key, the first `m_ValLen` at `val` the
        value; both are copied. A scan under way goes on from where it stands. */
    method Insert(key: Bytes, val: Bytes)
      requires Valid() && |key| >= m_keyLen && |val| >= m_ValLen
      modifies this`m_VecMap
      ensures Valid()
      ensures Contents() == HashTable.Insert(old(Contents()), key[..m_keyLen], val[..m_ValLen])
      ensures old(Scanning()) ==> Scanning() && Position() == old(Position())
    {
      var vecKey := key[..m_keyLen];
      InsertKeepsOk(Contents(), vecKey, val[..m_ValLen]);
      if CursorOk(Contents(), Position()) {
        InsertKeepsCursor(Contents(), vecKey, val[..m_ValLen], Position());
      }
      var hashCode := m_HashFunc(vecKey);
      var hashVal := hashCode % m_Size;
      var buffer := val[..m_ValLen];
      m_VecMap := m_VecMap[hashVal := MapInsert(m_VecMap[hashVal], vecKey, buffer)];
    }

    method Find(key: Bytes) returns (val: Option<Bytes>)
      requires Valid() && |key| >= m_keyLen
      ensures val == HashTable.Find(Contents(), key[..m_keyLen])
    {
      var vecKey := key[..m_keyLen];
      var hashCode := m_HashFunc(vecKey);
      var hashVal := hashCode % m_Size;
      var iter := LowerBound(m_VecMap[hashVal], vecKey);
      if iter < |m_VecMap[hashVal]| && !Less(vecKey, m_VecMap[hashVal][iter].key) {
        val := Some(m_VecMap[hashVal][iter].val);
      } else {
        val := None;
      }
    }

    method Scan()
      requires Valid()
      modifies this`m_SearchHashVal, this`m_begin_iter, this`m_end_iter
      ensures Scanning() && Position() == Start(Contents()) && Remaining() == Flatten(m_VecMap)
    {
      ScanVisitsEachEntryOnce(Contents());
      m_SearchHashVal := 0;
      m_begin_iter := IterAt(m_VecMap[m_SearchHashVal], 0);
      m_end_iter := None;
    }

    /** The loop of `Next`: on to the first bucket that is not exhausted, if there is one. */
    method SkipEmpty() returns (more: bool)
      requires Scanning()
      modifies this`m_SearchHashVal, this`m_begin_iter, this`m_end_iter
      ensures Valid()
      ensures if more then
                && Scanning() && m_begin_iter.Some?
                && NextEntry(Contents(), Position()) == old(NextEntry(Contents(), Position()))
              else old(NextEntry(Contents(), Position())).None?
    {
      ghost var t, c := Contents(), Position();
      while m_begin_iter == m_end_iter
        invariant Scanning() && NextEntry(t, Position()) == NextEntry(t, c)
        decreases m_Size - m_SearchHashVal
      {
        m_SearchHashVal := m_SearchHashVal + 1;
        if m_SearchHashVal == m_Size {
          return false;
        }
        BucketDone(t, Cursor(m_SearchHashVal - 1, None));
        m_begin_iter := IterAt(m_VecMap[m_SearchHashVal], 0);
        m_end_iter := None;
      }
      return true;
    }

    /** The next value, skipping any run of empty buckets; None leaves the cursor past the
        last bucket. */
    method Next() returns (val: Option<Bytes>)
      requires Scanning()
      modifies this`m_SearchHashVal, this`m_begin_iter, this`m_end_iter
      ensures Valid()
      ensures match old(NextEntry(Contents(), Position()))
        case None => val.None? && old(Remaining()) == []
        case Some((e, c)) =>
          && val == Some(e.val) && Scanning() && Position() == c
          && old(Remaining()) == [e] + Remaining()
    {
      ghost var t, c := Contents(), Position();
      NextTakesFirst(t, c);
      var more := SkipEmpty();
      if !more {
        return None;
      }
      NextTakesFirst(t, Position());
      var m := m_VecMap[m_SearchHashVal];
      var i := LowerBound(m, m_begin_iter.value);
      val := Some(m[i].val);
      m_begin_iter := IterAt(m, i + 1);
    }

    /** Scan, then Next until it finds nothing more. */
    method ScanThrough() returns (vals: seq<Bytes>)
      requires Valid()
      modifies this`m_SearchHashVal, this`m_begin_iter, this`m_end_iter
      ensures Valid()
      ensures vals == Vals(Flatten(m_VecMap))
    {
      Scan();
      ghost var all := Remaining();
      ghost var done: nat := 0;
      vals := [];
      while true
        invariant Scanning() && done <= |all| && Remaining() == all[done..]
        invariant vals == Vals(all[..done])
        decreases |all| - done
      {
        ghost var left := Remaining();
        var val := Next();
        if val.None? {
          assert left == [] && all[..done] == all;
          break;
        }
        assert left[1..] == Remaining() && left != [];
        ValsStep(all, done);
        vals := vals + [val.value];
        done := done + 1;
      }
    }

    /** The values of a whole scan. `entries` are those they come from: exactly what `Find`
        knows, bucket by bucket, and in a bucket by the bytes of the keys, the smaller first. */
    method CollectAll() returns (vals: seq<Bytes>, ghost entries: seq<Entry>)
      requires Valid()
      modifies this`m_SearchHashVal, this`m_begin_iter, this`m_end_iter
      ensures Valid() && |vals| == |entries|
      ensures forall i :: 0 <= i < |vals| ==> vals[i] == entries[i].val && |entries[i].key| == m_keyLen
      ensures forall k, v :: |k| == m_keyLen ==> (Entry(k, v) in entries <==> HashTable.Find(Contents(), k) == Some(v))
      ensures forall i, j :: 0 <= i < j < |entries| ==>
        var a, b := entries[i].key, entries[j].key;
        || m_HashFunc(a) % m_Size < m_HashFunc(b) % m_Size
        || (m_HashFunc(a) % m_Size == m_HashFunc(b) % m_Size
            && exists k :: 0 <= k < |a| && k < |b| && a[..k] == b[..k] && a[k] < b[k])
    {
      vals := ScanThrough();
      entries := Flatten(m_VecMap);
      WhatAScanYields(Contents());
    }
  }

  function Vals(s: seq<Entry>): seq<Bytes> {
    seq(|s|, i requires 0 <= i < |s| => s[i].val)
  }

  lemma ValsStep(s: seq<Entry>, n: nat)
    requires n < |s|
    ensures Vals(s[..n + 1]) == Vals(s[..n]) + [s[n].val]
    ensures s[n..][0] == s[n] && s[n..][1..] == s[n + 1..]
  {
  }

  lemma {:induction false} WhatAScanYields(t: Table)
    requires Ok(t)
    ensures var es := Flatten(t.buckets);
      && (forall i :: 0 <= i < |es| ==> |es[i].key| == t.keyLen)
      && (forall k, v :: |k| == t.keyLen ==> (Entry(k, v) in es <==> HashTable.Find(t, k) == Some(v)))
      && (forall i, j :: 0 <= i < j < |es| ==>
            var a, b := es[i].key, es[j].key;
            || t.hash(a) % |t.buckets| < t.hash(b) % |t.buckets|
            || (t.hash(a) % |t.buckets| == t.hash(b) % |t.buckets|
                && exists k :: 0 <= k < |a| && k < |b| && a[..k] == b[..k] && a[k] < b[k]))
  {
    var es := Flatten(t.buckets);
    ScanVisitsEachEntryOnce(t);
    forall i | 0 <= i < |es| ensures |es[i].key| == t.keyLen {
      StoredKeyLen(t, es[i]);
    }
    forall i, j | 0 <= i < j < |es|
      ensures var a, b := es[i].key, es[j].key;
        || t.hash(a) % |t.buckets| < t.hash(b) % |t.buckets|
        || (t.hash(a) % |t.buckets| == t.hash(b) % |t.buckets|
            && exists k :: 0 <= k < |a| && k < |b| && a[..k] == b[..k] && a[k] < b[k])
    {
      ScanIsInOrder(t, i, j);
    }
  }

  datatype Code = SUCCESS | INDEX_HAS_EXISTED | INDEX_NOT_EXIST | NOT_FOUND

  class CHash {
    var m_HashSize: nat
    var m_HashIndex: seq<CIndex?>  // of length m_IndexCount

    ghost function Repr(): set<CIndex>
      reads this
    {
      set i | 0 <= i < |m_HashIndex| && m_HashIndex[i] != null :: m_HashIndex[i]
    }

    ghost predicate Valid()
      reads this, Repr()
    {
      && m_HashSize > 0
      && (forall i :: 0 <= i < |m_HashIndex| && m_HashIndex[i] != null ==> m_HashIndex[i].Valid())
      && (forall i, j :: 0 <= i < j < |m_HashIndex| && m_HashIndex[i] != null ==> m_HashIndex[i] != m_HashIndex[j])
    }

    ghost predicate Has(iIndex: nat)
      reads this
    {
      iIndex < |m_HashIndex| && m_HashIndex[iIndex] != null
    }

    constructor (iHashSize: nat)
      ensures Valid() && m_HashIndex == [] && m_HashSize == iHashSize / 1000 + 1
    {
      m_HashSize := iHashSize / 1000 + 1;
      m_HashIndex := [];
    }

    /** Grow the array if need be, and put an empty index into a slot that has none. */
    method BuildIndex(iIndex: nat, iKeyLen: nat, iValLen: nat, hashFunc: Bytes -> nat) returns (code: Code)
      requires Valid()
      modifies this`m_HashIndex
      ensures Valid()
      ensures code == if old(Has(iIndex)) then INDEX_HAS_EXISTED else SUCCESS
      ensures code != SUCCESS ==> m_HashIndex == old(m_HashIndex)
      ensures code == SUCCESS ==>
        && |m_HashIndex| == (if old(|m_HashIndex|) <= iIndex then iIndex + 1 else old(|m_HashIndex|))
        && fresh(m_HashIndex[iIndex])
        && m_HashIndex[iIndex].Contents() == Empty(hashFunc, iKeyLen, m_HashSize)
        && m_HashIndex[iIndex].m_ValLen == iValLen
        && forall i :: 0 <= i < |m_HashIndex| && i != iIndex ==>
             m_HashIndex[i] == if i < old(|m_HashIndex|) then old(m_HashIndex)[i] else null
    {
      if |m_HashIndex| <= iIndex {
        m_HashIndex := m_HashIndex + seq(iIndex + 1 - |m_HashIndex|, _ => null);
      } else {
        if m_HashIndex[iIndex] != null {
          return INDEX_HAS_EXISTED;
        }
      }
      var pHashIndex := new CIndex(m_HashSize, iKeyLen, iValLen, hashFunc);
      m_HashIndex := m_HashIndex[iIndex := pHashIndex];
      return SUCCESS;
    }

    /** Only the named index changes. */
    method Insert(iIndex: nat, key: Bytes, val: Bytes) returns (code: Code)
      requires Valid()
      requires Has(iIndex) ==> |key| >= m_HashIndex[iIndex].m_keyLen && |val| >= m_HashIndex[iIndex].m_ValLen
      modifies if Has(iIndex) then {m_HashIndex[iIndex]} else {}
      ensures Valid()
      ensures code == if Has(iIndex) then SUCCESS else INDEX_NOT_EXIST
      ensures Has(iIndex) ==> var p := m_HashIndex[iIndex];
        && p.Contents() == HashTable.Insert(old(p.Contents()), key[..p.m_keyLen], val[..p.m_ValLen])
        && (old(p.Scanning()) ==> p.Scanning() && p.Position() == old(p.Position()))
    {
      if iIndex >= |m_HashIndex| {
        return INDEX_NOT_EXIST;
      }
      var pHashIndex := m_HashIndex[iIndex];
      if pHashIndex == null {
        return INDEX_NOT_EXIST;
      }
      pHashIndex.Insert(key, val);
      return SUCCESS;
    }

    method Find(iIndex: nat, key: Bytes) returns (code: Code, val: Option<Bytes>)
      requires Valid()
      requires Has(iIndex) ==> |key| >= m_HashIndex[iIndex].m_keyLen
      ensures !Has(iIndex) ==> code == INDEX_NOT_EXIST && val.None?
      ensures Has(iIndex) ==> var p := m_HashIndex[iIndex];
        && val == HashTable.Find(p.Contents(), key[..p.m_keyLen])
        && code == if val.Some? then SUCCESS else NOT_FOUND
    {
      val := None;
      if iIndex >= |m_HashIndex| {
        return INDEX_NOT_EXIST, val;
      }
      var pHashIndex := m_HashIndex[iIndex];
      if pHashIndex == null {
        return INDEX_NOT_EXIST, val;
      }
      val := pHashIndex.Find(key);
      code := if val.Some? then SUCCESS else NOT_FOUND;
    }

    /** A scan of the whole store is a scan of index 0. */
    method Scan() returns (code: Code)
      requires Valid() && |m_HashIndex| > 0
      modifies if Has(0) then {m_HashIndex[0]} else {}
      ensures Valid()
      ensures code == if Has(0) then SUCCESS else INDEX_NOT_EXIST
      ensures Has(0) ==> var p := m_HashIndex[0];
        && p.Contents() == old(p.Contents())
        && p.Scanning() && p.Position() == Start(p.Contents()) && p.Remaining() == Flatten(p.m_VecMap)
    {
      var pHashIndex := m_HashIndex[0];
      if pHashIndex == null {
        return INDEX_NOT_EXIST;
      }
      pHashIndex.Scan();
      return SUCCESS;
    }

    method Next() returns (code: Code, val: Option<Bytes>)
      requires Valid() && |m_HashIndex| > 0
      requires Has(0) ==> m_HashIndex[0].Scanning()
      modifies if Has(0) then {m_HashIndex[0]} else {}
      ensures Valid()
      ensures code == if Has(0) then SUCCESS else INDEX_NOT_EXIST
      ensures !Has(0) ==> val.None?
      ensures Has(0) ==> var p := m_HashIndex[0];
        && p.Contents() == old(p.Contents())
        && match old(NextEntry(p.Contents(), p.Position()))
           case None => val.None? && old(p.Remaining()) == []
           case Some((e, c)) =>
             && val == Some(e.val) && p.Scanning() && p.Position() == c
             && old(p.Remaining()) == [e] + p.Remaining()
    {
      var pHashIndex := m_HashIndex[0];
      if pHashIndex == null {
        return INDEX_NOT_EXIST, None;
      }
      val := pHashIndex.Next();
      code := SUCCESS;
    }
  }
}
