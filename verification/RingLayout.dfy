/** The record ring of `ShareMemory` at the level of laps and positions.

    A `Ring` holds the control block together with the records that live in the
    segment; `Image` says which bytes the data area then holds. The class in
    ShareMemory.dfy works on the bytes and is proved to follow `Write` and `Read`
    below, so what is proved here about runs holds of the byte-level code.
 */
module RingLayout {
  import opened Common

  const INT_MAX := 0x7fff_ffff
  const CONTROL_SIZE := 24  // sizeof(SHM_CONTROL): six 4-byte ints
  const HEAD_SIZE := 8      // sizeof(SHM_DATA_HEAD): two 4-byte ints

  type Int32 = x: int | -0x8000_0000 <= x <= 0x7fff_ffff

  // ---------- Records and their bytes ----------

  datatype Head = Head(iFlag: Int32, iSize: Int32)

  datatype Record = Record(iFlag: Int32, payload: seq<Byte>)

  /** The records the code is written for: a positive payload size that fits an int. */
  predicate Good(r: Record) {
    0 < |r.payload| <= INT_MAX
  }

  function Total(r: Record): nat {
    HEAD_SIZE + |r.payload|
  }

  function EncodeInt(x: Int32): (s: seq<Byte>)
    ensures |s| == 4
  {
    var u := if x < 0 then x + 0x1_0000_0000 else x;
    [u % 0x100, u / 0x100 % 0x100, u / 0x1_0000 % 0x100, u / 0x100_0000]
  }

  function DecodeInt(s: seq<Byte>): Int32
    requires |s| == 4
  {
    var u: int := s[0] as int + 0x100 * s[1] as int + 0x1_0000 * s[2] as int + 0x100_0000 * s[3] as int;
    if u <= INT_MAX then u else u - 0x1_0000_0000
  }

  function EncodeHead(h: Head): (s: seq<Byte>)
    ensures |s| == HEAD_SIZE
  {
    EncodeInt(h.iFlag) + EncodeInt(h.iSize)
  }

  function DecodeHead(s: seq<Byte>): Head
    requires |s| == HEAD_SIZE
  {
    Head(DecodeInt(s[..4]), DecodeInt(s[4..]))
  }

  function Encode(r: Record): (s: seq<Byte>)
    requires Good(r)
    ensures |s| == Total(r)
  {
    EncodeHead(Head(r.iFlag, |r.payload|)) + r.payload
  }

  ghost predicate AllGood(q: seq<Record>) {
    forall i :: 0 <= i < |q| ==> Good(q[i])
  }

  ghost function Size(q: seq<Record>): nat {
    if q == [] then 0 else Total(q[0]) + Size(q[1..])
  }

  ghost function Zeros(n: int): (s: seq<Byte>)
    ensures |s| == if n < 0 then 0 else n
    ensures forall i :: 0 <= i < |s| ==> s[i] == 0
  {
    if n < 0 then [] else seq(n, _ => 0)
  }

  lemma {:induction false} HeadRoundTrip(h: Head)
    ensures DecodeHead(EncodeHead(h)) == h
  {
    IntRoundTrip(h.iFlag);
    IntRoundTrip(h.iSize);
    var s := EncodeHead(h);
    assert s[..4] == EncodeInt(h.iFlag) && s[4..] == EncodeInt(h.iSize);
  }

  lemma {:induction false} IntRoundTrip(x: Int32)
    ensures DecodeInt(EncodeInt(x)) == x
  {
    var u: int := if x < 0 then x + 0x1_0000_0000 else x;
    assert u == u % 0x100 + 0x100 * (u / 0x100);
    assert u / 0x100 == u / 0x100 % 0x100 + 0x100 * (u / 0x1_0000);
    assert u / 0x1_0000 == u / 0x1_0000 % 0x100 + 0x100 * (u / 0x100_0000);
  }

  /** The bytes of a record: its flag and its size, least byte first, and the payload. */
  lemma {:induction false} RecordBytes(r: Record)
    requires Good(r)
    ensures var b := Encode(r);
      && b[0] as int + 0x100 * b[1] as int + 0x1_0000 * b[2] as int + 0x100_0000 * b[3] as int
           == (if r.iFlag < 0 then r.iFlag + 0x1_0000_0000 else r.iFlag)
      && b[4] as int + 0x100 * b[5] as int + 0x1_0000 * b[6] as int + 0x100_0000 * b[7] as int == |r.payload|
      && b[8..] == r.payload
  {
    LeastByteFirst(r.iFlag);
    LeastByteFirst(|r.payload|);
    var f, n := EncodeInt(r.iFlag), EncodeInt(|r.payload|);
    assert Encode(r)[..4] == f && Encode(r)[4..8] == n && Encode(r)[8..] == r.payload;
    forall i | 0 <= i < 4 ensures Encode(r)[i] == f[i] && Encode(r)[4 + i] == n[i] {
      assert Encode(r)[..4][i] == f[i] && Encode(r)[4..8][i] == n[i];
    }
  }

  lemma {:induction false} LeastByteFirst(x: Int32)
    ensures var b := EncodeInt(x);
      b[0] as int + 0x100 * b[1] as int + 0x1_0000 * b[2] as int + 0x100_0000 * b[3] as int
        == if x < 0 then x + 0x1_0000_0000 else x
  {
    IntRoundTrip(x);
  }

  lemma {:induction false} SizeAppend(q: seq<Record>, r: Record)
    ensures Size(q + [r]) == Size(q) + Total(r)
  {
    if q != [] {
      assert (q + [r])[1..] == q[1..] + [r];
      SizeAppend(q[1..], r);
    }
  }

  // ---------- Bytes in memory ----------

  /** The bytes `b` lie in `m` at position `k`. */
  ghost predicate At(m: seq<Byte>, k: int, b: seq<Byte>) {
    0 <= k && k + |b| <= |m| && m[k..k + |b|] == b
  }

  ghost predicate ZeroOn(m: seq<Byte>, lo: int, hi: int) {
    forall i :: 0 <= i < |m| && lo <= i < hi ==> m[i] == 0
  }

  /** `m'` is `m` with `b` copied over it at position `k`. */
  ghost predicate Patched(m: seq<Byte>, m': seq<Byte>, k: int, b: seq<Byte>) {
    && |m'| == |m| && At(m', k, b)
    && forall i :: 0 <= i < |m| && !(k <= i < k + |b|) ==> m'[i] == m[i]
  }

  /** The bytes at `k` read as the record `r`. */
  ghost predicate RecordAt(m: seq<Byte>, k: int, r: Record) {
    && 0 <= k && k + Total(r) <= |m| && Good(r)
    && DecodeHead(m[k..k + HEAD_SIZE]) == Head(r.iFlag, |r.payload|)
    && m[k + HEAD_SIZE..k + Total(r)] == r.payload
  }

  /** The records `q` lie one behind the other from `k` on. */
  ghost predicate LapAt(m: seq<Byte>, k: int, q: seq<Record>)
    decreases |q|
  {
    q == [] || (RecordAt(m, k, q[0]) && LapAt(m, k + Total(q[0]), q[1..]))
  }

  lemma SplitSlice(m: seq<Byte>, k: int, i: int, n: int)
    requires 0 <= k && 0 <= i <= n && k + n <= |m|
    ensures m[k..k + n][..i] == m[k..k + i] && m[k..k + n][i..] == m[k + i..k + n]
  {
  }

  /** What `writeData` stores is what `readData` reads. */
  lemma {:induction false} StoredRecordReadsBack(m: seq<Byte>, k: int, r: Record)
    requires Good(r) && At(m, k, Encode(r))
    ensures RecordAt(m, k, r)
  {
    var h := Head(r.iFlag, |r.payload|);
    HeadRoundTrip(h);
    SplitSlice(m, k, HEAD_SIZE, Total(r));
    assert Encode(r)[..HEAD_SIZE] == EncodeHead(h) && Encode(r)[HEAD_SIZE..] == r.payload;
  }

  lemma {:induction false} LapSingle(m: seq<Byte>, k: int, r: Record)
    requires RecordAt(m, k, r)
    ensures LapAt(m, k, [] + [r])
  {
    assert ([] + [r])[1..] == [];
  }

  lemma {:induction false} LapLonger(m: seq<Byte>, k: int, q: seq<Record>, r: Record)
    requires q != [] && RecordAt(m, k, q[0]) && LapAt(m, k + Total(q[0]), q[1..] + [r])
    ensures LapAt(m, k, q + [r])
  {
    assert (q + [r])[1..] == q[1..] + [r];
  }

  lemma {:induction false} LapAppend(m: seq<Byte>, k: int, q: seq<Record>, j: int, r: Record)
    requires LapAt(m, k, q) && j == k + Size(q) && RecordAt(m, j, r)
    ensures LapAt(m, k, q + [r])
    decreases |q|
  {
    if q == [] {
      LapSingle(m, k, r);
    } else {
      LapAppend(m, k + Total(q[0]), q[1..], j, r);
      LapLonger(m, k, q, r);
    }
  }

  /** A lap depends on no byte outside it. */
  lemma {:induction false} LapFrame(m: seq<Byte>, m': seq<Byte>, k: int, q: seq<Record>)
    requires 0 <= k && LapAt(m, k, q) && |m'| == |m|
    requires forall i :: 0 <= i < |m| && k <= i < k + Size(q) ==> m'[i] == m[i]
    ensures LapAt(m', k, q)
    decreases |q|
  {
    if q != [] {
      var r := q[0];
      assert m'[k..k + HEAD_SIZE] == m[k..k + HEAD_SIZE];
      assert m'[k + HEAD_SIZE..k + Total(r)] == m[k + HEAD_SIZE..k + Total(r)];
      LapFrame(m, m', k + Total(r), q[1..]);
    }
  }

  /** What `judegeRead` asks of the bytes at the reader's position: that more than a header
      is left, that the size in the header is positive and that the record ends inside the
      segment. */
  predicate HeadTest(m: seq<Byte>, k: nat) {
    && k + HEAD_SIZE < |m|
    && var h := DecodeHead(m[k..k + HEAD_SIZE]);
       h.iSize > 0 && k + HEAD_SIZE + h.iSize <= |m|
  }

  lemma ZeroHead(m: seq<Byte>, k: nat)
    requires k + HEAD_SIZE <= |m| && ZeroOn(m, k, k + HEAD_SIZE)
    ensures DecodeHead(m[k..k + HEAD_SIZE]).iSize == 0
  {
  }

  /** Only one sequence of records can lie at `k` with nothing but zeros up to `hi`. */
  lemma {:induction false} LapIsUnique(m: seq<Byte>, k: nat, hi: int, q: seq<Record>, q': seq<Record>)
    requires LapAt(m, k, q) && ZeroOn(m, k + Size(q), hi) && k + Size(q) <= hi <= |m|
    requires LapAt(m, k, q') && ZeroOn(m, k + Size(q'), hi) && k + Size(q') <= hi
    ensures q == q'
    decreases |q|
  {
    if q != [] && q' != [] {
      assert q == [q[0]] + q[1..] && q' == [q[0]] + q'[1..];
      LapIsUnique(m, k + Total(q[0]), hi, q[1..], q'[1..]);
    } else if q != [] || q' != [] {
      ZeroHead(m, k);
    }
  }

  // ---------- The ring ----------

  /** `lap1` is what the reader meets first, at `readPos`. While `iDir` is negative the
      writer is one lap ahead and `lap2` lies at `startPos`.
   */
  datatype Ring = Ring(iDir: int, startPos: int, endPos: int, readPos: int, writePos: int,
                       lap1: seq<Record>, lap2: seq<Record>)

  ghost function Queue(s: Ring): seq<Record> {
    s.lap1 + s.lap2
  }

  /** Where the reader's lap ends; the code stores it nowhere. */
  ghost function LapEnd(s: Ring): int {
    s.readPos + Size(s.lap1)
  }

  ghost predicate Wf(s: Ring) {
    && 0 <= s.startPos <= s.readPos
    && s.startPos <= s.writePos
    && LapEnd(s) <= s.endPos <= INT_MAX
    && AllGood(s.lap1) && AllGood(s.lap2)
    && (s.iDir == 1 || s.iDir == -1)
    && (s.iDir > 0 ==> s.lap2 == [] && s.writePos == LapEnd(s))
    && (s.iDir < 0 ==> s.writePos == s.startPos + Size(s.lap2) <= s.readPos)
  }

  /** The records `p` lie at `a` and `q` at `k`, with zeros behind each. */
  ghost predicate TwoLaps(m: seq<Byte>, a: int, p: seq<Record>, k: int, q: seq<Record>) {
    && LapAt(m, a, p)
    && ZeroOn(m, a + Size(p), k)
    && LapAt(m, k, q)
    && ZeroOn(m, k + Size(q), |m|)
  }

  /** The bytes of the segment behind the control block: the live records, and zero
      everywhere else. */
  ghost predicate Holds(m: seq<Byte>, s: Ring)
    requires Wf(s)
  {
    |m| == s.endPos && TwoLaps(m, s.startPos, s.lap2, s.readPos, s.lap1)
  }

  ghost function Fresh(size: int): Ring {
    Ring(1, CONTROL_SIZE, size, CONTROL_SIZE, CONTROL_SIZE, [], [])
  }

  /** The guards compare positions; in a well-formed state they tell the lap direction, and
      on one lap whether there is anything to read. */
  lemma GuardsTellDirection(s: Ring)
    requires Wf(s)
    ensures s.iDir > 0 <==> s.writePos > s.readPos || (s.iDir > 0 && s.writePos == s.readPos)
    ensures s.iDir < 0 <==> s.writePos < s.readPos || (s.iDir < 0 && s.writePos == s.readPos)
    ensures s.iDir > 0 ==> (s.writePos > s.readPos <==> s.lap1 != [])
  {
  }

  function JudgeWrite(s: Ring, total: int): (Ring, bool) {
    if s.iDir > 0 then
      if s.writePos + total <= s.endPos then (s, true)
      else (s.(writePos := s.startPos, iDir := -s.iDir), s.startPos + total <= s.readPos)
    else
      (s, s.writePos + total <= s.readPos)
  }

  /** One call of `writeData`: the state it leaves, and whether it accepted the record. */
  function Write(s: Ring, r: Record): (Ring, bool) {
    var (t, ok) := JudgeWrite(s, Total(r));
    if ok then (Append(t, r), true) else (t, false)
  }

  function Append(t: Ring, r: Record): Ring {
    var u := t.(writePos := t.writePos + Total(r));
    if t.iDir > 0 then u.(lap1 := t.lap1 + [r]) else u.(lap2 := t.lap2 + [r])
  }

  function JudgeRead(s: Ring): (Ring, bool) {
    var t := if s.iDir < 0 && s.lap1 == []
             then s.(readPos := s.startPos, iDir := -s.iDir, lap1 := s.lap2, lap2 := [])
             else s;
    (t, t.lap1 != [])
  }

  /** One call of `readData`: the state it leaves, and the record it returned, if any. */
  function Read(s: Ring): (Ring, Option<Record>) {
    var (t, ok) := JudgeRead(s);
    if ok then (Remove(t), Some(t.lap1[0])) else (t, None)
  }

  function Remove(t: Ring): Ring
    requires t.lap1 != []
  {
    t.(readPos := t.readPos + Total(t.lap1[0]), lap1 := t.lap1[1..])
  }

  // ---------- One call refines one queue operation ----------

  /** There is room at the writer's position, or, from the lead of the same lap, in
      front of the reader. */
  ghost predicate Fits(s: Ring, total: int) {
    if s.iDir > 0 then s.writePos + total <= s.endPos || s.startPos + total <= s.readPos
    else s.writePos + total <= s.readPos
  }

  ghost predicate Room(t: Ring, total: int) {
    t.writePos + total <= if t.iDir > 0 then t.endPos else t.readPos
  }

  lemma {:induction false} AppendRecord(t: Ring, r: Record)
    requires Wf(t) && Good(r) && Room(t, Total(r))
    ensures Wf(Append(t, r)) && Queue(Append(t, r)) == Queue(t) + [r]
  {
    if t.iDir > 0 {
      SizeAppend(t.lap1, r);
      assert t.lap1 + [r] + [] == t.lap1 + [] + [r];
    } else {
      SizeAppend(t.lap2, r);
      assert t.lap1 + (t.lap2 + [r]) == t.lap1 + t.lap2 + [r];
    }
  }

  lemma RemoveKeepsWf(t: Ring)
    requires Wf(t) && t.lap1 != []
    ensures Wf(Remove(t))
  {
  }

  lemma RemoveRecord(t: Ring)
    requires Wf(t) && t.lap1 != []
    ensures Wf(Remove(t)) && [t.lap1[0]] + Queue(Remove(t)) == Queue(t)
  {
  }

  lemma {:induction false} WriteRefinesEnqueue(s: Ring, r: Record)
    requires Wf(s) && Good(r)
    ensures var (t, ok) := Write(s, r);
      && Wf(t) && t.startPos == s.startPos && t.endPos == s.endPos
      && (ok <==> Fits(s, Total(r)))
      && Queue(t) == if ok then Queue(s) + [r] else Queue(s)
  {
    var (t, ok) := JudgeWrite(s, Total(r));
    if ok {
      AppendRecord(t, r);
    }
  }

  lemma {:induction false} ReadRefinesDequeue(s: Ring)
    requires Wf(s)
    ensures var (t, out) := Read(s);
      && Wf(t) && t.startPos == s.startPos && t.endPos == s.endPos
      && (out.None? <==> Queue(s) == [])
      && (out.None? ==> Queue(t) == [])
      && (out.Some? ==> [out.value] + Queue(t) == Queue(s))
  {
    var (t, ok) := JudgeRead(s);
    assert Queue(t) == Queue(s);
    if ok {
      RemoveRecord(t);
    }
  }

  // ---------- The bytes follow ----------

  /** Moving the writer or the reader to the next lap needs no change of the bytes. */
  lemma TurnsKeepBytes(m: seq<Byte>, s: Ring, total: int)
    requires Wf(s) && Holds(m, s) && total > HEAD_SIZE
    ensures Wf(JudgeWrite(s, total).0) && Holds(m, JudgeWrite(s, total).0)
    ensures Wf(JudgeRead(s).0) && Holds(m, JudgeRead(s).0)
  {
  }

  lemma RoomBounds(t: Ring, total: int)
    requires Wf(t) && Room(t, total)
    ensures 0 <= t.writePos && t.writePos + total <= t.endPos
  {
  }

  lemma {:induction false} LapPatched(m: seq<Byte>, m': seq<Byte>, k: int, q: seq<Record>, r: Record)
    requires 0 <= k && LapAt(m, k, q) && Good(r) && Patched(m, m', k + Size(q), Encode(r))
    ensures LapAt(m', k, q + [r]) && Size(q + [r]) == Size(q) + Total(r)
  {
    LapFrame(m, m', k, q);
    StoredRecordReadsBack(m', k + Size(q), r);
    LapAppend(m', k, q, k + Size(q), r);
    SizeAppend(q, r);
  }

  /** A record laid down behind the second of two laps, or behind the first. */
  lemma {:induction false} SecondLapGrows(m: seq<Byte>, m': seq<Byte>, a: int, p: seq<Record>, k: int, q: seq<Record>,
          r: Record)
    requires 0 <= a && a + Size(p) <= k && TwoLaps(m, a, p, k, q)
    requires Good(r) && Patched(m, m', k + Size(q), Encode(r))
    ensures TwoLaps(m', a, p, k, q + [r])
  {
    LapPatched(m, m', k, q, r);
    LapFrame(m, m', a, p);
  }

  lemma {:induction false} FirstLapGrows(m: seq<Byte>, m': seq<Byte>, a: int, p: seq<Record>, k: int, q: seq<Record>,
          r: Record)
    requires 0 <= a && a + Size(p) + Total(r) <= k && TwoLaps(m, a, p, k, q)
    requires Good(r) && Patched(m, m', a + Size(p), Encode(r))
    ensures TwoLaps(m', a, p + [r], k, q)
  {
    LapPatched(m, m', a, p, r);
    LapFrame(m, m', k, q);
  }

  lemma {:induction false} AppendToLap1(m: seq<Byte>, m': seq<Byte>, t: Ring, r: Record)
    requires Wf(t) && Wf(Append(t, r)) && Good(r) && Room(t, Total(r)) && Holds(m, t) && t.iDir > 0
    requires Patched(m, m', t.writePos, Encode(r))
    ensures Holds(m', Append(t, r))
  {
    SecondLapGrows(m, m', t.startPos, t.lap2, t.readPos, t.lap1, r);
  }

  lemma {:induction false} AppendToLap2(m: seq<Byte>, m': seq<Byte>, t: Ring, r: Record)
    requires Wf(t) && Wf(Append(t, r)) && Good(r) && Room(t, Total(r)) && Holds(m, t) && t.iDir < 0
    requires Patched(m, m', t.writePos, Encode(r))
    ensures Holds(m', Append(t, r))
  {
    FirstLapGrows(m, m', t.startPos, t.lap2, t.readPos, t.lap1, r);
  }

  /** Copying a record in at the writer's position gives the bytes of the next state, and
      only zero bytes are lost. */
  lemma {:induction false} AppendBytes(m: seq<Byte>, m': seq<Byte>, t: Ring, r: Record)
    requires Wf(t) && Good(r) && Room(t, Total(r)) && Holds(m, t)
    requires Patched(m, m', t.writePos, Encode(r))
    ensures ZeroOn(m, t.writePos, t.writePos + Total(r))
    ensures Wf(Append(t, r)) && Holds(m', Append(t, r))
  {
    AppendRecord(t, r);
    if t.iDir > 0 {
      AppendToLap1(m, m', t, r);
    } else {
      AppendToLap2(m, m', t, r);
    }
  }

  lemma {:induction false} LapCleared(m: seq<Byte>, m': seq<Byte>, k: int, q: seq<Record>)
    requires LapAt(m, k, q) && q != [] && Patched(m, m', k, Zeros(Total(q[0])))
    ensures LapAt(m', k + Total(q[0]), q[1..]) && ZeroOn(m', k, k + Total(q[0]))
  {
    var n := Total(q[0]);
    LapFrame(m, m', k + n, q[1..]);
    forall i | k <= i < k + n ensures m'[i] == 0 {
      assert m'[i] == m'[k..k + n][i - k];
    }
  }

  /** Copying zeros in leaves every zero byte zero, those below `hi` included. */
  lemma {:induction false} ZerosKept(m: seq<Byte>, m': seq<Byte>, k: int, n: nat, lo: int, hi: int)
    requires Patched(m, m', k, Zeros(n)) && ZeroOn(m, lo, hi)
    ensures ZeroOn(m', lo, hi)
  {
    forall i | 0 <= i < |m'| && lo <= i < hi ensures m'[i] == 0 {
      if k <= i < k + n {
        assert m'[i] == m'[k..k + n][i - k];
      }
    }
  }

  lemma {:induction false} LapsCleared(m: seq<Byte>, m': seq<Byte>, a: int, p: seq<Record>, k: int, q: seq<Record>)
    requires 0 <= a && a + Size(p) <= k && q != [] && TwoLaps(m, a, p, k, q)
    requires Patched(m, m', k, Zeros(Total(q[0])))
    ensures TwoLaps(m', a, p, k + Total(q[0]), q[1..])
  {
    var n := Total(q[0]);
    LapFrame(m, m', a, p);
    LapCleared(m, m', k, q);
    ZerosKept(m, m', k, n, a + Size(p), k);
    ZerosKept(m, m', k, n, k + Size(q), |m|);
  }

  lemma {:induction false} RecordCleared(m: seq<Byte>, m': seq<Byte>, t: Ring)
    requires Wf(t) && t.lap1 != [] && Wf(Remove(t)) && Holds(m, t)
    requires Patched(m, m', t.readPos, Zeros(Total(t.lap1[0])))
    ensures Holds(m', Remove(t))
  {
    LapsCleared(m, m', t.startPos, t.lap2, t.readPos, t.lap1);
  }

  /** Clearing the first record of the reader's lap gives the bytes of the next state. */
  lemma {:induction false} RemoveBytes(m: seq<Byte>, m': seq<Byte>, t: Ring)
    requires Wf(t) && t.lap1 != [] && Holds(m, t)
    requires Patched(m, m', t.readPos, Zeros(Total(t.lap1[0])))
    ensures Wf(Remove(t)) && Holds(m', Remove(t))
  {
    RemoveKeepsWf(t);
    RecordCleared(m, m', t);
  }

  /** The header test stands in for the end-of-lap marker the segment does not have: when
      the bytes hold the state it passes exactly when the reader's lap has a record left. */
  lemma ZeroHeadMarksLapEnd(m: seq<Byte>, s: Ring)
    requires Wf(s) && Holds(m, s)
    ensures HeadTest(m, s.readPos) <==> s.readPos < LapEnd(s)
    ensures s.readPos < LapEnd(s) <==> s.lap1 != []
  {
  }

  /** What `judegeRead` relies on, in one place. */
  lemma {:induction false} JudgeReadFacts(m: seq<Byte>, s: Ring)
    requires Wf(s) && Holds(m, s)
    ensures var t := JudgeRead(s).0;
      && Wf(t) && Holds(m, t)
      && (t.iDir > 0 ==> (t.writePos > t.readPos <==> t.lap1 != []))
    ensures HeadTest(m, s.readPos) <==> s.lap1 != []
    ensures s.iDir < 0 <==> s.writePos < s.readPos || (s.iDir < 0 && s.writePos == s.readPos)
  {
    TurnsKeepBytes(m, s, HEAD_SIZE + 1);
    ZeroHeadMarksLapEnd(m, s);
    GuardsTellDirection(s);
    GuardsTellDirection(JudgeRead(s).0);
  }

  /** Nothing beside the control block and the bytes is needed to know the records, so a
      second process that attaches the segment sees the same queue. */
  lemma {:induction false} SegmentDeterminesQueue(m: seq<Byte>, s: Ring, s': Ring)
    requires Wf(s) && Wf(s') && Holds(m, s) && Holds(m, s')
    requires s.(lap1 := [], lap2 := []) == s'.(lap1 := [], lap2 := [])
    ensures s == s'
  {
    LapIsUnique(m, s.readPos, s.endPos, s.lap1, s'.lap1);
    if s.iDir < 0 {
      LapIsUnique(m, s.startPos, s.writePos, s.lap2, s'.lap2);
    }
  }

  // ---------- Runs ----------

  datatype Op = WriteOp(r: Record) | ReadOp

  datatype Trace = Trace(ring: Ring, accepted: seq<Record>, delivered: seq<Record>)

  function Step(tr: Trace, op: Op): Trace {
    match op
    case WriteOp(r) =>
      var (t, ok) := Write(tr.ring, r);
      Trace(t, if ok then tr.accepted + [r] else tr.accepted, tr.delivered)
    case ReadOp =>
      var (t, out) := Read(tr.ring);
      Trace(t, tr.accepted, if out.Some? then tr.delivered + [out.value] else tr.delivered)
  }

  /** Any interleaving of calls, accepted or refused, with the records that went in and
      came out. */
  function Run(s: Ring, ops: seq<Op>): Trace {
    if ops == [] then Trace(s, [], []) else Step(Run(s, ops[..|ops| - 1]), ops[|ops| - 1])
  }

  ghost predicate GoodOps(ops: seq<Op>) {
    forall i :: 0 <= i < |ops| && ops[i].WriteOp? ==> Good(ops[i].r)
  }

  lemma {:induction false} StepIsFifo(q: seq<Record>, tr: Trace, op: Op)
    requires Wf(tr.ring) && (op.WriteOp? ==> Good(op.r))
    requires q + tr.accepted == tr.delivered + Queue(tr.ring)
    ensures var tr' := Step(tr, op);
      && Wf(tr'.ring) && tr'.ring.startPos == tr.ring.startPos && tr'.ring.endPos == tr.ring.endPos
      && q + tr'.accepted == tr'.delivered + Queue(tr'.ring)
  {
    match op
    case WriteOp(r) =>
      WriteRefinesEnqueue(tr.ring, r);
      Shift(q, tr.accepted, tr.delivered, Queue(tr.ring), r);
    case ReadOp =>
      ReadRefinesDequeue(tr.ring);
      var (t, out) := Read(tr.ring);
      if out.Some? {
        assert tr.delivered + ([out.value] + Queue(t)) == tr.delivered + [out.value] + Queue(t);
      }
  }

  lemma {:induction false} Shift<T>(q: seq<T>, a: seq<T>, d: seq<T>, q': seq<T>, r: T)
    requires q + a == d + q'
    ensures q + (a + [r]) == d + (q' + [r])
  {
    assert q + (a + [r]) == q + a + [r];
  }

  /** Conservation over every run: what was queued or accepted, in order, is what was
      delivered followed by what is still queued. */
  lemma {:induction false} RunIsFifo(s: Ring, ops: seq<Op>)
    requires Wf(s) && GoodOps(ops)
    ensures var tr := Run(s, ops);
      && Wf(tr.ring) && tr.ring.startPos == s.startPos && tr.ring.endPos == s.endPos
      && Queue(s) + tr.accepted == tr.delivered + Queue(tr.ring)
  {
    if ops != [] {
      RunIsFifo(s, ops[..|ops| - 1]);
      StepIsFifo(Queue(s), Run(s, ops[..|ops| - 1]), ops[|ops| - 1]);
    }
  }

  /** From a fresh segment: what was read is a prefix of what was accepted, and the rest
      is what the segment holds. */
  lemma {:induction false} FreshRunIsFifo(size: int, ops: seq<Op>)
    requires CONTROL_SIZE <= size <= INT_MAX && GoodOps(ops)
    ensures var tr := Run(Fresh(size), ops); tr.accepted == tr.delivered + Queue(tr.ring)
    ensures var tr := Run(Fresh(size), ops); tr.delivered <= tr.accepted
  {
    RunIsFifo(Fresh(size), ops);
    var tr := Run(Fresh(size), ops);
    assert [] + tr.accepted == tr.accepted;
  }

  // ---------- The ring never locks up ----------

  ghost function Drained(s: Ring): Ring
    requires Wf(s)
    decreases |Queue(s)|
  {
    if Queue(s) == [] then s else ReadRefinesDequeue(s); Drained(Read(s).0)
  }

  lemma {:induction false} DrainingReadsSucceed(s: Ring)
    requires Wf(s)
    ensures var t := Drained(s);
      && Wf(t) && Queue(t) == [] && t.startPos == s.startPos && t.endPos == s.endPos
    decreases |Queue(s)|
  {
    if Queue(s) != [] {
      ReadRefinesDequeue(s);
      DrainingReadsSucceed(Read(s).0);
    }
  }

  /** On an empty ring, a record no larger than the data area is accepted at once, or
      after this one refusal and one refused read. A larger one is refused in every
      state. */
  lemma EmptyRingAccepts(s: Ring, r: Record)
    requires Wf(s) && Good(r)
    ensures Total(r) > s.endPos - s.startPos ==> !Write(s, r).1
    ensures Queue(s) == [] && Total(r) <= s.endPos - s.startPos && !Write(s, r).1 ==>
      var t := Write(s, r).0; Read(t).1.None? && Write(Read(t).0, r).1
  {
  }

  /** So from every state a run reaches, draining and at most two refusals make room. */
  lemma {:induction false} NeverLocksUp(size: int, ops: seq<Op>, r: Record)
    requires CONTROL_SIZE <= size <= INT_MAX && GoodOps(ops) && Good(r)
    ensures Wf(Run(Fresh(size), ops).ring)
    ensures var s := Drained(Run(Fresh(size), ops).ring);
      (Write(s, r).1 || Write(Read(Write(s, r).0).0, r).1) <==> Total(r) <= size - CONTROL_SIZE
  {
    RunIsFifo(Fresh(size), ops);
    var s := Run(Fresh(size), ops).ring;
    DrainingReadsSucceed(s);
    var d := Drained(s);
    EmptyRingAccepts(d, r);
    WriteRefinesEnqueue(d, r);
    ReadRefinesDequeue(Write(d, r).0);
    EmptyRingAccepts(Read(Write(d, r).0).0, r);
  }

  // ---------- What a call leaves room for ----------

  /** The positions after a write: the reader's stays. A record at the tail leaves the rest
      of the tail, and the front up to the reader, for the next one; once the tail is given
      up, by a record that did not fit there, only what is in front of the reader counts. */
  lemma WriteLeavesRoom(s: Ring, r: Record, n: int)
    requires Wf(s) && Good(r)
    ensures Write(s, r).0.readPos == s.readPos
    ensures Fits(Write(s, r).0, n) <==>
      var used := if Write(s, r).1 then Total(r) else 0;
      if s.iDir > 0 && s.writePos + Total(r) <= s.endPos
      then s.writePos + used + n <= s.endPos || s.startPos + n <= s.readPos
      else (if s.iDir > 0 then s.startPos else s.writePos) + used + n <= s.readPos
  {
  }

  /** The positions after a read: the writer's stays, and the room of the record read is
      given back in front of the reader. The tail counts again once the reader has come
      round to the writer's lap. */
  lemma ReadGivesRoom(s: Ring, n: int)
    requires Wf(s)
    ensures Read(s).0.writePos == s.writePos
    ensures Fits(Read(s).0, n) <==>
      var freed := if Read(s).1.Some? then Total(Read(s).1.value) else 0;
      if s.iDir < 0 && s.lap1 == [] then s.writePos + n <= s.endPos || n <= freed
      else if s.iDir > 0 then s.writePos + n <= s.endPos || s.startPos + n <= s.readPos + freed
      else s.writePos + n <= s.readPos + freed
  {
  }

  /** The records a run tries to write. */
  function Offered(ops: seq<Op>): seq<Record> {
    if ops == [] then []
    else
      var n := |ops| - 1;
      Offered(ops[..n]) + if ops[n].WriteOp? then [ops[n].r] else []
  }

  /** The segment is used to its end: while the records offered have room in it side by side,
      every one of them is accepted, whatever is read in between. */
  lemma {:induction false} WritesFillTheTail(s: Ring, ops: seq<Op>)
    requires Wf(s) && s.iDir > 0 && GoodOps(ops) && s.writePos + Size(Offered(ops)) <= s.endPos
    ensures var tr := Run(s, ops);
      && Wf(tr.ring) && tr.accepted == Offered(ops)
      && tr.ring.iDir > 0 && tr.ring.writePos == s.writePos + Size(Offered(ops)) && tr.ring.endPos == s.endPos
  {
    if ops != [] {
      var n := |ops| - 1;
      var before := Offered(ops[..n]);
      if ops[n].WriteOp? {
        SizeAppend(before, ops[n].r);
      } else {
        assert before + [] == before;
      }
      WritesFillTheTail(s, ops[..n]);
      RunIsFifo(s, ops);
    }
  }

  lemma {:induction false} FreshRunAcceptsAll(size: int, ops: seq<Op>)
    requires CONTROL_SIZE <= size <= INT_MAX && GoodOps(ops) && Size(Offered(ops)) <= size - CONTROL_SIZE
    ensures Run(Fresh(size), ops).accepted == Offered(ops)
  {
    WritesFillTheTail(Fresh(size), ops);
  }

  /** A refused write is not free: it gives up the tail of the segment, so a record that
      would have been accepted before can be refused after. This says exactly when. */
  lemma RefusalGivesUpTail(s: Ring, big: Record, r: Record)
    requires Wf(s) && Good(big) && Good(r) && !Write(s, big).1
    ensures Write(s, r).1 && !Write(Write(s, big).0, r).1 <==>
      s.iDir > 0 && s.writePos + Total(r) <= s.endPos && s.startPos + Total(r) > s.readPos
    ensures Write(Write(s, big).0, r).1 ==> Write(s, r).1
  {
  }

  lemma {:induction false} FirstWrite(r: Record)
    requires |r.payload| == 8
    ensures Run(Fresh(64), [WriteOp(r)]) == Trace(Ring(1, 24, 64, 24, 40, [r], []), [r], [])
  {
    assert [WriteOp(r)][..0] == [] && [] + [r] == [r];
    assert Write(Fresh(64), r) == (Ring(1, 24, 64, 24, 40, [r], []), true);
  }

  /** Such a loss, in a state the ring reaches with its first write: a segment of 64 bytes
      holds one record of 16, a record of 28 is refused, and a second one of 16 that still
      had room is refused after it. */
  lemma {:induction false} TailCanBeLost(small: Record, big: Record)
    requires |small.payload| == 8 && |big.payload| == 20
    ensures var s := Run(Fresh(64), [WriteOp(small)]).ring;
      !Write(s, big).1 && Write(s, small).1 && !Write(Write(s, big).0, small).1
  {
    FirstWrite(small);
  }
}
