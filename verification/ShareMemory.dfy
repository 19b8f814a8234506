/** The record ring as the program keeps it: a control block and a flat byte segment.
    There is no end-of-lap marker, no lock and no record count. The ghost fields name the
    records of the two laps; `Valid` says that the bytes are theirs and zero elsewhere.
 */
module ShareMemoryRing {
  import opened Common
  import opened RingLayout

  class ShareMemory {
    var iInitFlag: int
    var iDir: int
    var startPos: int
    var endPos: int
    var readPos: int
    var writePos: int
    const mem: array<Byte>
    ghost var ring: Ring  // the control block again, with the records of the two laps

    ghost predicate Valid()
      reads this, mem
    {
      && iInitFlag == 1
      && iDir == ring.iDir && startPos == ring.startPos && endPos == ring.endPos
      && readPos == ring.readPos && writePos == ring.writePos
      && Wf(ring) && Holds(mem[..], ring)
    }

    /** A segment the system has just created is filled with zeros. */
    constructor (size: nat)
      ensures fresh(mem) && mem.Length == size && iInitFlag == 0
      ensures forall i :: 0 <= i < size ==> mem[i] == 0
    {
      mem := new Byte[size](_ => 0);
      iInitFlag, iDir, startPos, endPos, readPos, writePos := 0, 0, 0, 0, 0, 0;
      ring := Fresh(size);
    }

    /** Attaching: the first process sets the control block up, a later one changes nothing. */
    method Init(iSize: int)
      requires iInitFlag == 1 ==> Valid()
      requires iInitFlag != 1 ==>
        && CONTROL_SIZE <= iSize == mem.Length <= INT_MAX
        && forall i :: 0 <= i < mem.Length ==> mem[i] == 0
      modifies this
      ensures Valid()
      ensures ring == if old(iInitFlag) == 1 then old(ring) else Fresh(iSize)
    {
      if iInitFlag != 1 {
        startPos := CONTROL_SIZE;
        endPos := iSize;
        readPos := startPos;
        writePos := startPos;
        iInitFlag := 1;
        iDir := 1;
        ring := Fresh(iSize);
      }
    }

    method Load(at: int, n: int) returns (b: seq<Byte>)
      requires 0 <= at && 0 <= n && at + n <= mem.Length
      ensures b == mem[..][at..at + n]
    {
      b := mem[at..at + n];
    }

    method Memcpy(at: int, b: seq<Byte>)
      requires 0 <= at && at + |b| <= mem.Length
      modifies mem
      ensures Patched(old(mem[..]), mem[..], at, b)
    {
      forall i | 0 <= i < |b| {
        mem[at + i] := b[i];
      }
      assert mem[..][at..at + |b|] == b;
    }

    /** `judegeWrite`: a test that also moves the writer to the next lap. */
    method JudgeWrite(head: Head) returns (ok: bool)
      requires Valid() && head.iSize > 0
      modifies this
      ensures Valid() && (ring, ok) == RingLayout.JudgeWrite(old(ring), head.iSize + HEAD_SIZE)
    {
      var iSize := head.iSize + HEAD_SIZE;
      TurnsKeepBytes(mem[..], ring, iSize);
      GuardsTellDirection(ring);
      ring := RingLayout.JudgeWrite(ring, iSize).0;
      if writePos > readPos || (iDir > 0 && writePos == readPos) {
        if writePos + iSize <= endPos {
          return true;
        } else {
          writePos := startPos;
          iDir := iDir * -1;
        }
      }
      if writePos < readPos {
        if writePos + iSize <= readPos {
          return true;
        } else {
          return false;
        }
      } else {
        return false;
      }
    }

    /** The part of the test that looks at the bytes. */
    method HeadIsRecord() returns (ok: bool)
      requires 0 <= readPos && endPos == mem.Length
      ensures ok == HeadTest(mem[..], readPos)
    {
      ok := false;
      if readPos + HEAD_SIZE < endPos {
        var bytes := Load(readPos, HEAD_SIZE);
        var head := DecodeHead(bytes);
        if head.iSize > 0 && readPos + HEAD_SIZE + head.iSize <= endPos {
          ok := true;
        }
      }
    }

    /** `judegeRead`: a test that also moves the reader to the next lap, on the strength of
        the bytes alone. */
    method JudgeRead() returns (ok: bool)
      requires Valid()
      modifies this
      ensures Valid() && (ring, ok) == RingLayout.JudgeRead(old(ring))
    {
      JudgeReadFacts(mem[..], ring);
      if writePos < readPos || (iDir < 0 && writePos == readPos) {
        var record := HeadIsRecord();
        if record {
          return true;
        } else {
          readPos := startPos;
          iDir := iDir * -1;
          ring := RingLayout.JudgeRead(ring).0;
        }
      }
      return writePos > readPos;
    }

    /** Copy a record in at the writer's position and move past it. */
    method Deposit(head: Head, payload: seq<Byte>)
      requires Valid() && 0 < head.iSize == |payload| && Room(ring, HEAD_SIZE + head.iSize)
      modifies this, mem
      ensures Valid() && ring == Append(old(ring), Record(head.iFlag, payload))
    {
      ghost var m, r := mem[..], Record(head.iFlag, payload);
      RoomBounds(ring, Total(r));
      Memcpy(writePos, EncodeHead(head) + payload);
      AppendBytes(m, mem[..], ring, r);
      ring := Append(ring, r);
      writePos := writePos + HEAD_SIZE + head.iSize;
    }

    /** `writeData`: a refusal returns false, and may still have moved the writer. */
    method WriteData(head: Head, content: seq<Byte>) returns (ok: bool)
      requires Valid() && 0 < head.iSize <= |content|
      modifies this, mem
      ensures Valid() && (ring, ok) == Write(old(ring), Record(head.iFlag, content[..head.iSize]))
    {
      ok := JudgeWrite(head);
      if ok {
        Deposit(head, content[..head.iSize]);
      }
    }

    /** The record the reader stands on, as the bytes say it. */
    method Peek() returns (head: Head, content: seq<Byte>)
      requires Valid() && ring.lap1 != []
      ensures Record(head.iFlag, content) == ring.lap1[0] && head.iSize == |content|
    {
      var bytes := Load(readPos, HEAD_SIZE);
      head := DecodeHead(bytes);
      content := Load(readPos + HEAD_SIZE, head.iSize);
    }

    /** Clear the record the reader stands on and move past it. */
    method Consume(n: nat)
      requires Valid() && ring.lap1 != [] && n == Total(ring.lap1[0])
      modifies this, mem
      ensures Valid() && ring == Remove(old(ring))
    {
      ghost var m := mem[..];
      var zeros: seq<Byte> := seq(n, _ => 0);
      assert zeros == Zeros(n);
      Memcpy(readPos, zeros);
      RemoveBytes(m, mem[..], ring);
      ring := Remove(ring);
      readPos := readPos + n;
    }

    /** `readData`: copies the record out, clears its bytes and moves on. */
    method ReadData() returns (out: Option<Record>)
      requires Valid()
      modifies this, mem
      ensures Valid() && (ring, out) == Read(old(ring))
    {
      var ok := JudgeRead();
      if ok {
        var head, content := Peek();
        Consume(HEAD_SIZE + head.iSize);
        out := Some(Record(head.iFlag, content));
      } else {
        out := None;
      }
    }
  }
}
