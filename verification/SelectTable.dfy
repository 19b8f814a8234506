/** The client table of the select-based server, and one turn of its loop after a select
    that succeeded. The scan over the clients stops as soon as it has met as many ready
    ones as select announced.
 */
module SelectTable {
  const MAX_ATTARCH_SIZE := 10

  datatype Outcome = Continue | AcceptFailed | TooManyClients

  ghost function Live(s: seq<int>): set<int> {
    set i | 0 <= i < |s| && s[i] >= 0 :: s[i]
  }

  ghost predicate NoTwice(s: seq<int>) {
    forall i, j :: 0 <= i < j < |s| && s[i] >= 0 ==> s[i] != s[j]
  }

  function FirstFree(s: seq<int>): (i: nat)
    ensures i <= |s| && (i < |s| ==> s[i] < 0)
    ensures forall k :: 0 <= k < i ==> s[k] >= 0
  {
    if s == [] || s[0] < 0 then 0 else 1 + FirstFree(s[1..])
  }

  /** Slot `k` holds a ready client whose peer has closed; `got` gives what read returns. */
  predicate Closes(fd: int, ready: set<int>, got: int -> int) {
    fd >= 0 && fd in ready && got(fd) == 0
  }

  /** The slots once those before `n` have been looked at. */
  function Served(s: seq<int>, ready: set<int>, got: int -> int, n: int): (r: seq<int>)
    ensures |r| == |s|
  {
    seq(|s|, k requires 0 <= k < |s| => if k < n && Closes(s[k], ready, got) then -1 else s[k])
  }

  /** The ready clients in slots before `n`. */
  ghost function Met(s: seq<int>, ready: set<int>, n: int): set<int> {
    set k | 0 <= k < |s| && k < n && s[k] >= 0 && s[k] in ready :: s[k]
  }

  predicate Hit(fd: int, ready: set<int>) {
    fd >= 0 && fd in ready
  }

  /** Looking at one more slot: what has been met, how many are still to come, and what
      becomes of the slot. */
  lemma {:induction false} ScanStep(s: seq<int>, ready: set<int>, got: int -> int, n: nat)
    requires n < |s| && NoTwice(s)
    ensures Met(s, ready, n + 1) == if Hit(s[n], ready) then Met(s, ready, n) + {s[n]} else Met(s, ready, n)
    ensures |ready - Met(s, ready, n + 1)| == |ready - Met(s, ready, n)| - if Hit(s[n], ready) then 1 else 0
    ensures Served(s, ready, got, n)[n] == s[n]
    ensures Served(s, ready, got, n + 1)
      == if Closes(s[n], ready, got) then Served(s, ready, got, n)[n := -1] else Served(s, ready, got, n)
  {
    MetStep(s, ready, n);
    if Hit(s[n], ready) {
      assert ready - Met(s, ready, n + 1) == ready - Met(s, ready, n) - {s[n]};
    }
  }

  lemma MetStep(s: seq<int>, ready: set<int>, n: nat)
    requires n < |s| && NoTwice(s)
    ensures Met(s, ready, n + 1) == if Hit(s[n], ready) then Met(s, ready, n) + {s[n]} else Met(s, ready, n)
    ensures s[n] >= 0 ==> s[n] !in Met(s, ready, n)
  {
  }

  lemma {:induction false} LiveUpdate(s: seq<int>, i: nat, fd: int)
    requires i < |s| && NoTwice(s)
    requires fd < 0 || (s[i] < 0 && fd !in Live(s))
    ensures Live(s[i := fd]) == Live(s) - (if s[i] >= 0 then {s[i]} else {}) + if fd >= 0 then {fd} else {}
    ensures NoTwice(s[i := fd])
  {
    var r := s[i := fd];
    forall x
      ensures x in Live(r) <==> x in Live(s) - (if s[i] >= 0 then {s[i]} else {}) + if fd >= 0 then {fd} else {}
    {
      if x in Live(r) {
        var k :| 0 <= k < |r| && r[k] >= 0 && r[k] == x;
        if k != i { assert s[k] == x; }
      }
      if x in Live(s) && x != s[i] {
        var k :| 0 <= k < |s| && s[k] >= 0 && s[k] == x;
        assert r[k] == x;
      }
      if x == fd >= 0 { assert r[i] == x; }
    }
    forall k, j | 0 <= k < j < |r| && r[k] >= 0 ensures r[k] != r[j] {
      if k == i || j == i {
        assert fd >= 0 ==> forall m :: 0 <= m < |s| && s[m] >= 0 ==> s[m] in Live(s);
      }
    }
  }

  /** The scan of `s` is about to look at slot `i`: `now` is the state of the slots, `served`
      are the clients served so far, and `nready` ready ones are still to come. */
  ghost predicate Scanning(s: seq<int>, ready: set<int>, got: int -> int, i: nat,
                           now: seq<int>, served: set<int>, nready: int) {
    && now == Served(s, ready, got, i) && served == Met(s, ready, i)
    && nready == |ready - served| && NoTwice(s)
  }

  lemma NotTheListener(s: seq<int>, i: nat, fd: int)
    requires i < |s| && fd !in Live(s) && fd >= 0
    ensures s[i] != fd
  {
  }

  lemma NothingMet(s: seq<int>, ready: set<int>, got: int -> int)
    ensures Met(s, ready, 0) == {} && Served(s, ready, got, 0) == s
    ensures |ready| == 0 ==> Served(s, ready, got, |s|) == s
    ensures ready - {} == ready
  {
  }

  lemma ScanStarts(s: seq<int>, ready: set<int>, got: int -> int)
    requires NoTwice(s)
    ensures Scanning(s, ready, got, 0, s, {}, |ready|)
  {
  }

  /** Having met as many as there are, or having looked at every live slot, the scan has met
      all, and looking further would change nothing. */
  lemma ScanEnds(s: seq<int>, ready: set<int>, got: int -> int, n: nat,
                                    now: seq<int>, served: set<int>, nready: int, maxi: int)
    requires Scanning(s, ready, got, n, now, served, nready) && ready <= Live(s)
    requires forall k :: 0 <= k < |s| && s[k] >= 0 ==> k <= maxi
    requires nready == 0 || n > maxi
    ensures served == ready && now == Served(s, ready, got, |s|)
  {
  }

  /** A full scan drops exactly the ready clients whose read returned 0. */
  lemma {:induction false} LiveAfterScan(s: seq<int>, ready: set<int>, got: int -> int)
    requires NoTwice(s)
    ensures Live(Served(s, ready, got, |s|)) == set fd | fd in Live(s) && !(fd in ready && got(fd) == 0)
  {
    var r := Served(s, ready, got, |s|);
    forall fd | fd in Live(s) && !(fd in ready && got(fd) == 0) ensures fd in Live(r) {
      var k :| 0 <= k < |s| && s[k] >= 0 && s[k] == fd;
      assert r[k] == fd;
    }
  }

  /** `s` with `accepted` put into the slot `at`, where `at` is a slot, and scanned: who is
      left, and in which slot. */
  lemma {:induction false} AfterTurn(s: seq<int>, at: nat, accepted: int, rset: set<int>, iServFd: int, got: int -> int)
    requires NoTwice(s) && 0 <= iServFd && iServFd !in Live(s) && accepted != iServFd && accepted !in rset
    requires at <= |s| && (at < |s| ==> s[at] < 0 <= accepted && accepted !in Live(s))
    ensures var u := if at < |s| then s[at := accepted] else s;
      var r := Served(u, rset - {iServFd}, got, |s|);
      && (forall k :: 0 <= k < |s| ==>
            r[k] == (if k == at then accepted
                     else if s[k] >= 0 && s[k] in rset && got(s[k]) == 0 then -1
                     else s[k]))
      && Live(r) == (set fd | fd in Live(s) && !(fd in rset && got(fd) == 0))
                    + if at < |s| then {accepted} else {}
  {
    var u := if at < |s| then s[at := accepted] else s;
    if at < |s| {
      LiveUpdate(s, at, accepted);
    }
    LiveAfterScan(u, rset - {iServFd}, got);
    forall k | 0 <= k < |s| ensures s[k] != iServFd {
      NotTheListener(s, k, iServFd);
    }
  }

  class Server {
    const iServFd: int
    const client: array<int>
    var maxFd: int
    var maxi: int
    var allset: set<int>
    ghost var slots: seq<int>  // the contents of client

    ghost predicate Valid()
      reads this, client
    {
      && client.Length == MAX_ATTARCH_SIZE && slots == client[..]
      && iServFd >= 0 && iServFd !in Live(slots) && NoTwice(slots)
      && allset == {iServFd} + Live(slots)
      && -1 <= maxi < |slots|
      && (forall i :: 0 <= i < |slots| && slots[i] >= 0 ==> i <= maxi)
      && (forall fd :: fd in allset ==> fd <= maxFd)
    }

    constructor (iServFd: int)
      requires iServFd >= 0
      ensures Valid() && this.iServFd == iServFd && Live(slots) == {}
    {
      this.iServFd := iServFd;
      client := new int[MAX_ATTARCH_SIZE](_ => -1);
      slots := seq(MAX_ATTARCH_SIZE, _ => -1);
      maxFd := iServFd;
      maxi := -1;
      allset := {iServFd};
    }

    /** Take a new connection into the first free slot. */
    method Admit(iClinFd: int) returns (ok: bool)
      requires Valid() && iClinFd >= 0 && iClinFd !in allset
      modifies this, client
      ensures Valid()
      ensures maxFd == if ok && iClinFd > old(maxFd) then iClinFd else old(maxFd)
      ensures maxi == if ok && FirstFree(old(slots)) > old(maxi) then FirstFree(old(slots)) else old(maxi)
      ensures ok <==> FirstFree(old(slots)) < MAX_ATTARCH_SIZE
      ensures slots == if ok then old(slots)[FirstFree(old(slots)) := iClinFd] else old(slots)
      ensures allset == if ok then old(allset) + {iClinFd} else old(allset)
    {
      ghost var s := slots;
      var i := 0;
      while i < MAX_ATTARCH_SIZE && client[i] >= 0
        invariant 0 <= i <= MAX_ATTARCH_SIZE && forall k :: 0 <= k < i ==> slots[k] >= 0
      {
        i := i + 1;
      }
      assert i == FirstFree(s);
      if i == MAX_ATTARCH_SIZE {
        return false;
      }
      LiveUpdate(slots, i, iClinFd);
      client[i] := iClinFd;
      slots := slots[i := iClinFd];
      allset := allset + {iClinFd};
      if iClinFd > maxFd {
        maxFd := iClinFd;
      }
      if i > maxi {
        maxi := i;
      }
      return true;
    }

    /** Read from a ready client, and drop it at the end of its stream. */
    method Serve(i: nat, n: int)
      requires Valid() && i < |slots| && slots[i] >= 0
      modifies this`allset, this`slots, client
      ensures Valid() && slots == if n == 0 then old(slots)[i := -1] else old(slots)
    {
      if n == 0 {
        LiveUpdate(slots, i, -1);
        allset := allset - {client[i]};
        client[i] := -1;
        slots := slots[i := -1];
      }
    }

    /** Look at slot `i`, and serve its client if it is ready. */
    method ScanSlot(i: nat, rset: set<int>, nready0: int, got: int -> int, ghost s: seq<int>, ghost served0: set<int>)
      returns (nready: int, hit: bool, ghost served: set<int>)
      requires Valid() && i < |slots| && Scanning(s, rset - {iServFd}, got, i, slots, served0, nready0)
      modifies this`allset, this`slots, client
      ensures Valid() && Scanning(s, rset - {iServFd}, got, i + 1, slots, served, nready)
    {
      var sockfd := client[i];
      nready, served := nready0, served0;
      ScanStep(s, rset - {iServFd}, got, i);
      NotTheListener(slots, i, iServFd);
      hit := sockfd >= 0 && sockfd in rset;
      if hit {
        Serve(i, got(sockfd));
        served := served + {sockfd};
        nready := nready - 1;
      }
    }

    /** The scan's loop: to the last slot ever used, or until no ready client is left. */
    method ScanLoop(rset: set<int>, nready0: int, got: int -> int)
      returns (ghost i: nat, ghost served: set<int>, nready: int)
      requires Valid() && nready0 == |rset - {iServFd}|
      modifies this`allset, this`slots, client
      ensures Valid() && (nready == 0 || i > maxi)
      ensures Scanning(old(slots), rset - {iServFd}, got, i, slots, served, nready)
    {
      ghost var s := slots;
      var k, hit := 0, false;
      nready, served := nready0, {};
      ScanStarts(s, rset - {iServFd}, got);
      while k <= maxi
        invariant 0 <= k <= maxi + 1 && Valid()
        invariant Scanning(s, rset - {iServFd}, got, k, slots, served, nready)
      {
        nready, hit, served := ScanSlot(k, rset, nready, got, s, served);
        k := k + 1;
        if hit && nready == 0 {
          break;
        }
      }
      i := k;
    }

    /** Serve the ready clients among the slots, `nready` of them. */
    method ScanClients(rset: set<int>, nready: int, got: int -> int) returns (ghost served: set<int>)
      requires Valid()
      requires rset - {iServFd} <= Live(slots) && nready == |rset - {iServFd}|
      modifies this`allset, this`slots, client
      ensures Valid() && served == rset - {iServFd}
      ensures slots == Served(old(slots), rset - {iServFd}, got, MAX_ATTARCH_SIZE)
    {
      ghost var s := slots;
      ghost var i, served', left := ScanLoop(rset, nready, got);
      ScanEnds(s, rset - {iServFd}, got, i, slots, served', left, maxi);
      served := served';
    }

    /** Accept if the listener is ready, and scan the clients. */
    method AcceptAndScan(rset: set<int>, accepted: int, got: int -> int) returns (r: Outcome, ghost served: set<int>)
      requires Valid() && rset <= allset
      requires accepted == -1 || (accepted >= 0 && accepted !in allset)
      modifies this, client
      ensures Valid()
      ensures r == if iServFd !in rset then Continue
                   else if accepted == -1 then AcceptFailed
                   else if FirstFree(old(slots)) == MAX_ATTARCH_SIZE then TooManyClients
                   else Continue
      ensures r != Continue ==> slots == old(slots)
      ensures r == Continue ==>
        var s := if iServFd in rset then old(slots)[FirstFree(old(slots)) := accepted] else old(slots);
        served == rset - {iServFd} && slots == Served(s, rset - {iServFd}, got, MAX_ATTARCH_SIZE)
      ensures var admitted := r == Continue && iServFd in rset;
        && maxFd == (if admitted && accepted > old(maxFd) then accepted else old(maxFd))
        && maxi == if admitted && FirstFree(old(slots)) > old(maxi) then FirstFree(old(slots)) else old(maxi)
    {
      served := {};
      var nready := |rset|;
      if iServFd in rset {
        if accepted == -1 {
          return AcceptFailed, served;
        }
        var ok := Admit(accepted);
        if !ok {
          return TooManyClients, served;
        }
        nready := nready - 1;
        assert nready == |rset - {iServFd}|;
        if nready == 0 {
          NothingMet(slots, rset - {iServFd}, got);
          return Continue, served;
        }
      } else {
        assert rset - {iServFd} == rset;
      }
      served := ScanClients(rset, nready, got);
      return Continue, served;
    }

    /** One turn of the server's loop. `rset` is what select left, a subset of what it was
        asked about, and `accepted` what accept returns. The ready clients whose read
        returned 0 leave their slots, the new one takes the first free slot, and nobody
        else is touched. */
    method Turn(rset: set<int>, accepted: int, got: int -> int) returns (r: Outcome, ghost served: set<int>)
      requires Valid() && rset <= allset
      requires accepted == -1 || (accepted >= 0 && accepted !in allset)
      modifies this, client
      ensures Valid()
      ensures r == if iServFd !in rset then Continue
                   else if accepted == -1 then AcceptFailed
                   else if FirstFree(old(slots)) == MAX_ATTARCH_SIZE then TooManyClients
                   else Continue
      ensures r != Continue ==> slots == old(slots) && allset == old(allset)
      ensures r == Continue ==>
        && served == rset - {iServFd}
        && (forall k :: 0 <= k < MAX_ATTARCH_SIZE ==>
              slots[k] == (if iServFd in rset && k == FirstFree(old(slots)) then accepted
                           else if old(slots)[k] >= 0 && old(slots)[k] in rset && got(old(slots)[k]) == 0 then -1
                           else old(slots)[k]))
        && Live(slots) == (set fd | fd in old(Live(slots)) && !(fd in rset && got(fd) == 0))
                          + (if iServFd in rset then {accepted} else {})
        && allset == {iServFd} + Live(slots)
      ensures var admitted := r == Continue && iServFd in rset;
        && maxFd == (if admitted && accepted > old(maxFd) then accepted else old(maxFd))
        && maxi == if admitted && FirstFree(old(slots)) > old(maxi) then FirstFree(old(slots)) else old(maxi)
    {
      ghost var s := slots;
      r, served := AcceptAndScan(rset, accepted, got);
      if r == Continue {
        AfterTurn(s, if iServFd in rset then FirstFree(s) else |s|, accepted, rset, iServFd, got);
      }
    }
  }
}
