/** The connection table of the poll-based chat server, and one sweep over it. The listener
    sits in slot 0; a connection that ends is overwritten by the last one, and the sweep
    steps back to look at what came in its place.
 */
module ChatTable {
  const USER_LIMIT := 5

  datatype Revents = Revents(err: bool, rdhup: bool, readable: bool, writable: bool)

  const QUIET := Revents(false, false, false, false)

  datatype PollFd = PollFd(fd: int, revents: Revents)

  /** The outcome of recv: bytes, end of stream, nothing for now, or an error. */
  datatype Recv = Data | End | Again | Broken

  /** The sweep closes the connection: its peer hung up, or reading from it failed. An error
      event keeps it. */
  predicate Leaves(e: PollFd, recv: int -> Recv) {
    !e.revents.err && (e.revents.rdhup || (e.revents.readable && recv(e.fd) == Broken))
  }

  function Survivors(es: seq<PollFd>, recv: int -> Recv): seq<PollFd> {
    if es == [] then []
    else
      var n := |es| - 1;
      Survivors(es[..n], recv) + if Leaves(es[n], recv) then [] else [es[n]]
  }

  ghost predicate Distinct(t: seq<PollFd>) {
    forall i, j :: 0 <= i < j < |t| ==> t[i].fd != t[j].fd
  }

  ghost function Fds(t: seq<PollFd>): set<int> {
    set i | 0 <= i < |t| :: t[i].fd
  }

  /** The last entry takes the place of the one that goes. */
  function RemoveAt(t: seq<PollFd>, i: nat): (r: seq<PollFd>)
    requires i < |t|
    ensures |r| == |t| - 1
  {
    t[i := t[|t| - 1]][..|t| - 1]
  }

  lemma {:induction false} RemoveAtKeeps(t: seq<PollFd>, i: nat)
    requires 1 <= i < |t| && Distinct(t)
    ensures var r := RemoveAt(t, i);
      && Distinct(r) && r[..i] == t[..i] && Fds(r[1..]) == Fds(t[1..]) - {t[i].fd}
      && (i < |r| ==> r[i] == t[|t| - 1] && r[i + 1..] == t[i + 1..|r|])
  {
    forall x ensures x in Fds(RemoveAt(t, i)[1..]) <==> x in Fds(t[1..]) - {t[i].fd} {
      RemoveAtFd(t, i, x);
    }
  }

  lemma {:induction false} RemoveAtTail(t: seq<PollFd>, i: nat)
    requires i < |t|
    ensures multiset(RemoveAt(t, i)[i..]) + multiset{t[i]} == multiset(t[i..])
  {
    var r, n := RemoveAt(t, i), |t| - 1;
    if i < n {
      assert r[i..] == [t[n]] + t[i + 1..n];
      assert t[i..] == [t[i]] + t[i + 1..n] + [t[n]];
    } else {
      assert r[i..] == [] && t[i..] == [t[i]];
    }
  }

  lemma {:induction false} RemoveAtFd(t: seq<PollFd>, i: nat, x: int)
    requires 1 <= i < |t| && Distinct(t)
    ensures x in Fds(RemoveAt(t, i)[1..]) <==> x in Fds(t[1..]) && x != t[i].fd
  {
    var r, n := RemoveAt(t, i), |t| - 1;
    if x in Fds(r[1..]) {
      var k :| 0 <= k < |r[1..]| && r[1..][k].fd == x;
      var j := if k + 1 == i then n else k + 1;
      assert t[1..][j - 1].fd == x && j != i;
    }
    if x in Fds(t[1..]) && x != t[i].fd {
      var k :| 0 <= k < |t[1..]| && t[1..][k].fd == x;
      var j := if k + 1 == n then i else k + 1;
      assert r[1..][j - 1].fd == x;
    }
  }

  lemma {:induction false} FdsAppend(t: seq<PollFd>, e: PollFd)
    requires t != []
    ensures Fds((t + [e])[1..]) == Fds(t[1..]) + {e.fd}
    ensures Distinct(t) && e.fd != t[0].fd && e.fd !in Fds(t[1..]) ==> Distinct(t + [e])
  {
    var r := (t + [e])[1..];
    assert r == t[1..] + [e];
    forall x | x in Fds(t[1..]) + {e.fd} ensures x in Fds(r) {
      if x == e.fd {
        assert r[|r| - 1].fd == x;
      } else {
        var k :| 0 <= k < |t[1..]| && t[1..][k].fd == x;
        assert r[k].fd == x;
      }
    }
    if e.fd != t[0].fd && e.fd !in Fds(t[1..]) {
      forall k | 0 <= k < |t| ensures t[k].fd != e.fd {
        if k > 0 { assert t[1..][k - 1].fd in Fds(t[1..]); }
      }
    }
  }

  // ---------- Where a sweep stands ----------

  /** The sweep is about to look at slot `i`: the slots before it hold the survivors of the
      entries examined, and those examined and those to come make up `all`. */
  ghost predicate Swept(t: seq<PollFd>, i: nat, examined: seq<PollFd>, all: seq<PollFd>, recv: int -> Recv) {
    && 1 <= i <= |t|
    && t[1..i] == Survivors(examined, recv)
    && multiset(examined) + multiset(t[i..]) == multiset(all)
  }

  lemma {:induction false} SweepPasses(t: seq<PollFd>, i: nat, examined: seq<PollFd>, all: seq<PollFd>,
          recv: int -> Recv)
    requires Swept(t, i, examined, all, recv) && i < |t| && !Leaves(t[i], recv)
    ensures Swept(t, i + 1, examined + [t[i]], all, recv)
  {
    assert t[i..] == [t[i]] + t[i + 1..];
    assert t[1..i + 1] == t[1..i] + [t[i]];
    assert (examined + [t[i]])[..|examined|] == examined;
    assert multiset(examined + [t[i]]) == multiset(examined) + multiset{t[i]};
  }

  lemma {:induction false} SweepRemoves(t: seq<PollFd>, i: nat, examined: seq<PollFd>, all: seq<PollFd>,
          recv: int -> Recv)
    requires Swept(t, i, examined, all, recv) && i < |t| && Leaves(t[i], recv) && Distinct(t)
    ensures Swept(RemoveAt(t, i), i, examined + [t[i]], all, recv)
  {
    var r := RemoveAt(t, i);
    assert r[1..i] == t[1..i];
    RemoveAtTail(t, i);
    assert (examined + [t[i]])[..|examined|] == examined;
    assert multiset(examined + [t[i]]) == multiset(examined) + multiset{t[i]};
  }

  lemma {:induction false} SameEntries(s: seq<PollFd>, t: seq<PollFd>, recv: int -> Recv, fd: int)
    requires multiset(s) == multiset(t)
    ensures (exists i :: 0 <= i < |s| && s[i].fd == fd && !Leaves(s[i], recv))
      ==> exists i :: 0 <= i < |t| && t[i].fd == fd && !Leaves(t[i], recv)
  {
    if i :| 0 <= i < |s| && s[i].fd == fd && !Leaves(s[i], recv) {
      assert s[i] in multiset(t);
      var j :| 0 <= j < |t| && t[j] == s[i];
    }
  }

  lemma {:induction false} SurvivorMember(es: seq<PollFd>, recv: int -> Recv, fd: int)
    ensures fd in Fds(Survivors(es, recv)) <==> exists i :: 0 <= i < |es| && es[i].fd == fd && !Leaves(es[i], recv)
  {
    if es != [] {
      var n := |es| - 1;
      var s, s' := Survivors(es, recv), Survivors(es[..n], recv);
      SurvivorMember(es[..n], recv, fd);
      if fd in Fds(s') {
        var k :| 0 <= k < |s'| && s'[k].fd == fd;
        assert s[k].fd == fd;
      }
      if !Leaves(es[n], recv) { assert s[|s| - 1] == es[n]; }
      if fd in Fds(s) {
        var k :| 0 <= k < |s| && s[k].fd == fd;
        if k < |s'| { assert s'[k].fd == fd; }
      }
    }
  }

  /** What a sweep does to the set of open connections, in whatever order it looks at them:
      those that hung up or failed are gone, the rest and the arrival stay. */
  lemma {:induction false} SweepIsOrderFree(all: seq<PollFd>, examined: seq<PollFd>, recv: int -> Recv, fd: int)
    requires multiset(examined) == multiset(all)
    ensures fd in Fds(Survivors(examined, recv)) <==>
      exists i :: 0 <= i < |all| && all[i].fd == fd && !Leaves(all[i], recv)
  {
    SurvivorMember(examined, recv, fd);
    SameEntries(examined, all, recv, fd);
    SameEntries(all, examined, recv, fd);
  }

  /** Who is connected after a sweep of `t`: those whose entry reported an error, or neither
      a hang-up nor input that could not be received, and the one who `arrives`. */
  lemma {:induction false} OpenAfterSweep(t: seq<PollFd>, examined: seq<PollFd>, recv: int -> Recv, connfd: int,
          arrives: bool, fd: int)
    requires t != []
    requires multiset(examined) == multiset(t[1..] + if arrives then [PollFd(connfd, QUIET)] else [])
    ensures fd in Fds(Survivors(examined, recv)) <==>
      || (exists k :: 1 <= k < |t| && t[k].fd == fd &&
            (t[k].revents.err || (!t[k].revents.rdhup && !(t[k].revents.readable && recv(fd) == Broken))))
      || (arrives && fd == connfd)
  {
    var a := if arrives then [PollFd(connfd, QUIET)] else [];
    var all := t[1..] + a;
    SweepIsOrderFree(all, examined, recv, fd);
    if i :| 0 <= i < |all| && all[i].fd == fd && !Leaves(all[i], recv) {
      assert i < |t[1..]| ==> all[i] == t[i + 1];
    }
    if k :| 1 <= k < |t| && t[k].fd == fd && !Leaves(t[k], recv) {
      assert all[k - 1] == t[k];
    }
    if arrives && fd == connfd {
      assert all[|t| - 1] == PollFd(connfd, QUIET);
    }
  }

  lemma SweepEnds(t: seq<PollFd>, i: nat, examined: seq<PollFd>, all: seq<PollFd>, recv: int -> Recv)
    requires Swept(t, i, examined, all, recv) && i == |t|
    ensures multiset(examined) == multiset(all) && t[1..] == Survivors(examined, recv)
  {
  }

  lemma ListenerFirst(t: seq<PollFd>, a: seq<PollFd>)
    requires t != []
    ensures (t + a)[1..] == t[1..] + a
  {
  }

  lemma SweepStarts(t: seq<PollFd>, all: seq<PollFd>, recv: int -> Recv)
    requires t != [] && t[1..] == all
    ensures Swept(t, 1, [], all, recv)
  {
  }

  lemma {:induction false} SweepVisits(t: seq<PollFd>, i: nat, examined: seq<PollFd>, all: seq<PollFd>,
          recv: int -> Recv)
    requires Swept(t, i, examined, all, recv) && i < |t| && Distinct(t)
    ensures if Leaves(t[i], recv) then Swept(RemoveAt(t, i), i, examined + [t[i]], all, recv)
            else Swept(t, i + 1, examined + [t[i]], all, recv)
  {
    if Leaves(t[i], recv) {
      SweepRemoves(t, i, examined, all, recv);
    } else {
      SweepPasses(t, i, examined, all, recv);
    }
  }

  lemma SameFds(t: seq<PollFd>, t': seq<PollFd>)
    requires |t| == |t'| > 0 && Distinct(t) && forall i :: 0 <= i < |t| ==> t'[i].fd == t[i].fd
    ensures Distinct(t') && Fds(t'[1..]) == Fds(t[1..])
  {
  }

  class ChatServer {
    const sockfd: int
    const fds: array<PollFd>
    var user_counter: nat
    ghost var table: seq<PollFd>  // the slots in use
    ghost var open: set<int>      // connections accepted and not closed

    ghost predicate Valid()
      reads this, fds
    {
      && fds.Length == USER_LIMIT + 1 && user_counter <= USER_LIMIT
      && table == fds[..user_counter + 1]
      && table[0].fd == sockfd && Distinct(table)
      && open == Fds(table[1..])
    }

    constructor (sockfd: int)
      ensures Valid() && open == {} && this.sockfd == sockfd
    {
      this.sockfd := sockfd;
      fds := new PollFd[USER_LIMIT + 1](i => PollFd(if i == 0 then sockfd else -1, QUIET));
      user_counter := 0;
      table := [PollFd(sockfd, QUIET)];
      open := {};
    }

    /** The kernel fills in what happened. */
    method Poll(happened: seq<Revents>)
      requires Valid() && |happened| == |table|
      modifies this`table, fds
      ensures Valid() && |table| == |happened|
      ensures forall i :: 0 <= i < |table| ==> table[i] == PollFd(old(table)[i].fd, happened[i])
    {
      ghost var t := table;
      forall i | 0 <= i < |happened| {
        fds[i] := PollFd(fds[i].fd, happened[i]);
      }
      table := fds[..user_counter + 1];
      SameFds(t, table);
    }

    /** Fill the next slot. */
    method Append(connfd: int)
      requires Valid() && user_counter < USER_LIMIT && connfd !in open && connfd != sockfd
      modifies this`user_counter, this`table, this`open, fds
      ensures Valid() && table == old(table) + [PollFd(connfd, QUIET)]
    {
      FdsAppend(table, PollFd(connfd, QUIET));
      user_counter := user_counter + 1;
      fds[user_counter] := PollFd(connfd, QUIET);
      open := open + {connfd};
      table := table + [PollFd(connfd, QUIET)];
    }

    /** Close the connection in slot `i` and move the last one there. */
    method Remove(i: nat)
      requires Valid() && 1 <= i <= user_counter
      modifies this`user_counter, this`table, this`open, fds
      ensures Valid() && table == RemoveAt(old(table), i)
    {
      RemoveAtKeeps(table, i);
      open := open - {fds[i].fd};
      fds[i] := fds[user_counter];
      user_counter := user_counter - 1;
      table := RemoveAt(table, i);
    }

    /** The entry accept adds in this sweep, if any: there must be a caller and a free slot. */
    ghost function Arrival(connfd: int): seq<PollFd>
      requires table != []
      reads this
    {
      if table[0].revents.readable && connfd >= 0 && |table| <= USER_LIMIT then [PollFd(connfd, QUIET)] else []
    }

    /** A caller is waiting: take the connection in, unless accept fails or the table is
        full, in which case it is closed at once. */
    method Accept(connfd: int)
      requires Valid() && table[0].revents.readable
      requires connfd >= 0 ==> connfd !in open && connfd != sockfd
      modifies this`user_counter, this`table, this`open, fds
      ensures Valid() && table == old(table) + old(Arrival(connfd))
    {
      if connfd < 0 {
        return;
      }
      if user_counter >= USER_LIMIT {
        return;
      }
      Append(connfd);
    }

    /** Look at a slot that has no caller waiting: keep it and go on to the next, or close
        it and stay. */
    method Visit(i: nat, recv: int -> Recv) returns (next: nat)
      requires Valid() && i <= user_counter && (i == 0 ==> !Leaves(table[0], recv))
      modifies this`user_counter, this`table, this`open, fds
      ensures Valid()
      ensures if Leaves(old(table)[i], recv) then next == i && table == RemoveAt(old(table), i)
              else next == i + 1 && table == old(table)
    {
      next := i + 1;
      if fds[i].revents.err {
      } else if fds[i].revents.rdhup {
        Remove(i);
        next := i;
      } else if fds[i].revents.readable {
        var ret := recv(fds[i].fd);
        if ret == Broken {
          Remove(i);
          next := i;
        }
      }
    }

    /** One turn of the loop: slot 0 may take a connection in, any other slot keeps or loses
        its own. */
    method Turn(i: nat, connfd: int, recv: int -> Recv) returns (next: nat)
      requires Valid() && i <= user_counter
      requires i == 0 ==> !table[0].revents.rdhup && (connfd >= 0 ==> connfd !in open && connfd != sockfd)
      modifies this`user_counter, this`table, this`open, fds
      ensures Valid()
      ensures i == 0 ==> next == 1 && table == old(table) + old(Arrival(connfd))
      ensures i > 0 ==>
        if Leaves(old(table)[i], recv) then next == i && table == RemoveAt(old(table), i)
        else next == i + 1 && table == old(table)
    {
      assert table[i] == fds[i] && (i > 0 ==> table[0].fd != table[i].fd);
      if fds[i].fd == sockfd && fds[i].revents.readable {
        Accept(connfd);
        next := i + 1;
      } else {
        next := Visit(i, recv);
      }
    }

    /** A turn past the listener, and what it does for the sweep. */
    method LaterTurn(i: nat, connfd: int, recv: int -> Recv, ghost examined: seq<PollFd>, ghost all: seq<PollFd>)
      returns (next: nat, ghost examined': seq<PollFd>)
      requires Valid() && 1 <= i <= user_counter && Swept(table, i, examined, all, recv)
      modifies this`user_counter, this`table, this`open, fds
      ensures Valid() && Swept(table, next, examined', all, recv)
      ensures user_counter - next == old(user_counter) - i - 1
    {
      SweepVisits(table, i, examined, all, recv);
      examined' := examined + [table[i]];
      next := Turn(i, connfd, recv);
    }

    /** The loop of a sweep: every entry is looked at once, the new one included. */
    method SweepSlots(connfd: int, recv: int -> Recv) returns (ghost examined: seq<PollFd>)
      requires Valid() && !table[0].revents.rdhup
      requires connfd >= 0 ==> connfd !in open && connfd != sockfd
      modifies this`user_counter, this`table, this`open, fds
      ensures Valid()
      ensures multiset(examined) == multiset(old(table)[1..] + old(Arrival(connfd)))
      ensures table[1..] == Survivors(examined, recv)
    {
      examined := [];
      ghost var all := table[1..] + Arrival(connfd);
      ListenerFirst(table, Arrival(connfd));
      // the first turn of the loop, at the listener
      var i := Turn(0, connfd, recv);
      SweepStarts(table, all, recv);
      while i < user_counter + 1
        invariant Valid() && 1 <= i <= user_counter + 1 && Swept(table, i, examined, all, recv)
        decreases user_counter + 1 - i
      {
        i, examined := LaterTurn(i, connfd, recv, examined, all);
      }
      SweepEnds(table, i, examined, all, recv);
    }

    /** One sweep. `connfd` is what accept returns, negative for failure, otherwise a
        descriptor not in use. The listener does not ask for hang-up events.
        `examined` lists the entries in the order the sweep looks at them. */
    method Sweep(connfd: int, recv: int -> Recv) returns (ghost examined: seq<PollFd>)
      requires Valid() && !table[0].revents.rdhup
      requires connfd >= 0 ==> connfd !in open && connfd != sockfd
      modifies this`user_counter, this`table, this`open, fds
      ensures Valid()
      ensures multiset(examined) == multiset(old(table)[1..] + old(Arrival(connfd)))
      ensures table[1..] == Survivors(examined, recv)
      ensures forall fd :: fd in open <==>
        || (exists k :: 1 <= k < |old(table)| && old(table)[k].fd == fd &&
              (old(table)[k].revents.err ||
               (!old(table)[k].revents.rdhup && !(old(table)[k].revents.readable && recv(fd) == Broken))))
        || (fd == connfd && old(table)[0].revents.readable && connfd >= 0 && old(user_counter) < USER_LIMIT)
    {
      ghost var t := table;
      ghost var arrives := t[0].revents.readable && connfd >= 0 && user_counter < USER_LIMIT;
      examined := SweepSlots(connfd, recv);
      forall fd
        ensures fd in open <==>
          || (exists k :: 1 <= k < |t| && t[k].fd == fd &&
                (t[k].revents.err || (!t[k].revents.rdhup && !(t[k].revents.readable && recv(fd) == Broken))))
          || (arrives && fd == connfd)
      {
        OpenAfterSweep(t, examined, recv, connfd, arrives, fd);
      }
    }
  }
}
