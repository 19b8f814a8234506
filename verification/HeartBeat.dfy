/** The failover loop of the heartbeat client. In every round both links are probed; after
    more than `RetryTimes` rounds in a row without an answer the node takes over, and it
    hands back after the next answer. Probes and the process count are inputs.
 */
module HeartBeat {
  /** The outcome of asking how many manager processes run; consulted only in a takeover. */
  datatype Ps = Failed | Counted(n: nat)

  datatype Round = Round(link1: bool, link2: bool, ps: Ps)

  predicate Answered(r: Round) {
    r.link1 || r.link2
  }

  datatype Action = IfUp | Start | TakeOver | IfDown | Quick | HandBack | Rest | Wait

  /** The loop's variables, and whether the interfaces were last commanded up. */
  datatype Client = Client(iRetryTimes: nat, iErrorFlag: bool, backup: bool, nicsUp: bool, log: seq<Action>)

  function Probe(c: Client, r: Round, retryTimes: nat): Client {
    if Answered(r) then c.(iRetryTimes := 0, iErrorFlag := false)
    else c.(iRetryTimes := c.iRetryTimes + 1, iErrorFlag := c.iErrorFlag || c.iRetryTimes + 1 > retryTimes)
  }

  /** Whether the round ends the inner loop. */
  predicate Breaks(c: Client, r: Round, retryTimes: nat) {
    Answered(r) || c.iRetryTimes + 1 > retryTimes
  }

  /** What follows the inner loop: the new role, the interfaces and the actions. A takeover
      that cannot count processes is given up after the interfaces have come up, and
      without the pause. */
  function Decide(c: Client, ps: Ps): Client {
    if c.iErrorFlag && !c.backup then c.(nicsUp := true, backup := ps.Counted?)
    else if !c.iErrorFlag && c.backup then c.(nicsUp := false, backup := false)
    else c
  }

  function Actions(c: Client, ps: Ps): seq<Action> {
    if c.iErrorFlag && !c.backup then
      match ps
      case Failed => [IfUp]
      case Counted(n) => if n == 0 then [IfUp, Start, TakeOver, Rest] else [IfUp, TakeOver, Rest]
    else if !c.iErrorFlag && c.backup then [IfDown, Quick, HandBack, Rest]
    else [Rest]
  }

  function Added(c: Client, r: Round, retryTimes: nat): seq<Action> {
    if Breaks(c, r, retryTimes) then Actions(Probe(c, r, retryTimes), r.ps) else [Wait]
  }

  function Step(c: Client, r: Round, retryTimes: nat): Client {
    var p := Probe(c, r, retryTimes);
    (if Breaks(c, r, retryTimes) then Decide(p, r.ps) else p).(log := c.log + Added(c, r, retryTimes))
  }

  const INITIAL := Client(0, false, false, false, [])

  function Run(h: seq<Round>, retryTimes: nat): Client {
    if h == [] then INITIAL
    else Step(Run(h[..|h| - 1], retryTimes), h[|h| - 1], retryTimes)
  }

  /** One turn of the inner loop. */
  method ProbeOnce(c: Client, r: Round, retryTimes: nat) returns (c': Client, broke: bool)
    ensures broke == Breaks(c, r, retryTimes)
    ensures c' == if broke then Probe(c, r, retryTimes) else Step(c, r, retryTimes)
    ensures !broke ==> c'.iRetryTimes == c.iRetryTimes + 1 <= retryTimes
  {
    if r.link1 || r.link2 {
      c' := c.(iRetryTimes := 0, iErrorFlag := false);
      broke := true;
    } else {
      c' := c.(iRetryTimes := c.iRetryTimes + 1);
      if c'.iRetryTimes > retryTimes {
        c' := c'.(iErrorFlag := true);
        broke := true;
      } else {
        c' := c'.(log := c'.log + [Wait]);
        broke := false;
      }
    }
  }

  /** The states before the first round and after each. */
  ghost predicate IsTrail(trail: seq<Client>, rounds: seq<Round>, retryTimes: nat) {
    && |trail| == |rounds| + 1
    && trail[0] == INITIAL
    && forall k :: 0 <= k < |rounds| ==> trail[k + 1] == Step(trail[k], rounds[k], retryTimes)
  }

  lemma {:induction false} TrailOf(rounds: seq<Round>, retryTimes: nat) returns (trail: seq<Client>)
    ensures IsTrail(trail, rounds, retryTimes) && trail[|rounds|] == Run(rounds, retryTimes)
  {
    if rounds == [] {
      trail := [INITIAL];
    } else {
      var n := |rounds| - 1;
      var front := TrailOf(rounds[..n], retryTimes);
      trail := front + [Run(rounds, retryTimes)];
      assert forall k :: 0 <= k < n ==> trail[k] == front[k] && rounds[..n][k] == rounds[k];
    }
  }

  /** The inner loop: probe until an answer, or until the retries are used up. It takes at
      most `retryTimes + 1` rounds. */
  method ProbeLinks(rounds: seq<Round>, from: nat, start: Client, retryTimes: nat, ghost trail: seq<Client>)
    returns (k: nat, c: Client, broke: bool)
    requires from < |rounds| && IsTrail(trail, rounds, retryTimes) && start == trail[from]
    ensures from <= k <= |rounds| && k - from <= retryTimes + 1
    ensures !broke ==> k == |rounds| && c == trail[k]
    ensures broke ==> k > from && Breaks(trail[k - 1], rounds[k - 1], retryTimes)
    ensures broke ==> c == Probe(trail[k - 1], rounds[k - 1], retryTimes)
  {
    k, c, broke := from, start, false;
    while k < |rounds|
      invariant from <= k <= |rounds| && (k > from ==> k - from <= c.iRetryTimes <= retryTimes)
      invariant c == trail[k]
    {
      c, broke := ProbeOnce(c, rounds[k], retryTimes);
      k := k + 1;
      if broke {
        return;
      }
    }
  }

  /** The rest of the outer loop's body. */
  method ChangeRole(c: Client, ps: Ps) returns (c': Client)
    ensures c' == Decide(c, ps).(log := c.log + Actions(c, ps))
  {
    var iMainFlag, nicsUp, log := c.backup, c.nicsUp, c.log;
    if c.iErrorFlag && !iMainFlag {
      log := log + [IfUp];
      nicsUp := true;
      if ps == Failed {
        return c.(nicsUp := nicsUp, log := log);
      }
      if ps.n == 0 {
        log := log + [Start];
      }
      iMainFlag := true;
      log := log + [TakeOver];
    } else if !c.iErrorFlag && iMainFlag {
      log := log + [IfDown];
      nicsUp := false;
      log := log + [Quick];
      iMainFlag := false;
      log := log + [HandBack];
    }
    log := log + [Rest];
    return c.(backup := iMainFlag, nicsUp := nicsUp, log := log);
  }

  /** The two nested loops, over the rounds of a history. */
  method RunAsClient(rounds: seq<Round>, retryTimes: nat) returns (c: Client)
    ensures c == Run(rounds, retryTimes)
  {
    ghost var trail := TrailOf(rounds, retryTimes);
    c := INITIAL;
    var k := 0;
    while k < |rounds|
      invariant 0 <= k <= |rounds| && c == trail[k]
      decreases |rounds| - k
    {
      var broke;
      k, c, broke := ProbeLinks(rounds, k, c, retryTimes, trail);
      if !broke {
        return;
      }
      c := ChangeRole(c, rounds[k - 1].ps);
    }
  }

  // ---------- The variables as functions of the history ----------

  /** The rounds without an answer that end the history. */
  function Streak(h: seq<Round>): (n: nat)
    ensures n <= |h|
  {
    if h == [] || Answered(h[|h| - 1]) then 0 else 1 + Streak(h[..|h| - 1])
  }

  /** The streak, by the links alone: no link answers in its rounds, and the round before
      it, if there is one, had an answer. */
  lemma {:induction false} StreakIsUnanswered(h: seq<Round>, n: nat)
    requires n <= |h|
    ensures Streak(h) == n <==>
      && (forall i :: |h| - n <= i < |h| ==> !h[i].link1 && !h[i].link2)
      && (n < |h| ==> h[|h| - n - 1].link1 || h[|h| - n - 1].link2)
  {
    if h != [] {
      var m := |h| - 1;
      if n > 0 && !Answered(h[m]) {
        StreakIsUnanswered(h[..m], n - 1);
        assert forall i :: |h| - n <= i < m ==> h[..m][i] == h[i];
      } else {
        assert n > 0 ==> |h| - n <= m < |h|;
      }
    }
  }

  lemma {:induction false} RetryTimesIsStreak(h: seq<Round>, retryTimes: nat)
    ensures Run(h, retryTimes).iRetryTimes == Streak(h)
  {
    if h != [] {
      RetryTimesIsStreak(h[..|h| - 1], retryTimes);
    }
  }

  /** In round `i` of the streak that ends `h` the threshold is passed and the process count
      is available. */
  ghost predicate TakesOverAt(h: seq<Round>, retryTimes: nat, i: int) {
    |h| - Streak(h) + retryTimes <= i < |h| && h[i].ps.Counted?
  }

  /** The role is a function of the probes and counts: the node is the backup exactly when
      the current streak has gone past the threshold in a round that could be counted. */
  lemma {:induction false} RoleIsHistory(h: seq<Round>, retryTimes: nat)
    ensures Run(h, retryTimes).backup <==> exists i :: TakesOverAt(h, retryTimes, i)
  {
    if h != [] {
      var n := |h| - 1;
      RoleIsHistory(h[..n], retryTimes);
      RetryTimesIsStreak(h[..n], retryTimes);
      if !Answered(h[n]) {
        forall i ensures TakesOverAt(h, retryTimes, i)
          <==> TakesOverAt(h[..n], retryTimes, i) || (i == n && Streak(h) > retryTimes && h[n].ps.Counted?)
        {
        }
        if Run(h, retryTimes).backup && !Run(h[..n], retryTimes).backup {
          assert TakesOverAt(h, retryTimes, n);
        }
        if i :| TakesOverAt(h[..n], retryTimes, i) {
          assert TakesOverAt(h, retryTimes, i);
        }
      }
    }
  }

  /** The last round reached the pause at the end of the outer loop. */
  predicate AtRest(h: seq<Round>, retryTimes: nat) {
    h != [] && var log := Run(h, retryTimes).log; log != [] && log[|log| - 1] == Rest
  }

  lemma {:induction false} RoleFollowsErrorFlag(h: seq<Round>, retryTimes: nat)
    ensures Run(h, retryTimes).backup ==> Run(h, retryTimes).iErrorFlag
    ensures Run(h, retryTimes).iErrorFlag <==> Streak(h) > retryTimes
  {
    if h != [] {
      RoleFollowsErrorFlag(h[..|h| - 1], retryTimes);
      RetryTimesIsStreak(h[..|h| - 1], retryTimes);
    }
  }

  /** Whenever the pause is reached, the role is decided by the streak alone. */
  lemma {:induction false} RoleAtRest(h: seq<Round>, retryTimes: nat)
    requires AtRest(h, retryTimes)
    ensures Run(h, retryTimes).backup <==> Streak(h) > retryTimes
  {
    RoleFollowsErrorFlag(h[..|h| - 1], retryTimes);
    RetryTimesIsStreak(h[..|h| - 1], retryTimes);
  }

  /** Some round among any `retryTimes + 1` in a row ends the inner loop. */
  lemma {:induction false} InnerLoopEnds(h: seq<Round>, e: seq<Round>, retryTimes: nat)
    requires |e| == retryTimes + 1
    ensures exists j :: 0 <= j < |e| && Breaks(Run(h + e[..j], retryTimes), e[j], retryTimes)
  {
    if forall j :: 0 <= j < |e| ==> !Answered(e[j]) {
      LongStreak(h, e[..retryTimes]);
      RetryTimesIsStreak(h + e[..retryTimes], retryTimes);
      assert Breaks(Run(h + e[..retryTimes], retryTimes), e[retryTimes], retryTimes);
    } else {
      var j :| 0 <= j < |e| && Answered(e[j]);
      assert Breaks(Run(h + e[..j], retryTimes), e[j], retryTimes);
    }
  }

  lemma {:induction false} LongStreak(h: seq<Round>, e: seq<Round>)
    requires forall j :: 0 <= j < |e| ==> !Answered(e[j])
    ensures Streak(h + e) >= |e|
  {
    if e != [] {
      LongStreak(h, e[..|e| - 1]);
      assert (h + e)[..|h + e| - 1] == h + e[..|e| - 1];
    }
  }

  // ---------- Takeovers and hand-backs alternate ----------

  function Move(x: Action): seq<bool> {
    match x
    case TakeOver => [true]
    case HandBack => [false]
    case _ => []
  }

  /** The completed changes of role, in order: true for a takeover. */
  function Moves(log: seq<Action>): seq<bool> {
    if log == [] then [] else Moves(log[..|log| - 1]) + Move(log[|log| - 1])
  }

  lemma LastOfConcat<T>(a: seq<T>, b: seq<T>)
    requires b != []
    ensures (a + b)[..|a + b| - 1] == a + b[..|b| - 1] && (a + b)[|a + b| - 1] == b[|b| - 1]
  {
  }

  lemma Associate<T>(x: seq<T>, y: seq<T>, z: seq<T>)
    ensures x + (y + z) == x + y + z
  {
  }

  lemma {:induction false} MovesConcat(a: seq<Action>, b: seq<Action>)
    ensures Moves(a + b) == Moves(a) + Moves(b)
  {
    if b == [] {
      assert a + b == a;
    } else {
      var b', x := b[..|b| - 1], b[|b| - 1];
      MovesConcat(a, b');
      LastOfConcat(a, b);
      Associate(Moves(a), Moves(b'), Move(x));
    }
  }

  ghost predicate Alternating(m: seq<bool>) {
    forall i :: 0 <= i < |m| ==> (m[i] <==> i % 2 == 0)
  }

  lemma {:induction false} OneMove(x: Action)
    ensures Moves([x]) == Move(x)
  {
    assert [x][..0] == [];
  }

  lemma {:induction false} ThreeMoves(x: Action, y: Action, z: Action)
    ensures Moves([x, y, z]) == Move(x) + Move(y) + Move(z)
  {
    OneMove(x);
    assert [x, y][..1] == [x] && [x, y, z][..2] == [x, y];
  }

  lemma {:induction false} FourMoves(w: Action, x: Action, y: Action, z: Action)
    ensures Moves([w, x, y, z]) == Move(w) + Move(x) + Move(y) + Move(z)
  {
    ThreeMoves(w, x, y);
    assert [w, x, y, z][..3] == [w, x, y];
  }

  lemma {:induction false} MovesOfActions(c: Client, ps: Ps)
    ensures Moves(Actions(c, ps)) == if c.backup == Decide(c, ps).backup then [] else [Decide(c, ps).backup]
  {
    OneMove(Rest);
    OneMove(IfUp);
    FourMoves(IfUp, Start, TakeOver, Rest);
    ThreeMoves(IfUp, TakeOver, Rest);
    FourMoves(IfDown, Quick, HandBack, Rest);
  }

  lemma {:induction false} MovesOfStep(c: Client, r: Round, retryTimes: nat)
    ensures var after := Step(c, r, retryTimes).backup;
      Moves(Added(c, r, retryTimes)) == if c.backup == after then [] else [after]
  {
    OneMove(Wait);
    MovesOfActions(Probe(c, r, retryTimes), r.ps);
  }

  lemma {:induction false} OneMoreMove(m: seq<bool>, before: bool, after: bool, m': seq<bool>)
    requires Alternating(m) && (before <==> |m| % 2 == 1) && m' == m + if before == after then [] else [after]
    ensures Alternating(m') && (after <==> |m'| % 2 == 1)
  {
    assert before == after ==> m' == m;
  }

  /** Takeover, hand-back, takeover, ...; the last one says the role. */
  lemma {:induction false} MovesAlternate(h: seq<Round>, retryTimes: nat)
    ensures var c := Run(h, retryTimes);
      Alternating(Moves(c.log)) && (c.backup <==> |Moves(c.log)| % 2 == 1)
  {
    if h != [] {
      var n := |h| - 1;
      var c, c' := Run(h[..n], retryTimes), Run(h, retryTimes);
      MovesAlternate(h[..n], retryTimes);
      MovesConcat(c.log, Added(c, h[n], retryTimes));
      MovesOfStep(c, h[n], retryTimes);
      OneMoreMove(Moves(c.log), c.backup, c'.backup, Moves(c'.log));
    }
  }

  // ---------- The interfaces ----------

  /** Round `i` tries to take over: its streak is past the threshold, and no earlier round
      of the streak could be counted. */
  ghost predicate Attempts(h: seq<Round>, retryTimes: nat, i: nat)
    requires i < |h|
  {
    Streak(h[..i + 1]) > retryTimes && !exists k :: TakesOverAt(h[..i], retryTimes, k)
  }

  lemma {:induction false} PrefixAttempts(h: seq<Round>, retryTimes: nat)
    requires h != []
    ensures forall j :: 0 <= j < |h| - 1 ==> Attempts(h[..|h| - 1], retryTimes, j) == Attempts(h, retryTimes, j)
  {
    forall j | 0 <= j < |h| - 1
      ensures Attempts(h[..|h| - 1], retryTimes, j) == Attempts(h, retryTimes, j)
    {
      assert h[..|h| - 1][..j] == h[..j] && h[..|h| - 1][..j + 1] == h[..j + 1];
    }
  }

  /** The latest attempt, or -1. */
  ghost function LastAttempt(h: seq<Round>, retryTimes: nat): (i: int)
    ensures -1 <= i < |h|
    ensures i >= 0 ==> Attempts(h, retryTimes, i)
    ensures forall j :: i < j < |h| ==> !Attempts(h, retryTimes, j)
  {
    if h == [] then -1
    else
      var n := |h| - 1;
      assert h[..n + 1] == h;
      PrefixAttempts(h, retryTimes);
      if Attempts(h, retryTimes, n) then n else LastAttempt(h[..n], retryTimes)
  }

  /** The interfaces should be up exactly in the backup role. They are, except when the
      latest attempt to take over could not count processes: it left them up, and nothing
      takes them down while the role is unchanged. */
  lemma {:induction false} NicsFollowRole(h: seq<Round>, retryTimes: nat)
    ensures var c := Run(h, retryTimes); var i := LastAttempt(h, retryTimes);
      && (c.nicsUp == c.backup <==> i < 0 || h[i].ps.Counted?)
      && (c.backup ==> c.nicsUp && i >= 0 && h[i].ps.Counted?)
  {
    if h != [] {
      var n := |h| - 1;
      NicsFollowRole(h[..n], retryTimes);
      RetryTimesIsStreak(h[..n], retryTimes);
      RoleIsHistory(h[..n], retryTimes);
      assert h[..n + 1] == h;
    }
  }

  /** Such a history: with no retries, one unanswered round whose count fails, then an
      answer. The node rests in the main role with its interfaces up. */
  lemma NicsCanStayUp()
    ensures var c := Run([Round(false, false, Failed), Round(true, true, Failed)], 0);
      AtRest([Round(false, false, Failed), Round(true, true, Failed)], 0) && !c.backup && c.nicsUp
  {
  }

  // ---------- The commands ----------

  /** Every command a node issues, round by round, from the probes and counts alone: what
      the last round of a history adds to the log. */
  lemma {:induction false} CommandsAreHistory(h: seq<Round>, retryTimes: nat)
    requires h != []
    ensures var n := |h| - 1; var r := h[n];
      var isBackup := exists i :: TakesOverAt(h[..n], retryTimes, i);
      Run(h, retryTimes).log == Run(h[..n], retryTimes).log +
        if r.link1 || r.link2 then
          if isBackup then [IfDown, Quick, HandBack, Rest] else [Rest]
        else if Streak(h) <= retryTimes then [Wait]
        else if isBackup then [Rest]
        else if r.ps == Failed then [IfUp]
        else if r.ps == Counted(0) then [IfUp, Start, TakeOver, Rest]
        else [IfUp, TakeOver, Rest]
  {
    var n := |h| - 1;
    RoleIsHistory(h[..n], retryTimes);
    RetryTimesIsStreak(h[..n], retryTimes);
    RoleFollowsErrorFlag(h[..n], retryTimes);
  }

  ghost function AttemptsWith(h: seq<Round>, retryTimes: nat, p: Ps -> bool): set<int> {
    set i | 0 <= i < |h| && Attempts(h, retryTimes, i) && p(h[i].ps)
  }

  lemma {:induction false} OneMoreRound(h: seq<Round>, retryTimes: nat, p: Ps -> bool)
    requires h != []
    ensures var n := |h| - 1;
      |AttemptsWith(h, retryTimes, p)|
        == |AttemptsWith(h[..n], retryTimes, p)| + if Attempts(h, retryTimes, n) && p(h[n].ps) then 1 else 0
  {
    var n := |h| - 1;
    var a, b := AttemptsWith(h[..n], retryTimes, p), AttemptsWith(h, retryTimes, p);
    PrefixAttempts(h, retryTimes);
    assert b == a + if Attempts(h, retryTimes, n) && p(h[n].ps) then {n} else {};
  }

  predicate TriesToTakeOver(c: Client, r: Round, retryTimes: nat) {
    !Answered(r) && c.iRetryTimes + 1 > retryTimes && !c.backup
  }

  lemma {:induction false} AttemptIsTry(h: seq<Round>, retryTimes: nat)
    requires h != []
    ensures var n := |h| - 1;
      Attempts(h, retryTimes, n) <==> TriesToTakeOver(Run(h[..n], retryTimes), h[n], retryTimes)
  {
    var n := |h| - 1;
    assert h[..n + 1] == h;
    RoleIsHistory(h[..n], retryTimes);
    RetryTimesIsStreak(h[..n], retryTimes);
  }

  function Expected(x: Action, ps: Ps): nat {
    match x
    case IfUp => 1
    case Start => if ps == Counted(0) then 1 else 0
    case TakeOver => if ps.Counted? then 1 else 0
    case _ => 0
  }

  function Same(x: Action, y: Action): nat {
    if x == y then 1 else 0
  }

  lemma CountOne(a: Action, x: Action)
    ensures multiset([a])[x] == Same(a, x)
  {
  }

  lemma CountThree(a: Action, b: Action, c: Action, x: Action)
    ensures multiset([a, b, c])[x] == Same(a, x) + Same(b, x) + Same(c, x)
  {
  }

  lemma {:induction false} CountFour(a: Action, b: Action, c: Action, d: Action, x: Action)
    ensures multiset([a, b, c, d])[x] == Same(a, x) + Same(b, x) + Same(c, x) + Same(d, x)
  {
    CountThree(a, b, c, x);
    CountOne(d, x);
    assert [a, b, c, d] == [a, b, c] + [d];
  }

  lemma {:induction false} AttemptCounts(ps: Ps, x: Action)
    requires x == IfUp || x == Start || x == TakeOver
    ensures multiset(Actions(Client(0, true, false, false, []), ps))[x] == Expected(x, ps)
  {
    match ps
    case Failed => CountOne(IfUp, x);
    case Counted(n) =>
      CountFour(IfUp, Start, TakeOver, Rest, x);
      CountThree(IfUp, TakeOver, Rest, x);
  }

  lemma {:induction false} AddedCounts(c: Client, r: Round, retryTimes: nat, x: Action)
    requires x == IfUp || x == Start || x == TakeOver
    ensures multiset(Added(c, r, retryTimes))[x] == if TriesToTakeOver(c, r, retryTimes) then Expected(x, r.ps) else 0
  {
    var added := Added(c, r, retryTimes);
    if TriesToTakeOver(c, r, retryTimes) {
      assert added == Actions(Client(0, true, false, false, []), r.ps);
      AttemptCounts(r.ps, x);
    } else {
      assert added == [Wait] || added == [Rest] || added == [IfDown, Quick, HandBack, Rest];
      assert x !in added;
    }
  }

  /** A command that belongs to attempts comes once for each attempt that expects it. */
  lemma {:induction false} IssuedInAttempts(h: seq<Round>, retryTimes: nat, x: Action, p: Ps -> bool)
    requires x == IfUp || x == Start || x == TakeOver
    requires forall ps :: Expected(x, ps) == if p(ps) then 1 else 0
    ensures multiset(Run(h, retryTimes).log)[x] == |AttemptsWith(h, retryTimes, p)|
  {
    if h != [] {
      var n := |h| - 1;
      var c := Run(h[..n], retryTimes);
      IssuedInAttempts(h[..n], retryTimes, x, p);
      OneMoreRound(h, retryTimes, p);
      AttemptIsTry(h, retryTimes);
      AddedCounts(c, h[n], retryTimes, x);
    }
  }

  /** How often each command is issued: the interfaces go up once for each attempt to take
      over, the manager is started once for each attempt that counted no process, and the
      attempts that could count are the takeovers. */
  lemma {:induction false} CommandsCounted(h: seq<Round>, retryTimes: nat)
    ensures var log := multiset(Run(h, retryTimes).log);
      && log[IfUp] == |set i | 0 <= i < |h| && Attempts(h, retryTimes, i)|
      && log[Start] == |set i | 0 <= i < |h| && Attempts(h, retryTimes, i) && h[i].ps == Counted(0)|
      && log[TakeOver] == |set i | 0 <= i < |h| && Attempts(h, retryTimes, i) && h[i].ps.Counted?|
  {
    var all, none, counted := (ps: Ps) => true, (ps: Ps) => ps == Counted(0), (ps: Ps) => ps.Counted?;
    IssuedInAttempts(h, retryTimes, IfUp, all);
    IssuedInAttempts(h, retryTimes, Start, none);
    IssuedInAttempts(h, retryTimes, TakeOver, counted);
    assert AttemptsWith(h, retryTimes, all) == set i | 0 <= i < |h| && Attempts(h, retryTimes, i);
    assert AttemptsWith(h, retryTimes, none)
      == set i | 0 <= i < |h| && Attempts(h, retryTimes, i) && h[i].ps == Counted(0);
    assert AttemptsWith(h, retryTimes, counted)
      == set i | 0 <= i < |h| && Attempts(h, retryTimes, i) && h[i].ps.Counted?;
  }

  /** A start stands between the interfaces going up and its takeover, a takeover behind
      either, and a hand-back behind the interfaces going down and the quick restart. */
  ghost predicate InPlace(log: seq<Action>, k: nat)
    requires k < |log|
  {
    match log[k]
    case Start => 1 <= k < |log| - 1 && log[k - 1] == IfUp && log[k + 1] == TakeOver
    case TakeOver => 1 <= k && (log[k - 1] == IfUp || log[k - 1] == Start)
    case IfDown => k < |log| - 2 && log[k + 1] == Quick && log[k + 2] == HandBack
    case Quick => 1 <= k && log[k - 1] == IfDown
    case HandBack => 1 <= k && log[k - 1] == Quick
    case _ => true
  }

  lemma AddedInPlace(c: Client, r: Round, retryTimes: nat, k: nat)
    requires k < |Added(c, r, retryTimes)|
    ensures InPlace(Added(c, r, retryTimes), k)
  {
  }

  lemma InPlaceConcat(a: seq<Action>, b: seq<Action>, k: nat)
    requires k < |a| + |b|
    requires if k < |a| then InPlace(a, k) else InPlace(b, k - |a|)
    ensures InPlace(a + b, k)
  {
  }

  lemma {:induction false} CommandsInPlace(h: seq<Round>, retryTimes: nat, k: nat)
    requires k < |Run(h, retryTimes).log|
    ensures InPlace(Run(h, retryTimes).log, k)
  {
    if h != [] {
      var n := |h| - 1;
      var c := Run(h[..n], retryTimes);
      if k < |c.log| {
        CommandsInPlace(h[..n], retryTimes, k);
      } else {
        AddedInPlace(c, h[n], retryTimes, k - |c.log|);
      }
      InPlaceConcat(c.log, Added(c, h[n], retryTimes), k);
    }
  }

  ghost predicate UpLast(log: seq<Action>) {
    exists k :: 0 <= k < |log| && log[k] == IfUp && forall j :: k < j < |log| ==> log[j] != IfDown
  }

  lemma {:induction false} LastNic(a: seq<Action>, b: seq<Action>)
    requires b != []
    ensures b[0] == IfUp && IfDown !in b ==> UpLast(a + b)
    ensures IfDown in b && IfUp !in b ==> !UpLast(a + b)
    ensures IfDown !in b && IfUp !in b ==> (UpLast(a + b) <==> UpLast(a))
  {
    var c := a + b;
    assert forall k :: |a| <= k < |c| ==> c[k] == b[k - |a|] && c[k] in b;
    if b[0] == IfUp && IfDown !in b {
      assert c[|a|] == IfUp;
    }
    if IfDown in b {
      var j :| 0 <= j < |b| && b[j] == IfDown;
      assert c[|a| + j] == IfDown;
    }
    if k :| 0 <= k < |a| && a[k] == IfUp && forall j :: k < j < |a| ==> a[j] != IfDown {
      assert c[k] == IfUp;
    }
    if k :| 0 <= k < |c| && c[k] == IfUp && forall j :: k < j < |c| ==> c[j] != IfDown {
      if k < |a| {
        assert a[k] == IfUp && forall j :: k < j < |a| ==> a[j] == c[j];
      }
    }
  }

  lemma {:induction false} AddedNics(c: Client, r: Round, retryTimes: nat)
    ensures var b, up := Added(c, r, retryTimes), Step(c, r, retryTimes).nicsUp;
      || (b[0] == IfUp && IfDown !in b && up)
      || (IfDown in b && IfUp !in b && !up)
      || (IfDown !in b && IfUp !in b && up == c.nicsUp)
  {
    var b := Added(c, r, retryTimes);
    assert b[0] == IfDown ==> IfDown in b;
  }

  /** Whether the interfaces are up is told by the last command to them. */
  lemma {:induction false} NicsFollowLog(h: seq<Round>, retryTimes: nat)
    ensures var c := Run(h, retryTimes);
      c.nicsUp <==>
        exists k :: 0 <= k < |c.log| && c.log[k] == IfUp && forall j :: k < j < |c.log| ==> c.log[j] != IfDown
  {
    if h != [] {
      var n := |h| - 1;
      NicsFollowLog(h[..n], retryTimes);
      var c, c' := Run(h[..n], retryTimes), Run(h, retryTimes);
      var added := Added(c, h[n], retryTimes);
      assert c'.log == c.log + added && added != [];
      LastNic(c.log, added);
      AddedNics(c, h[n], retryTimes);
    }
  }
}
