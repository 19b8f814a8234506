/** The intrusive doubly linked list of the thread pool: the macros LIST_ADD and
    LIST_REMOVE, and the sequence of nodes they keep.
 */
module JobList {
  import opened Common

  class Node {
    var prev: Node?
    var next: Node?
    const job: nat  // stands for the callback and its data

    constructor (job: nat)
      ensures this.job == job && prev == null && next == null
    {
      this.job := job;
      prev, next := null, null;
    }
  }

  /** The node at a position, or null off either end. */
  function At(s: seq<Node>, i: int): Node? {
    if 0 <= i < |s| then s[i] else null
  }

  /** Every node of `s` points at its neighbours. */
  ghost predicate Linked(s: seq<Node>)
    reads s
  {
    forall i :: 0 <= i < |s| ==> s[i].prev == At(s, i - 1) && s[i].next == At(s, i + 1)
  }

  function Without(s: seq<Node>, k: nat): seq<Node>
    requires k < |s|
  {
    s[..k] + s[k + 1..]
  }

  lemma AtWithout(s: seq<Node>, k: nat, i: int)
    requires k < |s| && Distinct(s)
    ensures At(Without(s, k), i) == At(s, if i < k then i else i + 1)
    ensures Distinct(Without(s, k)) && s[k] !in Without(s, k)
  {
  }

  /** The jobs of the nodes, in order: the list as the transition system of the pool has it. */
  function Jobs(s: seq<Node>): seq<nat> {
    seq(|s|, i requires 0 <= i < |s| => s[i].job)
  }

  /** The node at `i` points at its neighbours in `[item] + s`. */
  ghost predicate LinkedBehind(item: Node, s: seq<Node>, i: int)
    requires 0 <= i < |s|
    reads s[i]
  {
    s[i].prev == (if i == 0 then item else s[i - 1]) && s[i].next == At(s, i + 1)
  }

  lemma {:induction false} Pushed(item: Node, s: seq<Node>)
    requires Distinct(s) && item !in s && item.prev == null && item.next == At(s, 0)
    requires forall i :: 0 <= i < |s| ==> LinkedBehind(item, s, i)
    ensures Linked([item] + s) && Distinct([item] + s)
    ensures Jobs([item] + s) == [item.job] + Jobs(s)
  {
    var t := [item] + s;
    forall i | 0 <= i < |t| ensures t[i].prev == At(t, i - 1) && t[i].next == At(t, i + 1) {
      if i > 0 {
        assert LinkedBehind(item, s, i - 1);
      }
    }
  }

  /** The node at `j` points at its neighbours, leaving out the one at `k`. */
  ghost predicate LinkedAround(s: seq<Node>, k: int, j: int)
    requires 0 <= j < |s|
    reads s[j]
  {
    && s[j].prev == At(s, if j == k + 1 then k - 1 else j - 1)
    && s[j].next == At(s, if j == k - 1 then k + 1 else j + 1)
  }

  lemma {:induction false} Relinked(s: seq<Node>, k: nat)
    requires k < |s| && Distinct(s)
    requires forall j :: 0 <= j < |s| && j != k ==> LinkedAround(s, k, j)
    ensures Linked(Without(s, k)) && Distinct(Without(s, k)) && s[k] !in Without(s, k)
    ensures At(Without(s, k), 0) == At(s, if k == 0 then 1 else 0)
  {
    var t := Without(s, k);
    AtWithout(s, k, 0);
    forall i | 0 <= i < |t| ensures t[i].prev == At(t, i - 1) && t[i].next == At(t, i + 1) {
      AtWithout(s, k, i - 1);
      AtWithout(s, k, i);
      AtWithout(s, k, i + 1);
      assert LinkedAround(s, k, if i < k then i else i + 1);
    }
  }

  lemma FirstJob(s: seq<Node>)
    requires s != []
    ensures Without(s, 0) == s[1..] && [s[0]] + s[1..] == s
    ensures Jobs(s)[0] == s[0].job && Jobs(s)[1..] == Jobs(s[1..])
  {
  }

  class List {
    var head: Node?
    ghost var nodes: seq<Node>

    ghost predicate Valid()
      reads this, nodes
    {
      head == At(nodes, 0) && Distinct(nodes) && Linked(nodes)
    }

    constructor ()
      ensures Valid() && nodes == []
    {
      head := null;
      nodes := [];
    }

    /** LIST_ADD: a node outside the list becomes its first. */
    method Add(item: Node)
      requires Valid() && item !in nodes
      modifies this, item, nodes
      ensures Valid() && nodes == [item] + old(nodes)
      ensures Jobs(nodes) == [item.job] + old(Jobs(nodes))
    {
      ghost var ns := nodes;
      item.prev := null;
      item.next := head;
      if head != null {
        head.prev := item;
      }
      head := item;
      nodes := [item] + ns;
      forall i | 0 <= i < |ns| ensures LinkedBehind(item, ns, i) {
        assert old(ns[i].prev == At(ns, i - 1) && ns[i].next == At(ns, i + 1));
      }
      Pushed(item, ns);
    }

    /** LIST_REMOVE: any member goes, first, last or between, and is left unlinked. */
    method Remove(item: Node, ghost k: nat)
      requires Valid() && k < |nodes| && nodes[k] == item
      modifies this, nodes
      ensures Valid() && nodes == Without(old(nodes), k)
      ensures item !in nodes && item.prev == null && item.next == null
    {
      ghost var ns := nodes;
      var p, n := item.prev, item.next;
      assert p == At(ns, k - 1) && n == At(ns, k + 1);
      if item.prev != null {
        item.prev.next := item.next;
      }
      if item.next != null {
        item.next.prev := item.prev;
      }
      if item == head {
        head := item.next;
      }
      item.prev, item.next := null, null;
      forall j | 0 <= j < |ns| && j != k
        ensures LinkedAround(ns, k, j)
      {
        assert old(ns[j].prev == At(ns, j - 1) && ns[j].next == At(ns, j + 1));
        assert ns[j] != item;
        if j == k - 1 {
        } else if j == k + 1 {
        } else {
          assert ns[j] != p && ns[j] != n;
        }
      }
      Relinked(ns, k);
      nodes := Without(ns, k);
    }

    /** What a worker does under the lock: take the head, if there is one. */
    method TakeFirst() returns (job: Node?)
      requires Valid()
      modifies this, nodes
      ensures Valid()
      ensures job == null <==> old(nodes) == []
      ensures job == null ==> nodes == []
      ensures job != null ==> [job] + nodes == old(nodes) && job.prev == null && job.next == null
      ensures job != null ==> job.job == old(Jobs(nodes))[0] && Jobs(nodes) == old(Jobs(nodes))[1..]
    {
      ghost var ns := nodes;
      job := head;
      if job != null {
        FirstJob(ns);
        Remove(job, 0);
      }
    }
  }

  /** Following `next` from the head visits exactly the nodes, in order, and ends in null:
      the links alone determine the sequence. */
  lemma {:induction false} LinksDetermineNodes(l: List, p: seq<Node>)
    requires l.Valid() && p != [] && p[0] == l.head && p[|p| - 1].next == null
    requires forall j :: 0 < j < |p| ==> p[j - 1].next == p[j]
    ensures p == l.nodes
  {
    forall i | 0 <= i < |p| ensures At(l.nodes, i) == p[i] {
      PrefixFollows(l, p, i);
    }
    assert At(l.nodes, |p|) == null;
  }

  lemma {:induction false} PrefixFollows(l: List, p: seq<Node>, i: nat)
    requires l.Valid() && p != [] && p[0] == l.head && i < |p|
    requires forall j :: 0 < j < |p| ==> p[j - 1].next == p[j]
    ensures At(l.nodes, i) == p[i]
  {
    if i > 0 {
      PrefixFollows(l, p, i - 1);
      assert l.nodes[i - 1].next == At(l.nodes, i);
    }
  }
}
