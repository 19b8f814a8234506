/** Building and reversing a singly linked list in place.
 */
module ReverseList {
  import opened Common

  class Node {
    var data: int
    var next: Node?

    constructor (d: int)
      ensures data == d && next == null
    {
      data := d;
      next := null;
    }
  }

  function At(s: seq<Node>, i: int): Node? {
    if 0 <= i < |s| then s[i] else null
  }

  /** Following `next` from `p` visits the nodes of `s` and ends in null. */
  ghost predicate IsList(p: Node?, s: seq<Node>)
    reads s
  {
    p == At(s, 0) && forall i :: 0 <= i < |s| ==> s[i].next == At(s, i + 1)
  }

  /** A list that ends has no node twice: it would come back to it for ever. */
  lemma {:induction false} EndedListIsDistinct(p: Node?, s: seq<Node>)
    requires IsList(p, s)
    ensures Distinct(s)
  {
    forall i, j | 0 <= i < j < |s| ensures s[i] != s[j] {
      if s[i] == s[j] { SameToTheEnd(p, s, i, j); }
    }
  }

  lemma {:induction false} SameToTheEnd(p: Node?, s: seq<Node>, i: nat, j: nat)
    requires IsList(p, s) && i < j < |s| && s[i] == s[j]
    ensures false
    decreases |s| - j
  {
    assert s[i].next == At(s, i + 1) && s[j].next == At(s, j + 1);
    if j + 1 < |s| {
      SameToTheEnd(p, s, i + 1, j + 1);
    }
  }

  function Rev<T>(s: seq<T>): (r: seq<T>)
    ensures |r| == |s|
  {
    if s == [] then [] else Rev(s[1..]) + [s[0]]
  }

  lemma {:induction false} RevAppend<T>(s: seq<T>, x: T)
    ensures Rev(s + [x]) == [x] + Rev(s)
  {
    if s == [] {
      assert (s + [x])[1..] == [] && s + [x] == [x];
    } else {
      assert (s + [x])[1..] == s[1..] + [x];
      RevAppend(s[1..], x);
      assert [x] + Rev(s[1..]) + [s[0]] == [x] + (Rev(s[1..]) + [s[0]]);
    }
  }

  lemma {:induction false} RevTwice<T>(s: seq<T>)
    ensures Rev(Rev(s)) == s
  {
    if s != [] {
      RevTwice(s[1..]);
      RevAppend(Rev(s[1..]), s[0]);
      assert s == [s[0]] + s[1..];
    }
  }

  lemma {:induction false} RevAt<T>(s: seq<T>, i: nat)
    requires i < |s|
    ensures Rev(s)[i] == s[|s| - 1 - i]
  {
    if i < |s| - 1 {
      RevAt(s[1..], i);
    }
  }

  ghost predicate Within(s: seq<Node>, t: seq<Node>) {
    forall i :: 0 <= i < |s| ==> s[i] in t
  }

  /** The list with the node at `k` taken to the front. */
  function ToFront(t: seq<Node>, k: nat): (r: seq<Node>)
    requires k < |t|
    ensures |r| == |t|
  {
    [t[k]] + t[..k] + t[k + 1..]
  }

  lemma ToFrontAt(t: seq<Node>, k: nat, i: int)
    requires k < |t| && 0 <= i <= |t|
    ensures At(ToFront(t, k), i) == if i == 0 then t[k] else if i <= k then t[i - 1] else At(t, i)
  {
  }

  lemma ToFrontWithin(t: seq<Node>, k: nat)
    requires k < |t|
    ensures Within(ToFront(t, k), t) && Within(t, ToFront(t, k))
  {
  }

  /** One step of the reversal: the node after `p` becomes the head. */
  method MoveNextToFront(p: Node, p1: Node, ghost t: seq<Node>, ghost k: nat) returns (p2: Node)
    requires 1 <= k < |t| && IsList(p1, t) && t[k - 1] == p
    modifies t
    ensures p2 == t[k] && IsList(p2, ToFront(t, k))
    ensures forall i :: 0 <= i < |t| ==> t[i].data == old(t[i].data)
  {
    EndedListIsDistinct(p1, t);
    assert t[k - 1].next == At(t, k) && t[k].next == At(t, k + 1) && t[0] == p1;
    p2 := p.next;
    p.next := p2.next;
    p2.next := p1;
    ghost var r := ToFront(t, k);
    forall i | 0 <= i < |r| ensures r[i].next == At(r, i + 1) {
      ToFrontAt(t, k, i);
      ToFrontAt(t, k, i + 1);
      var j := if i == 0 then k else if i <= k then i - 1 else i;
      assert old(t[j].next == At(t, j + 1));
    }
  }

  /** The first `k` nodes are reversed, the others still follow; `p` has become the k-th. */
  ghost predicate Reversing(s: seq<Node>, k: nat, t: seq<Node>) {
    && 1 <= k <= |s| && t == Rev(s[..k]) + s[k..] && t[k - 1] == s[0]
    && Within(t, s) && Within(s, t)
  }

  lemma {:induction false} ReversedMore(s: seq<Node>, k: nat, t: seq<Node>)
    requires Reversing(s, k, t) && k < |s|
    ensures Reversing(s, k + 1, ToFront(t, k))
  {
    assert s[..k + 1] == s[..k] + [s[k]];
    RevAppend(s[..k], s[k]);
    RevAt(s[..k + 1], k);
    ToFrontWithin(t, k);
    assert ToFront(t, k) == Rev(s[..k + 1]) + s[k + 1..];
  }

  lemma {:induction false} ReversingStarts(s: seq<Node>)
    requires s != []
    ensures Reversing(s, 1, s)
  {
    assert s == Rev(s[..1]) + s[1..];
  }

  /** The node that was first has no successor exactly when all are reversed. */
  lemma {:induction false} ReversingEnds(s: seq<Node>, k: nat, t: seq<Node>, p1: Node?)
    requires Reversing(s, k, t) && IsList(p1, t)
    ensures s[0].next == null <==> k == |s|
    ensures k == |s| ==> t == Rev(s)
  {
    assert t[k - 1].next == At(t, k);
    if k == |s| {
      assert s[..k] == s && s[k..] == [];
    }
  }

  method ReverseOneMore(p: Node, p1: Node, ghost s: seq<Node>, ghost k: nat, ghost t: seq<Node>) returns (p2: Node)
    requires Reversing(s, k, t) && k < |s| && IsList(p1, t) && p == s[0]
    modifies s
    ensures Reversing(s, k + 1, ToFront(t, k)) && IsList(p2, ToFront(t, k))
    ensures forall i :: 0 <= i < |s| ==> s[i].data == old(s[i].data)
  {
    ReversedMore(s, k, t);
    p2 := MoveNextToFront(p, p1, t, k);
    forall i | 0 <= i < |s| ensures s[i].data == old(s[i].data) {
      assert s[i] in t;
    }
  }

  /** `reverse`: the same nodes with the same data, in the opposite order. */
  method Reverse(p0: Node?, ghost s: seq<Node>) returns (r: Node?)
    requires IsList(p0, s)
    modifies s
    ensures IsList(r, Rev(s))
    ensures forall i :: 0 <= i < |s| ==> s[i].data == old(s[i].data)
  {
    if p0 == null {
      return p0;
    }
    var p: Node := p0;
    var p1: Node := p;
    ghost var k, t := 1, s;
    ReversingStarts(s);
    while p.next != null
      invariant Reversing(s, k, t) && IsList(p1, t) && p == s[0]
      invariant forall i :: 0 <= i < |s| ==> s[i].data == old(s[i].data)
      decreases |s| - k
    {
      ReversingEnds(s, k, t, p1);
      p1 := ReverseOneMore(p, p1, s, k, t);
      t := ToFront(t, k);
      k := k + 1;
    }
    ReversingEnds(s, k, t, p1);
    return p1;
  }

  /** Reversing twice restores the list, node by node. */
  method ReverseTwice(p: Node?, ghost s: seq<Node>) returns (r: Node?)
    requires IsList(p, s)
    modifies s
    ensures r == p && IsList(r, s)
    ensures forall i :: 0 <= i < |s| ==> s[i].next == old(s[i].next) && s[i].data == old(s[i].data)
  {
    RevWithin(s);
    r := Reverse(p, s);
    ghost var t := Rev(s);
    RevTwice(s);
    r := Reverse(r, t);
    forall i | 0 <= i < |s| ensures s[i].next == old(s[i].next) {
      assert s[i].next == At(s, i + 1) && old(s[i].next == At(s, i + 1));
    }
  }

  lemma {:induction false} RevWithin(s: seq<Node>)
    ensures Within(Rev(s), s) && Within(s, Rev(s))
  {
    forall i | 0 <= i < |s| ensures Rev(s)[i] in s && s[i] in Rev(s) {
      RevAt(s, i);
      RevAt(s, |s| - 1 - i);
    }
  }

  /** `construct`, for a positive count: fresh nodes holding 0, 1, 2, ... */
  method Construct(cnt: nat) returns (p: Node, ghost s: seq<Node>)
    requires cnt > 0
    ensures IsList(p, s) && fresh(s) && |s| == cnt
    ensures forall i :: 0 <= i < cnt ==> s[i].data == i
  {
    var np := new Node(0);
    var pList := np;
    p := pList;
    s := [np];
    for i := 1 to cnt
      invariant |s| == i && fresh(s) && IsList(p, s) && pList == s[i - 1]
      invariant forall k :: 0 <= k < i ==> s[k].data == k
    {
      np := new Node(i);
      EndedListIsDistinct(p, s);
      pList.next := np;
      pList := pList.next;
      s := s + [np];
    }
  }
}
