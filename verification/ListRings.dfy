/** Rings of nodes as sequences: who follows whom, and how that changes when pieces move. */
module ListRings {
  class Node {
    var next: Node
    var prev: Node

    /** list_init */
    constructor ()
      ensures next == this && prev == this
    {
      next, prev := this, this;
    }
  }

  ghost predicate Distinct(s: seq<Node>) {
    forall i, j | 0 <= i < j < |s| :: s[i] != s[j]
  }

  ghost predicate Apart(a: seq<Node>, b: seq<Node>) {
    forall x | x in a :: x !in b
  }

  lemma DistinctJoin(a: seq<Node>, b: seq<Node>)
    ensures Distinct(a + b) <==> Distinct(a) && Distinct(b) && Apart(a, b)
  {
    var s := a + b;
    if Distinct(s) {
      forall i, j | 0 <= i < j < |a| ensures a[i] != a[j] { assert s[i] != s[j]; }
      forall i, j | 0 <= i < j < |b| ensures b[i] != b[j] { assert s[|a| + i] != s[|a| + j]; }
      forall x | x in a ensures x !in b {
        var i :| 0 <= i < |a| && a[i] == x;
        forall j | 0 <= j < |b| ensures b[j] != x { assert s[i] != s[|a| + j]; }
      }
    } else {
      var i, j :| 0 <= i < j < |s| && s[i] == s[j];
      if |a| <= i {
        assert b[i - |a|] == b[j - |a|];
      } else if j < |a| {
        assert a[i] == a[j];
      } else {
        assert a[i] in a && b[j - |a|] in b;
      }
    }
  }

  /** The node after `x` on the way round `s`. */
  ghost function Succ(s: seq<Node>, x: Node): (y: Node)
    requires x in s
    ensures y in s
  {
    var i :| 0 <= i < |s| && s[i] == x;
    if i + 1 == |s| then s[0] else s[i + 1]
  }

  lemma SuccAt(s: seq<Node>, i: nat)
    requires Distinct(s) && i < |s|
    ensures Succ(s, s[i]) == if i + 1 == |s| then s[0] else s[i + 1]
  {
  }

  lemma SuccInjective(s: seq<Node>, x: Node, y: Node)
    requires Distinct(s) && x in s && y in s && Succ(s, x) == Succ(s, y)
    ensures x == y
  {
    var i :| 0 <= i < |s| && s[i] == x;
    var j :| 0 <= j < |s| && s[j] == y;
    SuccAt(s, i);
    SuccAt(s, j);
  }

  /** The links of the nodes of `s` make it a ring, in both directions. */
  ghost predicate Ring(s: seq<Node>)
    reads s
  {
    && s != [] && Distinct(s)
    && forall x {:trigger x.next} | x in s :: x.next == Succ(s, x) && Succ(s, x).prev == x
  }

  /** Where a ring starts does not matter. */
  lemma Turned(a: seq<Node>, b: seq<Node>, x: Node)
    requires Distinct(a + b) && x in a + b
    ensures Distinct(b + a) && x in b + a && Succ(b + a, x) == Succ(a + b, x)
  {
    DistinctJoin(a, b);
    DistinctJoin(b, a);
    var s, t := a + b, b + a;
    var i :| 0 <= i < |s| && s[i] == x;
    SuccAt(s, i);
    var j := if i < |a| then |b| + i else i - |a|;
    assert t[j] == x;
    SuccAt(t, j);
  }

  lemma RingTurned(a: seq<Node>, b: seq<Node>)
    ensures Ring(a + b) <==> Ring(b + a)
  {
    DistinctJoin(a, b);
    DistinctJoin(b, a);
    if Distinct(a + b) {
      forall x | x in a + b ensures x in b + a && Succ(b + a, x) == Succ(a + b, x) { Turned(a, b, x); }
      forall x | x in b + a ensures x in a + b && Succ(b + a, x) == Succ(a + b, x) { Turned(b, a, x); }
    }
  }

  /** The node after `x` once `m` has been put between `a` and `b`: only the nodes before the two joints change. */
  ghost function PutNext(a: seq<Node>, m: seq<Node>, b: seq<Node>, x: Node): Node
    requires a != [] && m != [] && x in a + m + b
  {
    if x == a[|a| - 1] then m[0]
    else if x == m[|m| - 1] then (b + a)[0]
    else if x in m then Succ(m, x)
    else Succ(a + b, x)
  }

  lemma PutSuccBefore(a: seq<Node>, m: seq<Node>, b: seq<Node>, k: nat)
    requires a != [] && m != [] && Distinct(a + b) && Distinct(a + m + b) && k < |a|
    ensures Succ(a + m + b, a[k]) == PutNext(a, m, b, a[k])
  {
    var s, n := a + m + b, |a|;
    assert s[k] == a[k] == (a + b)[k] && s[n - 1] == a[n - 1];
    SuccAt(s, k);
    SuccAt(a + b, k);
    assert forall j | 0 <= j < |m| :: s[n + j] == m[j];
  }

  lemma PutSuccIn(a: seq<Node>, m: seq<Node>, b: seq<Node>, k: nat)
    requires a != [] && m != [] && Distinct(m) && Distinct(a + m + b) && k < |m|
    ensures Succ(a + m + b, m[k]) == PutNext(a, m, b, m[k])
  {
    var s, n := a + m + b, |a|;
    assert s[n + k] == m[k] && s[n - 1] == a[n - 1] && s[n + |m| - 1] == m[|m| - 1];
    SuccAt(s, n + k);
    SuccAt(m, k);
  }

  lemma PutSuccAfter(a: seq<Node>, m: seq<Node>, b: seq<Node>, k: nat)
    requires a != [] && m != [] && Distinct(a + b) && Distinct(a + m + b) && k < |b|
    ensures Succ(a + m + b, b[k]) == PutNext(a, m, b, b[k])
  {
    var s, n, e := a + m + b, |a|, |a| + |m|;
    assert s[e + k] == b[k] == (a + b)[n + k] && s[n - 1] == a[n - 1];
    SuccAt(s, e + k);
    SuccAt(a + b, n + k);
    assert forall j | 0 <= j < |m| :: s[n + j] == m[j];
  }

  lemma PutSucc(a: seq<Node>, m: seq<Node>, b: seq<Node>, x: Node)
    requires a != [] && m != [] && Distinct(a + b) && Distinct(m) && Distinct(a + m + b) && x in a + m + b
    ensures Succ(a + m + b, x) == PutNext(a, m, b, x)
  {
    var k :| 0 <= k < |a + m + b| && (a + m + b)[k] == x;
    if k < |a| {
      PutSuccBefore(a, m, b, k);
    } else if k < |a| + |m| {
      PutSuccIn(a, m, b, k - |a|);
    } else {
      PutSuccAfter(a, m, b, k - |a| - |m|);
    }
  }

  /** No other node leads to the nodes after the joints. */
  lemma PutSuccApart(a: seq<Node>, m: seq<Node>, b: seq<Node>, x: Node)
    requires a != [] && m != [] && Distinct(a + b) && Distinct(m) && Distinct(a + m + b) && x in a + m + b
    ensures x != a[|a| - 1] ==> Succ(a + m + b, x) != m[0]
    ensures x != m[|m| - 1] ==> Succ(a + m + b, x) != (b + a)[0]
  {
    var s, before, last := a + m + b, a[|a| - 1], m[|m| - 1];
    assert s[|a| - 1] == before && s[|a| + |m| - 1] == last;
    PutSucc(a, m, b, before);
    PutSucc(a, m, b, last);
    if Succ(s, x) == Succ(s, before) { SuccInjective(s, x, before); }
    if Succ(s, x) == Succ(s, last) { SuccInjective(s, x, last); }
  }

  /** The node after `x` once the piece between `a` and `b` has been taken out. */
  lemma CutSucc(a: seq<Node>, m: seq<Node>, b: seq<Node>, x: Node)
    requires a != [] && Distinct(a + m + b) && x in a + b
    ensures Distinct(a + b) && x in a + m + b
    ensures Succ(a + b, x) == if x == a[|a| - 1] then (b + a)[0] else Succ(a + m + b, x)
  {
    DistinctJoin(a + m, b);
    DistinctJoin(a, m);
    DistinctJoin(a, b);
    var s, t := a + m + b, a + b;
    var k :| 0 <= k < |t| && t[k] == x;
    var j := if k < |a| then k else k + |m|;
    assert s[j] == x && t[|a| - 1] == a[|a| - 1];
    SuccAt(t, k);
    SuccAt(s, j);
  }
}
