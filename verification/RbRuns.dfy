/** Whole runs of a tree against a finite map. */
module RbRuns {
  import opened RbShapes
  import opened RbColours
  import opened RbTree
  import opened RbWalks

  datatype Op = PutOp(entry: Entry) | GetOp(key: Key) | RemoveKeyOp(key: Key) | ClearOp(callback: bool)

  datatype Result = Status(r: int) | Found(e: Entry?) | Nothing

  /** A finite map from keys to entries, as the set of its entries: no two have keys that compare equal. */
  ghost predicate IsMap(cmp: Compare, m: set<Entry>) {
    forall x, y | x in m && y in m && x != y :: cmp(x.key, y.key) != 0
  }

  ghost predicate HasKey(cmp: Compare, m: set<Entry>, key: Key) {
    exists x | x in m :: cmp(key, x.key) == 0
  }

  /** What an operation does to a finite map, and what it answers. */
  ghost predicate MapStep(cmp: Compare, m: set<Entry>, op: Op, m': set<Entry>, r: Result) {
    match op
    case PutOp(e) =>
      if HasKey(cmp, m, e.key) then m' == m && r == Status(-1) else m' == m + {e} && r == Status(0)
    case GetOp(key) =>
      && m' == m && r.Found?
      && if HasKey(cmp, m, key) then r.e != null && r.e in m && cmp(key, r.e.key) == 0 else r.e == null
    case RemoveKeyOp(key) =>
      && r == Nothing && m' == set x | x in m && cmp(key, x.key) != 0
    case ClearOp(_) => m' == {} && r == Nothing
  }

  /** The answers of a run, from the empty map, are those of the finite map. */
  ghost predicate MapRun(cmp: Compare, ops: seq<Op>, maps: seq<set<Entry>>, rs: seq<Result>) {
    && |maps| == |ops| + 1 && |rs| == |ops| && maps[0] == {}
    && forall i | 0 <= i < |ops| :: MapStep(cmp, maps[i], ops[i], maps[i + 1], rs[i])
  }

  lemma {:induction false} SortedIsMap(cmp: Compare, t: Tree)
    requires Consistent(cmp) && Sorted(cmp, Inorder(t))
    ensures IsMap(cmp, Nodes(t))
  {
    forall x, y | x in Nodes(t) && y in Nodes(t) && x != y
      ensures cmp(x.key, y.key) != 0
    {
      var s := Inorder(t);
      InorderNodes(t);
      assert x in Elements(s) && y in Elements(s);
      var i :| 0 <= i < |s| && s[i] == x;
      var j :| 0 <= j < |s| && s[j] == y;
      assert cmp(y.key, x.key) < 0 <==> cmp(x.key, y.key) > 0;
    }
  }

  function EntriesOf(ops: seq<Op>): set<Entry> {
    set o | o in ops && o.PutOp? :: o.entry
  }

  lemma {:induction false} InsertElements(s: seq<Entry>, k: nat, x: Entry)
    requires k <= |s|
    ensures Elements(s[..k] + [x] + s[k..]) == Elements(s) + {x}
  {
    assert s == s[..k] + s[k..];
  }

  /** In a sorted list, at most one key is equal to a given one. */
  lemma {:induction false} OnlyOneEqual(cmp: Compare, s: seq<Entry>, k: nat, key: Key)
    requires Consistent(cmp) && Sorted(cmp, s) && k < |s| && cmp(key, s[k].key) == 0
    ensures forall i | 0 <= i < |s| && i != k :: cmp(key, s[i].key) != 0
  {
    forall i | 0 <= i < |s| && i != k
      ensures cmp(key, s[i].key) != 0
    {
      if i < k {
        assert cmp(s[k].key, key) <= 0;
        LessThrough(cmp, s[i].key, s[k].key, key);
      } else {
        LessThrough(cmp, key, s[k].key, s[i].key);
      }
    }
  }

  lemma {:induction false} RemoveElements(cmp: Compare, s: seq<Entry>, k: nat, key: Key)
    requires k < |s| && cmp(key, s[k].key) == 0
    requires forall i | 0 <= i < |s| && i != k :: cmp(key, s[i].key) != 0
    ensures Elements(s[..k] + s[k + 1..]) == set x | x in Elements(s) && cmp(key, x.key) != 0
  {
    var r := s[..k] + s[k + 1..];
    assert s == s[..k] + [s[k]] + s[k + 1..];
    assert Elements(s) == Elements(r) + {s[k]};
    forall x | x in Elements(r)
      ensures cmp(key, x.key) != 0
    {
      var i :| 0 <= i < |r| && r[i] == x;
      assert x == s[if i < k then i else i + 1];
    }
  }

  /** One operation of a run, and the answer it gives. */
  method Step(tree: RbTree, op: Op, ghost m: set<Entry>, ghost all: set<Entry>) returns (r: Result)
    requires tree.Valid() && m == Nodes(tree.tree) && m <= all && (op.PutOp? ==> op.entry in all)
    modifies tree, all
    ensures tree.Valid() && Nodes(tree.tree) <= all
    ensures MapStep(tree.compare, m, op, Nodes(tree.tree), r)
  {
    InorderNodes(tree.tree);
    match op
    case PutOp(e) =>
      var status;
      ghost var k;
      ghost var s := tree.Contents();
      status, k := tree.Put(e.key, e);
      InorderNodes(tree.tree);
      if status == 0 { InsertElements(s, k, e); }
      r := Status(status);
    case GetOp(key) =>
      var e;
      ghost var steps;
      e, steps := tree.Get(key);
      r := Found(e);
    case RemoveKeyOp(key) =>
      ghost var s := tree.Contents();
      ghost var k := tree.RemoveKey(key);
      InorderNodes(tree.tree);
      if HasKey(tree.compare, m, key) {
        OnlyOneEqual(tree.compare, s, k, key);
        RemoveElements(tree.compare, s, k, key);
      }
      r := Nothing;
    case ClearOp(callback) =>
      var delivered := Clear(tree, callback);
      r := Nothing;
  }

  /**
   * Any run from an empty tree: `maps` are the successive values of a finite map that answers the same.
   * An entry may come up in several operations, also while it is still in the tree, and after a clear whose callback
   * has overwritten it.
   */
  method Run(tree: RbTree, ops: seq<Op>) returns (rs: seq<Result>, ghost maps: seq<set<Entry>>)
    requires tree.Valid() && tree.Contents() == []
    modifies tree, EntriesOf(ops)
    ensures tree.Valid() && MapRun(tree.compare, ops, maps, rs)
    ensures Elements(tree.Contents()) == maps[|ops|] && IsMap(tree.compare, maps[|ops|])
  {
    InorderNodes(tree.tree);
    ghost var all := EntriesOf(ops);
    rs, maps := [], [{}];
    for i := 0 to |ops|
      invariant tree.Valid() && |rs| == i && |maps| == i + 1 && maps[0] == {}
      invariant maps[i] == Nodes(tree.tree) && maps[i] <= all
      invariant forall j | 0 <= j < i :: MapStep(tree.compare, maps[j], ops[j], maps[j + 1], rs[j])
    {
      var r := Step(tree, ops[i], maps[i], all);
      rs, maps := rs + [r], maps + [Nodes(tree.tree)];
    }
    InorderNodes(tree.tree);
    SortedIsMap(tree.compare, tree.tree);
  }
}
