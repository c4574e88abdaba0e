/** The walks that call back for every entry, and emptying a tree. */
module RbWalks {
  import opened RbShapes
  import opened RbColours
  import opened RbRepair
  import opened RbTree

  /** The walk stands at index `k` of the in-order listing of `T`, or at its end. */
  ghost predicate At(T: Tree, entry: Entry?, c: Ctx, t: Tree, k: nat) {
    if entry == null then k == |Inorder(T)|
    else t.Node? && t.e == entry && Plug(c, t) == T && k == Position(c, t)
  }

  /** The callback only sees the entry: `visited` records the calls. */
  method ForEachEntry(tree: RbTree) returns (visited: seq<Entry>)
    requires tree.Valid()
    ensures visited == tree.Contents() && Sorted(tree.compare, visited)
  {
    visited := [];
    ghost var c, t, T, s := Top, tree.tree, tree.tree, Nodes(tree.tree);
    var entry;
    entry, c, t := tree.Head(tree.root, s, c, t);
    while entry != null
      invariant tree.Holds(s, T) && At(T, entry, c, t, |visited|) && visited <= Inorder(T)
      decreases |Inorder(T)| - |visited|
    {
      PositionIsIndex(c, t);
      visited := visited + [entry];
      entry, c, t := tree.Next(entry, s, c, t);
    }
  }

  // ---------- post-order listing ----------

  function Postorder(t: Tree): seq<Entry> {
    if t.Leaf? then [] else Postorder(t.left) + Postorder(t.right) + [t.e]
  }

  function PostBefore(c: Ctx): seq<Entry> {
    if c.Top? then [] else PostBefore(c.up) + if c.d.L? then [] else Postorder(c.sib)
  }

  function PostAfter(c: Ctx): seq<Entry> {
    if c.Top? then [] else (if c.d.L? then Postorder(c.sib) else []) + [c.e] + PostAfter(c.up)
  }

  lemma {:induction false} Regroup(b: seq<Entry>, p: seq<Entry>, q: seq<Entry>, e: Entry, a: seq<Entry>)
    ensures b + (p + q + [e]) + a == (b + []) + p + (q + [e] + a)
    ensures b + (p + q + [e]) + a == (b + p) + q + ([] + [e] + a)
  {
  }

  lemma {:induction false} PostWrap(c: Ctx, t: Tree)
    requires c.Step?
    ensures PostBefore(c.up) + Postorder(Wrap(c, t)) + PostAfter(c.up) == PostBefore(c) + Postorder(t) + PostAfter(c)
  {
    if c.d.L? {
      Regroup(PostBefore(c.up), Postorder(t), Postorder(c.sib), c.e, PostAfter(c.up));
    } else {
      Regroup(PostBefore(c.up), Postorder(c.sib), Postorder(t), c.e, PostAfter(c.up));
    }
  }

  lemma {:induction false} PostPlug(c: Ctx, t: Tree)
    ensures Postorder(Plug(c, t)) == PostBefore(c) + Postorder(t) + PostAfter(c)
    decreases c
  {
    if c.Top? {
    } else {
      PostPlug(c.up, Wrap(c, t));
      PostWrap(c, t);
    }
  }

  /** The index of the root of the focus in the post-order listing: it comes last of its subtree. */
  function PostPosition(c: Ctx, t: Tree): nat
    requires t.Node?
  {
    |PostBefore(c)| + |Postorder(t)| - 1
  }

  lemma {:induction false} PostNodes(t: Tree)
    ensures Elements(Postorder(t)) == Nodes(t) && |Postorder(t)| == Size(t)
  {
    if t.Leaf? {
    } else {
      PostNodes(t.left);
      PostNodes(t.right);
      assert Elements(Postorder(t)) == Elements(Postorder(t.left)) + Elements(Postorder(t.right)) + {t.e};
    }
  }

  ghost predicate Once(s: seq<Entry>) {
    forall i, j | 0 <= i < j < |s| :: s[i] != s[j]
  }

  lemma {:induction false} OnceConcat(a: seq<Entry>, b: seq<Entry>)
    requires Once(a) && Once(b) && Elements(a) !! Elements(b)
    ensures Once(a + b)
  {
    var s := a + b;
    forall i, j | 0 <= i < j < |s|
      ensures s[i] != s[j]
    {
      if i < |a| <= j { assert s[i] in Elements(a) && s[j] in Elements(b); }
    }
  }

  lemma {:induction false} PostOnce(t: Tree)
    requires Distinct(t)
    ensures Once(Postorder(t))
  {
    if t.Leaf? {
    } else {
      PostOnce(t.left);
      PostOnce(t.right);
      PostNodes(t.left);
      PostNodes(t.right);
      OnceConcat(Postorder(t.left), Postorder(t.right));
      assert Elements(Postorder(t.left) + Postorder(t.right)) == Nodes(t.left) + Nodes(t.right);
      OnceConcat(Postorder(t.left) + Postorder(t.right), [t.e]);
    }
  }

  /** In a list without repetitions, what is in the middle part is at the middle part's indices. */
  lemma {:induction false} OnceMiddle(a: seq<Entry>, b: seq<Entry>, d: seq<Entry>, i: nat)
    requires Once(a + b + d) && i < |a + b + d| && (a + b + d)[i] in b
    ensures |a| <= i < |a| + |b|
  {
    var j :| 0 <= j < |b| && b[j] == (a + b + d)[i];
    assert (a + b + d)[|a| + j] == b[j];
  }

  /** A post-order listing gives every entry once, and each after all others of its subtree. */
  lemma {:induction false} ChildrenFirst(T: Tree, c: Ctx, t: Tree)
    requires Distinct(T) && T == Plug(c, t) && t.Node?
    ensures Once(Postorder(T)) && Elements(Postorder(T)) == Nodes(T)
    ensures PostPosition(c, t) < |Postorder(T)| && Postorder(T)[PostPosition(c, t)] == t.e
    ensures forall i | 0 <= i < |Postorder(T)| && Postorder(T)[i] in Nodes(t) :: i <= PostPosition(c, t)
  {
    PostOnce(T);
    PostNodes(T);
    PostPlug(c, t);
    PostNodes(t);
    forall i | 0 <= i < |Postorder(T)| && Postorder(T)[i] in Nodes(t)
      ensures i <= PostPosition(c, t)
    {
      assert Postorder(T)[i] in Elements(Postorder(t));
      OnceMiddle(PostBefore(c), Postorder(t), PostAfter(c), i);
    }
  }

  // ---------- post-order walk: delivered entries may be gone ----------

  /** The heap still holds `t`, except that nothing is known any more of the entries already delivered. */
  ghost predicate HoldsBut(t: Tree, done: set<Entry>)
    reads Nodes(t)
  {
    Distinct(t) && forall x | x in Nodes(t) - done :: LinksOf(x) == LinksAt(t, null, x)
  }

  lemma HereBut(c: Ctx, t: Tree, done: set<Entry>)
    requires t.Node? && HoldsBut(Plug(c, t), done)
    ensures t.e !in done ==> LinksOf(t.e) == Links(Above(c), Root(t.left), Root(t.right), t.red)
    ensures c.Step? && c.e !in done ==> LinksOf(c.e) == HoleLinks(c, t.e)
    ensures c.Step? ==> Root(c.sib) != t.e
  {
    AtFocus(c, t);
  }

  /** When everything before the root of `t` is delivered, nothing that the step to the next entry reads is. */
  lemma {:induction false} NotYet(c: Ctx, t: Tree, done: set<Entry>)
    requires t.Node? && Distinct(Plug(c, t))
    requires PostPosition(c, t) < |Postorder(Plug(c, t))|
    requires done == Elements(Postorder(Plug(c, t))[..PostPosition(c, t)])
    ensures t.e !in done
    ensures c.Step? ==> c.e !in done && (c.d.L? ==> done !! Nodes(c.sib))
  {
    var s, k := Postorder(Plug(c, t)), PostPosition(c, t);
    PostOnce(Plug(c, t));
    PostPlug(c, t);
    assert Elements(s[..k]) !! Elements(s[k..]);
    assert s[k..] == [t.e] + PostAfter(c);
    assert t.e in Elements(s[k..]);
    if c.Step? {
      PostNodes(c.sib);
      assert c.e in Elements(s[k..]);
      assert c.d.L? ==> Elements(Postorder(c.sib)) <= Elements(s[k..]);
    }
  }

  /** The first entry of the subtree at `start` in post-order; `touched` are the entries whose links are read. */
  method PostorderHead(start: Entry?, ghost c0: Ctx, ghost t0: Tree, ghost done: set<Entry>)
    returns (iter: Entry?, ghost c: Ctx, ghost t: Tree, ghost touched: set<Entry>)
    requires HoldsBut(Plug(c0, t0), done) && done !! Nodes(t0) && start == Root(t0)
    ensures HoldsBut(Plug(c0, t0), done) && touched <= Nodes(t0)
    ensures t0.Leaf? ==> iter == null
    ensures t0.Node? ==> t.Node? && iter == t.e && Plug(c, t) == Plug(c0, t0) && PostPosition(c, t) == |PostBefore(c0)|
  {
    iter, c, t, touched := start, c0, t0, {};
    if iter == null {
      return;
    }
    while true
      invariant HoldsBut(Plug(c, t), done)
      invariant t.Node? && iter == t.e && Plug(c, t) == Plug(c0, t0) && Nodes(t) <= Nodes(t0)
      invariant PostBefore(c) == PostBefore(c0) && touched <= Nodes(t0)
      decreases t
    {
      touched := touched + {iter};
      HereBut(c, t, done);
      while iter.left != null
        invariant HoldsBut(Plug(c, t), done)
        invariant t.Node? && iter == t.e && Plug(c, t) == Plug(c0, t0) && Nodes(t) <= Nodes(t0)
        invariant PostBefore(c) == PostBefore(c0) && touched <= Nodes(t0)
        invariant iter.left == Root(t.left) && iter.right == Root(t.right)
        decreases t
      {
        iter := iter.left;
        c, t := Down(L, c, t), t.left;
        touched := touched + {iter};
        HereBut(c, t, done);
      }
      if iter.right == null {
        assert Postorder(t) == [t.e];
        return;
      }
      iter := iter.right;
      c, t := Down(R, c, t), t.right;
    }
  }

  /** The entry after `iter` in post-order; no entry that has been delivered is read on the way. */
  method PostorderNext(iter: Entry, ghost c0: Ctx, ghost t0: Tree, ghost done: set<Entry>)
    returns (r: Entry?, ghost c: Ctx, ghost t: Tree, ghost touched: set<Entry>)
    requires HoldsBut(Plug(c0, t0), done) && t0.Node? && t0.e == iter
    requires PostPosition(c0, t0) < |Postorder(Plug(c0, t0))|
    requires done == Elements(Postorder(Plug(c0, t0))[..PostPosition(c0, t0)])
    ensures HoldsBut(Plug(c0, t0), done) && touched !! done
    ensures r == null ==> PostPosition(c0, t0) + 1 == |Postorder(Plug(c0, t0))|
    ensures r != null ==> t.Node? && r == t.e && Plug(c, t) == Plug(c0, t0)
    ensures r != null ==> PostPosition(c, t) == PostPosition(c0, t0) + 1
  {
    c, t, touched := c0, t0, {iter};
    NotYet(c, t, done);
    HereBut(c, t, done);
    PostPlug(c, t);
    if iter.parent == null {
      return null, c, t, touched;
    }
    touched := touched + {iter.parent};
    if iter == iter.parent.right || iter.parent.right == null {
      return iter.parent, c.up, Wrap(c, t), touched;
    }
    ghost var more;
    FlankPlug(c, t);
    r, c, t, more := PostorderHead(iter.parent.right, Flank(c, t), c.sib, done);
    touched := touched + more;
  }

  /** A callback that may do anything to the entry it is given, such as free it: its links are arbitrary afterwards. */
  method Deliver(entry: Entry, ghost s: set<Entry>, ghost T: Tree, ghost done: set<Entry>)
    requires s == Nodes(T) && HoldsBut(T, done)
    modifies entry
    ensures HoldsBut(T, done + {entry})
  {
    modify entry;
  }

  /** The walk has delivered a prefix of the listing of `T`, and stands at the entry after it. */
  ghost predicate PostAt(T: Tree, entry: Entry?, c: Ctx, t: Tree, delivered: seq<Entry>) {
    && delivered <= Postorder(T)
    && if entry == null then delivered == Postorder(T)
       else t.Node? && t.e == entry && Plug(c, t) == T && |delivered| == PostPosition(c, t)
  }

  lemma {:induction false} PostStep(T: Tree, entry: Entry, c: Ctx, t: Tree, delivered: seq<Entry>)
    requires PostAt(T, entry, c, t, delivered)
    ensures |delivered| < |Postorder(T)| && Postorder(T)[..|delivered|] == delivered
    ensures delivered + [entry] <= Postorder(T) && entry in Nodes(T)
    ensures Elements(delivered + [entry]) == Elements(delivered) + {entry}
  {
    PostPlug(c, t);
    PlugNodes(c, t);
    assert Postorder(T)[PostPosition(c, t)] == t.e;
  }

  /** Delivers every entry of the tree; `delivered` records the calls. */
  method PostorderWalk(tree: RbTree) returns (delivered: seq<Entry>)
    requires tree.Valid()
    modifies Nodes(tree.tree)
    ensures delivered == Postorder(tree.tree)
  {
    delivered := [];
    ghost var c, t, T, s, touched := Top, tree.tree, tree.tree, Nodes(tree.tree), {};
    ghost var done: set<Entry> := {};
    var entry;
    entry, c, t, touched := PostorderHead(tree.root, c, t, done);
    while entry != null
      invariant HoldsBut(T, done) && PostAt(T, entry, c, t, delivered)
      invariant done == Elements(delivered)
      decreases |Postorder(T)| - |delivered|
    {
      PostStep(T, entry, c, t, delivered);
      var next;
      ghost var c', t';
      next, c', t', touched := PostorderNext(entry, c, t, done);
      Deliver(entry, s, T, done);
      delivered, done := delivered + [entry], done + {entry};
      entry, c, t := next, c', t';
    }
  }

  /** Empties the tree, after delivering all entries in post-order when there is a callback. */
  method Clear(tree: RbTree, callback: bool) returns (delivered: seq<Entry>)
    requires tree.Valid()
    modifies tree, Nodes(tree.tree)
    ensures tree.Valid() && tree.Contents() == []
    ensures delivered == if callback then Postorder(old(tree.tree)) else []
  {
    delivered := [];
    if callback {
      delivered := PostorderWalk(tree);
    }
    tree.root := null;
    tree.tree := Leaf;
  }
}
