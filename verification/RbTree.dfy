/** The red-black tree in the heap: rotations, insertion, removal, lookup and the steps of a walk, in place. */
module RbTree {
  import opened RbShapes
  import opened RbColours
  import opened RbRepair

  ghost function LinksOf(x: Entry): Links
    reads x
  {
    Links(x.parent, x.left, x.right, x.red)
  }

  predicate IsRedEntry(e: Entry?)
    reads e
  {
    e != null && e.red
  }

  class RbTree {
    const compare: Compare
    var root: Entry?
    /** The tree that the heap holds. */
    ghost var tree: Tree

    /** The heap holds exactly the entries `s`, in the shape `t`. */
    ghost predicate Holds(s: set<Entry>, t: Tree)
      reads this, s
    {
      && root == Root(t) && Distinct(t) && Nodes(t) == s
      && forall x | x in s :: LinksOf(x) == LinksAt(t, null, x)
    }

    /** Search order, parent links, no red node with a red child, equal black height, black root. */
    ghost predicate Valid()
      reads this, Nodes(tree)
    {
      && Consistent(compare)
      && Holds(Nodes(tree), tree)
      && RedBlack(tree)
      && Sorted(compare, Inorder(tree))
    }

    /** The entries, in key order. */
    ghost function Contents(): seq<Entry>
      reads this
    {
      Inorder(tree)
    }

    constructor (compare: Compare)
      requires Consistent(compare)
      ensures Valid() && Contents() == [] && this.compare == compare
    {
      this.compare := compare;
      root := null;
      tree := Leaf;
    }

    lemma Here(s: set<Entry>, c: Ctx, t: Tree)
      requires Holds(s, Plug(c, t)) && t.Node?
      ensures t.e in s && LinksOf(t.e) == Links(Above(c), Root(t.left), Root(t.right), t.red)
    {
      AtFocus(c, t);
    }

    /** What the code can read around the focus `t`: its parent, its side, its sibling. */
    lemma Around(s: set<Entry>, c: Ctx, t: Tree)
      requires Holds(s, Plug(c, t)) && t.Node? && c.Step?
      ensures t.e in s && LinksOf(t.e) == Links(c.e, Root(t.left), Root(t.right), t.red)
      ensures c.e in s && c.e.parent == Above(c.up) && c.e.red == c.red
      ensures c.e.left == (if c.d.L? then t.e else Root(c.sib))
      ensures c.e.right == (if c.d.L? then Root(c.sib) else t.e)
      ensures Root(c.sib) != t.e
      ensures c.sib.Node? ==> c.sib.e in s && c.sib.e.red == c.sib.red
    {
      AtFocus(c, t);
      if c.sib.Node? {
        AtFocus(Step(Opp(c.d), c.red, c.e, t, c.up), c.sib);
      }
    }

    method RotateLeft(e: Entry, ghost s: set<Entry>, ghost h: View)
      requires CanRotate(L, s, h, e) && forall x | x in s :: LinksOf(x) == h(x)
      modifies this`root, s
      ensures root == if h(e).parent == null then h(e).right else old(root)
      ensures forall x | x in s :: LinksOf(x) == RotateLinks(L, h, e, h(e).right, x)
    {
      var right := e.right;
      if e.parent == null {
        root := right;
      } else if e.parent.left == e {
        e.parent.left := right;
      } else {
        e.parent.right := right;
      }
      e.right := right.left;
      if e.right != null {
        e.right.parent := e;
      }
      right.left := e;
      right.parent := e.parent;
      e.parent := right;
    }

    method RotateRight(e: Entry, ghost s: set<Entry>, ghost h: View)
      requires CanRotate(R, s, h, e) && forall x | x in s :: LinksOf(x) == h(x)
      modifies this`root, s
      ensures root == if h(e).parent == null then h(e).left else old(root)
      ensures forall x | x in s :: LinksOf(x) == RotateLinks(R, h, e, h(e).left, x)
    {
      var left := e.left;
      if e.parent == null {
        root := left;
      } else if e.parent.left == e {
        e.parent.left := left;
      } else {
        e.parent.right := left;
      }
      e.left := left.right;
      if e.left != null {
        e.left.parent := e;
      }
      left.right := e;
      left.parent := e.parent;
      e.parent := left;
    }

    method RotateLeftAt(e: Entry, ghost s: set<Entry>, ghost c: Ctx, ghost t: Tree)
      requires Holds(s, Plug(c, t)) && t.Node? && t.e == e && t.right.Node?
      modifies this`root, s
      ensures Holds(s, Plug(c, Rotated(L, t)))
    {
      RotateAllowed(L, c, t);
      RotateTree(L, c, t);
      RotateLeft(e, s, ViewOf(Plug(c, t)));
    }

    method RotateRightAt(e: Entry, ghost s: set<Entry>, ghost c: Ctx, ghost t: Tree)
      requires Holds(s, Plug(c, t)) && t.Node? && t.e == e && t.left.Node?
      modifies this`root, s
      ensures Holds(s, Plug(c, Rotated(R, t)))
    {
      RotateAllowed(R, c, t);
      RotateTree(R, c, t);
      RotateRight(e, s, ViewOf(Plug(c, t)));
    }

    method Paint(e: Entry, red: bool, ghost s: set<Entry>, ghost c: Ctx, ghost t: Tree)
      requires Holds(s, Plug(c, t)) && t.Node? && t.e == e
      modifies this`root, s
      ensures Holds(s, Plug(c, Painted(t, red)))
    {
      RepaintTree(c, t, red);
      e.red := red;
    }

    /** Flips the colours of an entry and of both its children. */
    method FlipColor(entry: Entry, ghost s: set<Entry>, ghost c: Ctx, ghost t: Tree)
      requires Holds(s, Plug(c, t)) && t.Node? && t.e == entry && t.left.Node? && t.right.Node?
      modifies this`root, s
      ensures Holds(s, Plug(c, Flipped(t)))
    {
      Here(s, c, t);
      Here(s, Down(L, c, t), t.left);
      Paint(entry, !entry.red, s, c, t);
      ghost var t1 := Painted(t, !t.red);
      Here(s, c, t1);
      Here(s, Down(L, c, t1), t1.left);
      Paint(entry.left, !entry.left.red, s, Down(L, c, t1), t1.left);
      ghost var t2 := t1.(left := Painted(t1.left, !t1.left.red));
      Here(s, c, t2);
      Here(s, Down(R, c, t2), t2.right);
      Paint(entry.right, !entry.right.red, s, Down(R, c, t2), t2.right);
    }

    /**
     * The search of `Put`: the entry with an equal key, or else the place where the key belongs,
     * which is child `goLeft` of `parent`, or the root when the tree is empty.
     */
    method FindPlace(key: Key) returns (found: Entry?, parent: Entry?, goLeft: bool, ghost c: Ctx, ghost t: Tree)
      requires Valid()
      ensures Valid() && Plug(c, t) == tree && found == Root(t)
      ensures found != null ==> compare(key, found.key) == 0
      ensures found == null ==> parent == Above(c)
      ensures c.Step? ==> goLeft == c.d.L?
      ensures forall x | x in Before(c) :: compare(key, x.key) > 0
      ensures forall x | x in After(c) :: compare(key, x.key) < 0
    {
      var iter := root;
      parent, goLeft := root, false;
      c, t := Top, tree;
      while iter != null
        invariant Valid() && Plug(c, t) == tree && iter == Root(t)
        invariant c.Top? ==> parent == root
        invariant c.Step? ==> parent == c.e && goLeft == c.d.L?
        invariant forall x | x in Before(c) :: compare(key, x.key) > 0
        invariant forall x | x in After(c) :: compare(key, x.key) < 0
        decreases t
      {
        parent := iter;
        var o := compare(key, parent.key);
        if o == 0 {
          return iter, parent, goLeft, c, t;
        }
        Here(Nodes(tree), c, t);
        Narrow(compare, key, c, t);
        if o < 0 {
          iter, goLeft := parent.left, true;
          c, t := Down(L, c, t), t.left;
        } else {
          iter, goLeft := parent.right, false;
          c, t := Down(R, c, t), t.right;
        }
      }
      found := null;
    }

    /** `tree` with `entry` hung in the empty place that `FindPlace` found. */
    method Link(entry: Entry, parent: Entry?, goLeft: bool, ghost s: set<Entry>, ghost c: Ctx)
      requires Holds(s, Plug(c, Leaf)) && entry !in s
      requires parent == Above(c) && (c.Step? ==> goLeft == c.d.L?)
      modifies this`root, s, entry
      ensures Holds(s + {entry}, Plug(c, Node(true, Leaf, entry, Leaf)))
    {
      LinkTree(c, entry);
      PlugNodes(c, Leaf);
      entry.red := true;
      entry.parent := parent;
      entry.left := null;
      entry.right := null;
      if parent == null {
        root := entry;
      } else if goLeft {
        parent.left := entry;
      } else {
        parent.right := entry;
      }
    }

    /** Red parent, black uncle, all leaning left: the repainting and the rotation that end the repair. */
    method PutOuterLeft(e: Entry, ghost s: set<Entry>, ghost c: Ctx, ghost t: Tree)
      requires Holds(s, Plug(c, t)) && t.Node? && t.e == e
      requires c.Step? && c.up.Step? && c.d.L? && c.up.d.L?
      modifies this`root, s
      ensures Holds(s, Plug(c.up.up, OuterRepair(c, t)))
    {
      ghost var p := Painted(Wrap(c, t), false);
      ghost var g := Painted(Wrap(c.up, p), true);
      Around(s, c, t);
      Paint(e.parent, false, s, c.up, Wrap(c, t));
      Around(s, Step(c.d, false, c.e, c.sib, c.up), t);
      Around(s, c.up, p);
      Paint(e.parent.parent, true, s, c.up.up, Wrap(c.up, p));
      Around(s, Down(L, c.up.up, g), p);
      Around(s, Down(L, Down(L, c.up.up, g), p), t);
      RotateRightAt(e.parent.parent, s, c.up.up, g);
    }

    method PutOuterRight(e: Entry, ghost s: set<Entry>, ghost c: Ctx, ghost t: Tree)
      requires Holds(s, Plug(c, t)) && t.Node? && t.e == e
      requires c.Step? && c.up.Step? && c.d.R? && c.up.d.R?
      modifies this`root, s
      ensures Holds(s, Plug(c.up.up, OuterRepair(c, t)))
    {
      ghost var p := Painted(Wrap(c, t), false);
      ghost var g := Painted(Wrap(c.up, p), true);
      Around(s, c, t);
      Paint(e.parent, false, s, c.up, Wrap(c, t));
      Around(s, Step(c.d, false, c.e, c.sib, c.up), t);
      Around(s, c.up, p);
      Paint(e.parent.parent, true, s, c.up.up, Wrap(c.up, p));
      Around(s, Down(R, c.up.up, g), p);
      Around(s, Down(R, Down(R, c.up.up, g), p), t);
      RotateLeftAt(e.parent.parent, s, c.up.up, g);
    }

    /** The round of the insertion repair for a black uncle.  It leaves the parent black. */
    method PutRotate(entry: Entry, ghost s: set<Entry>, ghost c: Ctx, ghost t: Tree, ghost h: nat)
      returns (e: Entry, ghost c': Ctx, ghost t': Tree)
      requires Holds(s, Plug(c, t)) && RedUnderRed(c, t, h) && t.e == entry && !IsRed(c.up.sib)
      modifies this`root, s
      ensures Holds(s, Plug(c', t')) && t'.Node? && t'.e == e && Repaired(c', t', h)
      ensures Depth(c') < Depth(c) && Inorder(Plug(c', t')) == Inorder(Plug(c, t))
    {
      e, c', t' := entry, c, t;
      ghost var p := Wrap(c, t);
      Around(s, c, t);
      Around(s, c.up, p);
      if c.d != c.up.d {
        InnerStep(c, t, h);
        SameInorder(c.up, p, Rotated(c.up.d, p));
        c', t' := Down(c.up.d, c.up, Rotated(c.up.d, p)), Kid(Rotated(c.up.d, p), c.up.d);
      }
      if e.parent == e.parent.parent.left {
        if e == e.parent.right {
          e := e.parent;
          RotateLeftAt(e, s, c.up, p);
        }
        PutOuterLeft(e, s, c', t');
      } else {
        if e == e.parent.left {
          e := e.parent;
          RotateRightAt(e, s, c.up, p);
        }
        PutOuterRight(e, s, c', t');
      }
      OuterStep(c', t', h);
      SameInorder(c'.up.up, Wrap(c'.up, Wrap(c', t')), OuterRepair(c', t'));
      c' := Down(c'.d, c'.up.up, OuterRepair(c', t'));
    }

    /** The round of the insertion repair for a red uncle.  It moves the red node two levels up. */
    method PutFlip(entry: Entry, ghost s: set<Entry>, ghost c: Ctx, ghost t: Tree, ghost h: nat)
      returns (e: Entry, ghost c': Ctx, ghost t': Tree)
      requires Holds(s, Plug(c, t)) && RedUnderRed(c, t, h) && t.e == entry && IsRed(c.up.sib)
      modifies this`root, s
      ensures Holds(s, Plug(c', t')) && t'.Node? && t'.e == e
      ensures IsRed(t') && RB(t', h + 1) && CtxRB(c', h + 1)
      ensures Depth(c') < Depth(c) && Inorder(Plug(c', t')) == Inorder(Plug(c, t))
    {
      ghost var p := Wrap(c, t);
      ghost var g := Wrap(c.up, p);
      Around(s, c, t);
      Around(s, c.up, p);
      FlipStep(c, t, h);
      FlipColor(entry.parent.parent, s, c.up.up, g);
      c', t' := c.up.up, Flipped(g);
      SameInorder(c', g, t');
      ghost var p' := Kid(t', c.up.d);
      Around(s, Down(c.up.d, c', t'), p');
      Around(s, Down(c.d, Down(c.up.d, c', t'), p'), t);
      e := entry.parent.parent;
    }

    /** The grandparent exists, and the uncle is where the code looks for it. */
    lemma AtGrandparent(s: set<Entry>, c: Ctx, t: Tree)
      requires Holds(s, Plug(c, t)) && t.Node? && c.Step? && c.up.Step?
      ensures t.e.parent == c.e && c.e.parent == c.up.e
      ensures c.up.e.left == c.e <==> c.up.d.L?
      ensures (if c.up.d.L? then c.up.e.right else c.up.e.left) == Root(c.up.sib)
      ensures IsRedEntry(Root(c.up.sib)) == IsRed(c.up.sib)
    {
      Around(s, c, t);
      Around(s, c.up, Wrap(c, t));
    }

    method PutRound(entry: Entry, ghost s: set<Entry>, ghost c: Ctx, ghost t: Tree, ghost h: nat)
      returns (e: Entry, ghost c': Ctx, ghost t': Tree, ghost h': nat)
      requires Holds(s, Plug(c, t)) && RedUnderRed(c, t, h) && t.e == entry
      modifies this`root, s
      ensures Holds(s, Plug(c', t')) && t'.Node? && t'.e == e && Pending(c', t', h')
      ensures Depth(c') < Depth(c) && Inorder(Plug(c', t')) == Inorder(Plug(c, t))
    {
      AtGrandparent(s, c, t);
      if entry.parent == entry.parent.parent.left {
        if IsRedEntry(entry.parent.parent.right) {
          e, c', t' := PutFlip(entry, s, c, t, h);
          h' := h + 1;
        } else {
          e, c', t' := PutRotate(entry, s, c, t, h);
          h' := h;
        }
      } else {
        if IsRedEntry(entry.parent.parent.left) {
          e, c', t' := PutFlip(entry, s, c, t, h);
          h' := h + 1;
        } else {
          e, c', t' := PutRotate(entry, s, c, t, h);
          h' := h;
        }
      }
    }

    lemma AtEntry(s: set<Entry>, c: Ctx, t: Tree)
      requires Holds(s, Plug(c, t)) && t.Node?
      ensures t.e in s && t.e.parent == Above(c) && IsRedEntry(t.e.parent) == CtxRed(c)
    {
      Here(s, c, t);
      if c.Step? { Around(s, c, t); }
    }

    /** Repairs two reds in a row, bottom up. */
    method PutFixup(entry: Entry, ghost s: set<Entry>, ghost c0: Ctx, ghost t0: Tree, ghost h0: nat)
      returns (ghost c: Ctx, ghost t: Tree, ghost h: nat)
      requires Holds(s, Plug(c0, t0)) && t0.Node? && t0.e == entry && Pending(c0, t0, h0)
      modifies this`root, s
      ensures Holds(s, Plug(c, t)) && Repaired(c, t, h)
      ensures Inorder(Plug(c, t)) == Inorder(Plug(c0, t0))
    {
      var e := entry;
      c, t, h := c0, t0, h0;
      AtEntry(s, c, t);
      while IsRedEntry(e.parent)
        invariant Holds(s, Plug(c, t)) && t.Node? && t.e == e && Pending(c, t, h)
        invariant IsRedEntry(e.parent) == CtxRed(c)
        invariant Inorder(Plug(c, t)) == Inorder(Plug(c0, t0))
        decreases Depth(c)
      {
        e, c, t, h := PutRound(e, s, c, t, h);
        AtEntry(s, c, t);
      }
    }

    method Blacken(ghost s: set<Entry>, ghost t: Tree)
      requires Holds(s, t) && t.Node?
      modifies this`root, s
      ensures Holds(s, Painted(t, false))
    {
      Paint(root, false, s, Top, t);
    }

    /** The insertion proper, once the place is known. */
    method PutAt(entry: Entry, parent: Entry?, goLeft: bool, ghost c: Ctx)
      requires Holds(Nodes(tree), tree) && RedBlack(tree) && entry !in Nodes(tree)
      requires tree == Plug(c, Leaf) && parent == Above(c) && (c.Step? ==> goLeft == c.d.L?)
      modifies this, Nodes(tree), entry
      ensures Holds(Nodes(tree), tree) && RedBlack(tree)
      ensures Inorder(tree) == Inorder(Plug(c, Node(true, Leaf, entry, Leaf)))
    {
      ghost var s, t := Nodes(tree) + {entry}, Node(true, Leaf, entry, Leaf);
      ghost var h := Unplug(c, Leaf);
      Link(entry, parent, goLeft, Nodes(tree), c);
      ghost var c', t';
      c', t', h := PutFixup(entry, s, c, t, h);
      BlackenRoot(c', t', h);
      Blacken(s, Plug(c', t'));
      tree := Painted(Plug(c', t'), false);
    }

    /**
     * Adds `entry` unless an entry with an equal key is present.  As `Valid` says that `tree` fixes every
     * link of every entry in it, an unchanged `tree` means unchanged links.
     */
    method Put(key: Key, entry: Entry) returns (r: int, ghost k: nat)
      requires Valid() && compare(key, entry.key) == 0
      modifies this, Nodes(tree), entry
      ensures Valid()
      ensures r == -1 || r == 0
      ensures r == -1 <==> exists x | x in old(Contents()) :: compare(key, x.key) == 0
      ensures r == -1 ==> root == old(root) && tree == old(tree) && LinksOf(entry) == old(LinksOf(entry))
      ensures r == 0 ==> k <= |old(Contents())|
      ensures r == 0 ==> Contents() == old(Contents())[..k] + [entry] + old(Contents())[k..]
    {
      var found, parent, goLeft;
      ghost var c, t;
      found, parent, goLeft, c, t := FindPlace(key);
      k := |Before(c)|;
      if found != null {
        FocusIsListed(c, t);
        return -1, k;
      }
      PlaceIsFree(compare, key, c, entry);
      InsertInOrder(compare, key, c, entry);
      PutAt(entry, parent, goLeft, c);
      r := 0;
    }

    // ---------- removal ----------

    /** Red sibling, focus on the left. */
    method RemoveRedSiblingLeft(parent: Entry, ghost s: set<Entry>, ghost c: Ctx, ghost t: Tree) returns (w: Entry)
      requires Holds(s, Plug(c, t)) && c.Step? && c.d.L? && c.e == parent
      requires c.sib.Node? && c.sib.left.Node?
      modifies this`root, s
      ensures Holds(s, Plug(c.up, RedSiblingRepair(c, t))) && w == c.sib.left.e
    {
      FlankPlug(c, t);
      Around(s, Flank(c, t), c.sib);
      w := parent.right;
      Paint(w, false, s, Flank(c, t), c.sib);
      ghost var c1 := WithSib(c, Painted(c.sib, false));
      FlankPlug(c1, t);
      Paint(parent, true, s, c.up, Wrap(c1, t));
      RotateLeftAt(parent, s, c.up, Painted(Wrap(c1, t), true));
      Here(s, Down(L, c.up, RedSiblingRepair(c, t)), RedSiblingRepair(c, t).left);
      w := parent.right;
    }

    /** Black sibling whose red child is the near one, focus on the left. */
    method RemoveNearLeft(parent: Entry, w: Entry, ghost s: set<Entry>, ghost c: Ctx, ghost t: Tree) returns (w': Entry)
      requires Holds(s, Plug(c, t)) && c.Step? && c.d.L? && c.e == parent
      requires c.sib.Node? && c.sib.e == w && c.sib.left.Node?
      modifies this`root, s
      ensures Holds(s, Plug(WithSib(c, NearRepair(c)), t)) && w' == c.sib.left.e
    {
      ghost var f := Flank(c, t);
      FlankPlug(c, t);
      Here(s, f, c.sib);
      Paint(w.left, false, s, Down(L, f, c.sib), c.sib.left);
      ghost var w1 := WithKid(c.sib, L, Painted(c.sib.left, false));
      Paint(w, true, s, f, w1);
      RotateRightAt(w, s, f, Painted(w1, true));
      Around(s, f, NearRepair(c));
      FlankPlug(WithSib(c, NearRepair(c)), t);
      w' := parent.right;
    }

    /** Black sibling whose far child is red, focus on the left. */
    method RemoveFarLeft(parent: Entry, w: Entry, ghost s: set<Entry>, ghost c: Ctx, ghost t: Tree)
      requires Holds(s, Plug(c, t)) && c.Step? && c.d.L? && c.e == parent
      requires c.sib.Node? && c.sib.e == w && c.sib.right.Node?
      modifies this`root, s
      ensures Holds(s, Plug(c.up, FarRepair(c, t)))
    {
      ghost var f := Flank(c, t);
      FlankPlug(c, t);
      Around(s, f, c.sib);
      Paint(w, parent.red, s, f, c.sib);
      ghost var w1 := Painted(c.sib, c.red);
      FlankPlug(WithSib(c, w1), t);
      Paint(parent, false, s, c.up, Wrap(WithSib(c, w1), t));
      ghost var c1 := Step(L, false, c.e, w1, c.up);
      FlankPlug(c1, t);
      Here(s, Flank(c1, t), w1);
      if w.right != null {
        Paint(w.right, false, s, Down(R, Flank(c1, t), w1), w1.right);
      }
      ghost var w2 := WithKid(w1, R, Painted(w1.right, false));
      FlankPlug(WithSib(c1, w2), t);
      RotateLeftAt(parent, s, c.up, Wrap(WithSib(c1, w2), t));
    }

    /** Red sibling, focus on the right. */
    method RemoveRedSiblingRight(parent: Entry, ghost s: set<Entry>, ghost c: Ctx, ghost t: Tree) returns (w: Entry)
      requires Holds(s, Plug(c, t)) && c.Step? && c.d.R? && c.e == parent
      requires c.sib.Node? && c.sib.right.Node?
      modifies this`root, s
      ensures Holds(s, Plug(c.up, RedSiblingRepair(c, t))) && w == c.sib.right.e
    {
      FlankPlug(c, t);
      Around(s, Flank(c, t), c.sib);
      w := parent.left;
      Paint(w, false, s, Flank(c, t), c.sib);
      ghost var c1 := WithSib(c, Painted(c.sib, false));
      FlankPlug(c1, t);
      Paint(parent, true, s, c.up, Wrap(c1, t));
      RotateRightAt(parent, s, c.up, Painted(Wrap(c1, t), true));
      Here(s, Down(R, c.up, RedSiblingRepair(c, t)), RedSiblingRepair(c, t).right);
      w := parent.left;
    }

    /** Black sibling whose red child is the near one, focus on the right. */
    method RemoveNearRight(parent: Entry, w: Entry, ghost s: set<Entry>, ghost c: Ctx, ghost t: Tree) returns (w': Entry)
      requires Holds(s, Plug(c, t)) && c.Step? && c.d.R? && c.e == parent
      requires c.sib.Node? && c.sib.e == w && c.sib.right.Node?
      modifies this`root, s
      ensures Holds(s, Plug(WithSib(c, NearRepair(c)), t)) && w' == c.sib.right.e
    {
      ghost var f := Flank(c, t);
      FlankPlug(c, t);
      Here(s, f, c.sib);
      Paint(w.right, false, s, Down(R, f, c.sib), c.sib.right);
      ghost var w1 := WithKid(c.sib, R, Painted(c.sib.right, false));
      Paint(w, true, s, f, w1);
      RotateLeftAt(w, s, f, Painted(w1, true));
      Around(s, f, NearRepair(c));
      FlankPlug(WithSib(c, NearRepair(c)), t);
      w' := parent.left;
    }

    /** Black sibling whose far child is red, focus on the right. */
    method RemoveFarRight(parent: Entry, w: Entry, ghost s: set<Entry>, ghost c: Ctx, ghost t: Tree)
      requires Holds(s, Plug(c, t)) && c.Step? && c.d.R? && c.e == parent
      requires c.sib.Node? && c.sib.e == w && c.sib.left.Node?
      modifies this`root, s
      ensures Holds(s, Plug(c.up, FarRepair(c, t)))
    {
      ghost var f := Flank(c, t);
      FlankPlug(c, t);
      Around(s, f, c.sib);
      Paint(w, parent.red, s, f, c.sib);
      ghost var w1 := Painted(c.sib, c.red);
      FlankPlug(WithSib(c, w1), t);
      Paint(parent, false, s, c.up, Wrap(WithSib(c, w1), t));
      ghost var c1 := Step(R, false, c.e, w1, c.up);
      FlankPlug(c1, t);
      Here(s, Flank(c1, t), w1);
      if w.left != null {
        Paint(w.left, false, s, Down(L, Flank(c1, t), w1), w1.left);
      }
      ghost var w2 := WithKid(w1, L, Painted(w1.left, false));
      FlankPlug(WithSib(c1, w2), t);
      RotateRightAt(parent, s, c.up, Wrap(WithSib(c1, w2), t));
    }

    lemma KidColours(s: set<Entry>, c: Ctx, t: Tree)
      requires Holds(s, Plug(c, t)) && t.Node?
      ensures t.e in s && t.e.left == Root(t.left) && t.e.right == Root(t.right)
      ensures IsRedEntry(t.e.left) == IsRed(t.left) && IsRedEntry(t.e.right) == IsRed(t.right)
    {
      Here(s, c, t);
      if t.left.Node? { Here(s, Down(L, c, t), t.left); }
      if t.right.Node? { Here(s, Down(R, c, t), t.right); }
    }

    /** The two rotations of the removal repair, when the black sibling has a red child. */
    method RemoveRotateLeft(parent: Entry, w0: Entry, ghost s: set<Entry>, ghost c: Ctx, ghost t: Tree, ghost h: nat)
      returns (done: bool)
      requires Holds(s, Plug(c, t)) && Short(c, t, h) && !IsRed(t) && c.Step? && c.d.L? && c.e == parent
      requires c.sib.Node? && !IsRed(c.sib) && c.sib.e == w0
      modifies this`root, s
      ensures done <==> IsRed(c.sib.left) || IsRed(c.sib.right)
      ensures !done ==> Holds(s, Plug(c, t))
      ensures done ==> var T := RotateRepair(c, t); Holds(s, T) && RedBlack(T) && Inorder(T) == Inorder(Plug(c, t))
    {
      var w := w0;
      ghost var c' := c;
      FlankPlug(c, t);
      KidColours(s, Flank(c, t), c.sib);
      if IsRedEntry(w.left) || IsRedEntry(w.right) {
        if !IsRedEntry(w.right) {
          NearStep(c, t, h);
          w := RemoveNearLeft(parent, w, s, c, t);
          c' := WithSib(c, NearRepair(c));
        }
        FarStep(c', t, h);
        RemoveFarLeft(parent, w, s, c', t);
        done := true;
      } else {
        done := false;
      }
    }

    /**
     * One round of the removal repair with the focus on the left.  Either the repair is complete, or the
     * focus still falls short and its sibling `w` is black with black children.
     */
    method RemoveRoundLeft(parent: Entry, ghost s: set<Entry>, ghost c: Ctx, ghost t: Tree, ghost h: nat)
      returns (done: bool, w: Entry, ghost c': Ctx, ghost T: Tree)
      requires Holds(s, Plug(c, t)) && Short(c, t, h) && !IsRed(t) && c.Step? && c.d.L? && c.e == parent
      modifies this`root, s
      ensures Holds(s, T) && Inorder(T) == Inorder(Plug(c, t))
      ensures done ==> RedBlack(T)
      ensures !done ==> T == Plug(c', t) && Short(c', t, h) && BlackSibling(c') && c'.e == parent && c'.sib.e == w
      ensures !done ==> if c'.red then Depth(c') <= Depth(c) + 1 else Depth(c') <= Depth(c)
    {
      c', T := c, Plug(c, t);
      SiblingExists(c, t, h);
      FlankPlug(c, t);
      Around(s, Flank(c, t), c.sib);
      w := parent.right;
      if IsRedEntry(w) {
        RedSiblingStep(c, t, h);
        w := RemoveRedSiblingLeft(parent, s, c, t);
        c' := RedSiblingFocus(c, t);
        T := Plug(c', t);
      }
      done := RemoveRotateLeft(parent, w, s, c', t, h);
      if done { T := RotateRepair(c', t); }
    }

    /** The two rotations of the removal repair, when the black sibling has a red child. */
    method RemoveRotateRight(parent: Entry, w0: Entry, ghost s: set<Entry>, ghost c: Ctx, ghost t: Tree, ghost h: nat)
      returns (done: bool)
      requires Holds(s, Plug(c, t)) && Short(c, t, h) && !IsRed(t) && c.Step? && c.d.R? && c.e == parent
      requires c.sib.Node? && !IsRed(c.sib) && c.sib.e == w0
      modifies this`root, s
      ensures done <==> IsRed(c.sib.left) || IsRed(c.sib.right)
      ensures !done ==> Holds(s, Plug(c, t))
      ensures done ==> var T := RotateRepair(c, t); Holds(s, T) && RedBlack(T) && Inorder(T) == Inorder(Plug(c, t))
    {
      var w := w0;
      ghost var c' := c;
      FlankPlug(c, t);
      KidColours(s, Flank(c, t), c.sib);
      if IsRedEntry(w.left) || IsRedEntry(w.right) {
        if !IsRedEntry(w.left) {
          NearStep(c, t, h);
          w := RemoveNearRight(parent, w, s, c, t);
          c' := WithSib(c, NearRepair(c));
        }
        FarStep(c', t, h);
        RemoveFarRight(parent, w, s, c', t);
        done := true;
      } else {
        done := false;
      }
    }

    /**
     * One round of the removal repair with the focus on the right.  Either the repair is complete, or the
     * focus still falls short and its sibling `w` is black with black children.
     */
    method RemoveRoundRight(parent: Entry, ghost s: set<Entry>, ghost c: Ctx, ghost t: Tree, ghost h: nat)
      returns (done: bool, w: Entry, ghost c': Ctx, ghost T: Tree)
      requires Holds(s, Plug(c, t)) && Short(c, t, h) && !IsRed(t) && c.Step? && c.d.R? && c.e == parent
      modifies this`root, s
      ensures Holds(s, T) && Inorder(T) == Inorder(Plug(c, t))
      ensures done ==> RedBlack(T)
      ensures !done ==> T == Plug(c', t) && Short(c', t, h) && BlackSibling(c') && c'.e == parent && c'.sib.e == w
      ensures !done ==> if c'.red then Depth(c') <= Depth(c) + 1 else Depth(c') <= Depth(c)
    {
      c', T := c, Plug(c, t);
      SiblingExists(c, t, h);
      FlankPlug(c, t);
      Around(s, Flank(c, t), c.sib);
      w := parent.left;
      if IsRedEntry(w) {
        RedSiblingStep(c, t, h);
        w := RemoveRedSiblingRight(parent, s, c, t);
        c' := RedSiblingFocus(c, t);
        T := Plug(c', t);
      }
      done := RemoveRotateRight(parent, w, s, c', t, h);
      if done { T := RotateRepair(c', t); }
    }

    lemma AtChild(s: set<Entry>, c: Ctx, t: Tree)
      requires Holds(s, Plug(c, t))
      ensures IsRedEntry(Root(t)) == IsRed(t)
    {
      if t.Node? { Here(s, c, t); }
    }

    lemma AtParent(s: set<Entry>, c: Ctx, t: Tree)
      requires Holds(s, Plug(c, t)) && c.Step? && c.sib.Node?
      ensures c.e.left == Root(t) <==> c.d.L?
    {
      FlankPlug(c, t);
      Around(s, Flank(c, t), c.sib);
    }

    /** Repairs the shortage of one black node below `parent0`, bottom up. */
    method RemoveFixup(child0: Entry?, parent0: Entry?, ghost s: set<Entry>, ghost c0: Ctx, ghost t0: Tree, ghost h0: nat)
      returns (ghost T: Tree)
      requires Holds(s, Plug(c0, t0)) && Short(c0, t0, h0) && child0 == Root(t0) && parent0 == Above(c0)
      modifies this`root, s
      ensures Holds(s, T) && RedBlack(T) && Inorder(T) == Inorder(Plug(c0, t0))
    {
      var child, parent := child0, parent0;
      ghost var c, t, h := c0, t0, h0;
      T := Plug(c, t);
      AtChild(s, c, t);
      while parent != null && !IsRedEntry(child)
        invariant Holds(s, T) && T == Plug(c, t) && Short(c, t, h)
        invariant child == Root(t) && parent == Above(c) && IsRedEntry(child) == IsRed(t)
        invariant Inorder(T) == Inorder(Plug(c0, t0))
        decreases Depth(c) + if IsRed(t) then 0 else 1
      {
        var done, w;
        AtParent(s, c, t);
        if child == parent.left {
          done, w, c, T := RemoveRoundLeft(parent, s, c, t, h);
        } else {
          done, w, c, T := RemoveRoundRight(parent, s, c, t, h);
        }
        if done {
          return;
        }
        h := PushUpStep(c, t, h);
        FlankPlug(c, t);
        Paint(w, true, s, Flank(c, t), c.sib);
        ghost var c1 := WithSib(c, Painted(c.sib, true));
        FlankPlug(c1, t);
        c, t := c.up, Wrap(c1, t);
        T := Plug(c, t);
        child := parent;
        Here(s, c, t);
        parent := child.parent;
      }
      ShortEnds(c, t, h);
      if child != null {
        Paint(child, false, s, c, t);
        T := Plug(c, Painted(t, false));
      }
    }

    method UnlinkLinked(iter: Entry, ghost s: set<Entry>, ghost h: View) returns (child: Entry?, parent: Entry?)
      requires CanUnlink(s, h, iter) && forall x | x in s :: LinksOf(x) == h(x)
      modifies this`root, s - {iter}
      ensures child == (if h(iter).left != null then h(iter).left else h(iter).right) && parent == h(iter).parent
      ensures root == if h(iter).parent == null then child else old(root)
      ensures forall x | x in s - {iter} :: LinksOf(x) == UnlinkLinks(h, iter, x)
    {
      child := if iter.left != null then iter.left else iter.right;
      if iter.parent == null {
        root := child;
      } else if iter == iter.parent.left {
        iter.parent.left := child;
      } else {
        iter.parent.right := child;
      }
      if child != null {
        child.parent := iter.parent;
      }
      parent := iter.parent;
    }

    /** Takes out `iter`, which has at most one child. */
    method Unlink(iter: Entry, ghost s: set<Entry>, ghost c: Ctx, ghost f: Tree) returns (child: Entry?, parent: Entry?)
      requires Holds(s, Plug(c, f)) && f.Node? && f.e == iter && (f.left.Leaf? || f.right.Leaf?)
      modifies this`root, s - {iter}
      ensures Holds(s - {iter}, Plug(c, OnlyChild(f)))
      ensures child == Root(OnlyChild(f)) && parent == Above(c)
    {
      UnlinkTree(c, f);
      UnlinkView(c, f);
      AtFocus(c, f);
      child, parent := UnlinkLinked(iter, s, ViewOf(Plug(c, f)));
    }

    method TakeOverLinked(entry: Entry, iter: Entry, ghost s: set<Entry>, ghost h: View)
      requires CanTakeOver(s, h, entry) && iter !in s && forall x | x in s :: LinksOf(x) == h(x)
      modifies this`root, s - {entry}, iter
      ensures root == if h(entry).parent == null then iter else old(root)
      ensures forall x | x in s - {entry} + {iter} :: LinksOf(x) == TakeOverLinks(h, entry, iter, x)
    {
      iter.parent, iter.left, iter.right, iter.red := entry.parent, entry.left, entry.right, entry.red;
      if iter.parent == null {
        root := iter;
      } else if entry == iter.parent.left {
        iter.parent.left := iter;
      } else {
        iter.parent.right := iter;
      }
      if iter.right != null {
        iter.right.parent := iter;
      }
      if iter.left != null {
        iter.left.parent := iter;
      }
    }

    /** Puts `iter` in the place of `entry`: links and colour, never the payload. */
    method TakeOver(entry: Entry, iter: Entry, ghost s: set<Entry>, ghost c: Ctx, ghost t: Tree)
      requires Holds(s, Plug(c, t)) && t.Node? && t.e == entry && iter !in s
      modifies this`root, s - {entry}, iter
      ensures Holds(s - {entry} + {iter}, Plug(c, WithEntry(t, iter)))
    {
      ReplaceEntryTree(c, t, iter);
      TakeOverView(c, t, iter);
      AtFocus(c, t);
      TakeOverLinked(entry, iter, s, ViewOf(Plug(c, t)));
    }

    /** The leftmost entry to the right of `entry`: the one that comes next in order. */
    method Successor(entry: Entry, ghost c: Ctx, ghost t: Tree) returns (iter: Entry, ghost c': Ctx, ghost f: Tree)
      requires Valid() && tree == Plug(c, t) && t.Node? && t.e == entry && t.right.Node?
      ensures Valid() && f.Node? && f.e == iter && f.left.Leaf? && t.right == Plug(c', f) && Before(c') == []
      ensures tree == Plug(SpliceCtx(c', c, t, entry), f)
      ensures Inorder(t.right) != [] && iter == Inorder(t.right)[0]
    {
      Here(Nodes(tree), c, t);
      iter := entry.right;
      c', f := Top, t.right;
      SplicePlug(c', c, t, entry, f);
      Here(Nodes(tree), SpliceCtx(c', c, t, entry), f);
      while iter.left != null
        invariant Valid() && f.Node? && f.e == iter && iter.left == Root(f.left)
        invariant t.right == Plug(c', f) && Before(c') == []
        invariant tree == Plug(SpliceCtx(c', c, t, entry), f)
        decreases f
      {
        iter := iter.left;
        c', f := Down(L, c', f), f.left;
        SplicePlug(c', c, t, entry, f);
        Here(Nodes(tree), SpliceCtx(c', c, t, entry), f);
      }
      LeftmostIsFirst(c', f, Top, t.right);
    }

    /** Takes out the successor of `entry` and puts it in the place of `entry`. */
    method Splice(entry: Entry, iter: Entry, ghost s: set<Entry>, ghost o: Ctx, ghost t: Tree, ghost c: Ctx, ghost f: Tree)
      returns (child: Entry?, parent: Entry?)
      requires t.Node? && t.e == entry && t.right == Plug(c, f) && f.Node? && f.e == iter && f.left.Leaf?
      requires Holds(s, Plug(SpliceCtx(c, o, t, entry), f))
      modifies this`root, s
      ensures Holds(s - {entry}, Plug(SpliceCtx(c, o, t, iter), OnlyChild(f)))
      ensures child == Root(OnlyChild(f)) && parent == Above(SpliceCtx(c, o, t, iter))
    {
      ghost var g := OnlyChild(f);
      ghost var t' := WithRight(t, Plug(c, g));
      SplicePlug(c, o, t, entry, g);
      SplicePlug(c, o, t, iter, g);
      SpliceDistinct(c, o, t, f);
      child, parent := Unlink(iter, s, SpliceCtx(c, o, t, entry), f);
      TakeOver(entry, iter, s - {iter}, o, t');
      if parent == entry {
        parent := iter;
      }
      assert s - {iter} - {entry} + {iter} == s - {entry};
    }

    /** The removal repair when it is needed, and the final touch to the root. */
    method Settle(need: bool, child: Entry?, parent: Entry?, ghost s: set<Entry>, ghost c: Ctx, ghost t: Tree, ghost h: nat)
      requires Holds(s, Plug(c, t)) && child == Root(t) && parent == Above(c)
      requires if need then Short(c, t, h) else RedBlack(Plug(c, t))
      modifies this, s
      ensures Holds(s, tree) && RedBlack(tree) && Inorder(tree) == Inorder(Plug(c, t))
    {
      ghost var T := Plug(c, t);
      if need {
        T := RemoveFixup(child, parent, s, c, t, h);
      }
      if root != null {
        Paint(root, false, s, Top, T);
        assert Painted(T, false) == T;
      }
      tree := T;
    }

    /** The removal of an entry with two children, up to the repair. */
    method TakeOutInner(entry: Entry, ghost o: Ctx, ghost t: Tree)
      returns (need: bool, child: Entry?, parent: Entry?, ghost c: Ctx, ghost g: Tree, ghost h: nat)
      requires Valid() && tree == Plug(o, t) && t.Node? && t.e == entry && t.left.Node? && t.right.Node?
      modifies this`root, Nodes(tree)
      ensures Holds(Nodes(tree) - {entry}, Plug(c, g)) && child == Root(g) && parent == Above(c)
      ensures if need then Short(c, g, h) else RedBlack(Plug(c, g))
      ensures var k := |Before(o)| + |Inorder(t.left)|;
        k < |Contents()| && Contents()[k] == entry && Inorder(Plug(c, g)) == Without(Contents(), k)
    {
      var iter;
      ghost var d, f;
      iter, d, f := Successor(entry, o, t);
      c, g := SpliceCtx(d, o, t, iter), OnlyChild(f);
      Here(Nodes(tree), SpliceCtx(d, o, t, entry), f);
      h := UnlinkColours(SpliceCtx(d, o, t, entry), f);
      SpliceColours(d, o, t, entry, iter, if f.red then h else h + 1);
      SpliceInorder(d, o, t, f);
      need := !IsRedEntry(iter);
      child, parent := Splice(entry, iter, Nodes(tree), o, t, d, f);
      if f.red { Replug(c, g, h); }
    }

    /** The removal of any entry, up to the repair. */
    method TakeOut(entry: Entry)
      returns (need: bool, child: Entry?, parent: Entry?, ghost c: Ctx, ghost g: Tree, ghost h: nat, ghost k: nat)
      requires Valid() && entry in Nodes(tree)
      modifies this`root, Nodes(tree)
      ensures Holds(Nodes(tree) - {entry}, Plug(c, g)) && child == Root(g) && parent == Above(c)
      ensures if need then Short(c, g, h) else RedBlack(Plug(c, g))
      ensures k < |Contents()| && Contents()[k] == entry && Inorder(Plug(c, g)) == Without(Contents(), k)
    {
      ghost var t;
      c, t := Find(tree, entry);
      k := |Before(c)| + |Inorder(t.left)|;
      Here(Nodes(tree), c, t);
      if entry.right != null && entry.left != null {
        need, child, parent, c, g, h := TakeOutInner(entry, c, t);
      } else {
        g := OnlyChild(t);
        need := !IsRedEntry(entry);
        h := UnlinkColours(c, t);
        UnlinkInorder(c, t);
        child, parent := Unlink(entry, Nodes(tree), c, t);
        if t.red { Replug(c, g, h); }
      }
    }

    method Remove(entry: Entry) returns (ghost k: nat)
      requires Valid() && entry in Nodes(tree)
      modifies this, Nodes(tree)
      ensures Valid()
      ensures k < |old(Contents())| && old(Contents())[k] == entry
      ensures Contents() == old(Contents())[..k] + old(Contents())[k + 1..]
    {
      var need, child, parent;
      ghost var c, g, h;
      need, child, parent, c, g, h, k := TakeOut(entry);
      SortedWithout(compare, Contents(), k);
      Settle(need, child, parent, Nodes(tree) - {entry}, c, g, h);
    }

    // ---------- lookup, and removal by key ----------

    /** `steps` counts the calls of the compare function. */
    method Get(key: Key) returns (r: Entry?, ghost steps: nat)
      requires Valid()
      ensures Valid()
      ensures r != null ==> r in Contents() && compare(key, r.key) == 0
      ensures r == null ==> forall x | x in Contents() :: compare(key, x.key) != 0
      ensures TwiceLog(steps, |Contents()|)
    {
      var entry := root;
      ghost var c, t := Top, tree;
      steps := 0;
      while entry != null
        invariant Valid() && Plug(c, t) == tree && entry == Root(t)
        invariant forall x | x in Before(c) :: compare(key, x.key) > 0
        invariant forall x | x in After(c) :: compare(key, x.key) < 0
        invariant steps + Height(t) <= Height(tree)
        decreases t
      {
        var o := compare(key, entry.key);
        steps := steps + 1;
        if o == 0 {
          FocusIsListed(c, t);
          break;
        }
        Here(Nodes(tree), c, t);
        Narrow(compare, key, c, t);
        if o < 0 {
          entry := entry.left;
          c, t := Down(L, c, t), t.left;
        } else {
          entry := entry.right;
          c, t := Down(R, c, t), t.right;
        }
      }
      InorderPlug(c, t);
      StepBound(tree, steps);
      r := entry;
    }

    method RemoveKey(key: Key) returns (ghost k: nat)
      requires Valid()
      modifies this, Nodes(tree)
      ensures Valid()
      ensures if exists x | x in old(Contents()) :: compare(key, x.key) == 0
        then k < |old(Contents())| && compare(key, old(Contents())[k].key) == 0
          && Contents() == old(Contents())[..k] + old(Contents())[k + 1..]
        else root == old(root) && tree == old(tree)
    {
      var entry;
      ghost var steps;
      entry, steps := Get(key);
      k := 0;
      if entry != null {
        InorderNodes(tree);
        k := Remove(entry);
      }
    }

    // ---------- in-order walk ----------

    /** The leftmost entry at or below `start`. */
    method Head(start: Entry?, ghost s: set<Entry>, ghost c0: Ctx, ghost t0: Tree)
      returns (iter: Entry?, ghost c: Ctx, ghost t: Tree)
      requires Holds(s, Plug(c0, t0)) && start == Root(t0)
      ensures Holds(s, Plug(c, t)) && iter == Root(t) && Plug(c, t) == Plug(c0, t0)
      ensures t0.Leaf? ==> c == c0 && t == t0
      ensures t0.Node? ==> t.Node? && t.left.Leaf? && Before(c) == Before(c0)
      ensures iter == if t0.Leaf? then null else Inorder(t0)[0]
    {
      iter, c, t := start, c0, t0;
      if iter == null {
        return;
      }
      Here(s, c, t);
      while iter.left != null
        invariant t.Node? && iter == t.e && Plug(c, t) == Plug(c0, t0) && Before(c) == Before(c0)
        invariant iter.left == Root(t.left)
        decreases t
      {
        iter := iter.left;
        c, t := Down(L, c, t), t.left;
        Here(s, c, t);
      }
      LeftmostIsFirst(c, t, c0, t0);
    }

    /** The entry after `iter` in key order, from the links alone. */
    method Next(iter: Entry, ghost s: set<Entry>, ghost c0: Ctx, ghost t0: Tree)
      returns (r: Entry?, ghost c: Ctx, ghost t: Tree)
      requires Holds(s, Plug(c0, t0)) && t0.Node? && t0.e == iter
      ensures Holds(s, Plug(c0, t0))
      ensures r == null ==> Position(c0, t0) + 1 == |Inorder(Plug(c0, t0))|
      ensures r != null ==> t.Node? && r == t.e && Plug(c, t) == Plug(c0, t0)
      ensures r != null ==> Position(c, t) == Position(c0, t0) + 1
      ensures var listing, k := Inorder(Plug(c0, t0)), Position(c0, t0) + 1;
        r == if k < |listing| then listing[k] else null
    {
      c, t := c0, t0;
      Here(s, c, t);
      if iter.right != null {
        r, c, t := Head(iter.right, s, Down(R, c, t), t.right);
        PositionIsIndex(c, t);
        return;
      }
      var it := iter;
      InorderPlug(c, t);
      if c.Step? { Around(s, c, t); }
      while it.parent != null && it.parent.right == it
        invariant t.Node? && it == t.e && Plug(c, t) == Plug(c0, t0) && it.parent == Above(c)
        invariant c.Step? ==> (c.e.right == it <==> c.d.R?)
        invariant |Before(c)| + |Inorder(t)| == Position(c0, t0) + 1
        decreases Depth(c)
      {
        it := it.parent;
        c, t := c.up, Wrap(c, t);
        Here(s, c, t);
        if c.Step? { Around(s, c, t); }
      }
      r := it.parent;
      if c.Step? {
        c, t := c.up, Wrap(c, t);
        PositionIsIndex(c, t);
      }
    }
  }
}
