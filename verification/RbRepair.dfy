/** The steps of the two repair loops, on tree values: what each step keeps and where it leads. */
module RbRepair {
  import opened RbShapes
  import opened RbColours

  // ---------- after an insertion: two reds in a row ----------

  function Flipped(t: Tree): Tree
    requires t.Node? && t.left.Node? && t.right.Node?
  {
    Node(!t.red, Painted(t.left, !t.left.red), t.e, Painted(t.right, !t.right.red))
  }

  /** A red node below a red parent: all else is in order. */
  ghost predicate RedUnderRed(c: Ctx, t: Tree, h: nat) {
    IsRed(t) && RB(t, h) && CtxRB(c, h) && CtxRed(c)
  }

  /** A red node in good order: only the root may still be red. */
  ghost predicate Repaired(c: Ctx, t: Tree, h: nat) {
    IsRed(t) && RB(t, h) && CtxRB(c, h) && !CtxRed(c)
  }

  /** A red node in good order, but for the colour of its parent. */
  ghost predicate Pending(c: Ctx, t: Tree, h: nat) {
    IsRed(t) && RB(t, h) && CtxRB(c, h)
  }

  lemma {:induction false} FlipStep(c: Ctx, t: Tree, h: nat)
    requires RedUnderRed(c, t, h) && IsRed(c.up.sib)
    ensures var g := Wrap(c.up, Wrap(c, t));
      && IsRed(Flipped(g)) && RB(Flipped(g), h + 1) && CtxRB(c.up.up, h + 1)
      && Plug(c.up.up, g) == Plug(c, t) && Inorder(Flipped(g)) == Inorder(g)
  {
    assert CtxRB(c.up, h) && CtxRB(c.up.up, h + 1);
    assert RB(Painted(Wrap(c, t), false), h + 1) && RB(Painted(c.up.sib, false), h + 1);
  }

  /** An inner grandchild is first turned into an outer one. */
  lemma {:induction false} InnerStep(c: Ctx, t: Tree, h: nat)
    requires RedUnderRed(c, t, h) && c.d != c.up.d
    ensures var p := Wrap(c, t);
      && Kid(p, Opp(c.up.d)) == t
      && var p' := Rotated(c.up.d, p);
      && RedUnderRed(Down(c.up.d, c.up, p'), Kid(p', c.up.d), h) && Kid(p', c.up.d).e == c.e
      && Plug(c.up, p) == Plug(c, t) && Plug(Down(c.up.d, c.up, p'), Kid(p', c.up.d)) == Plug(c.up, p')
      && Inorder(p') == Inorder(p)
  {
    RotatedInorder(c.up.d, Wrap(c, t));
  }

  /** Red parent, black uncle, outer grandchild: parent black, grandparent red, then rotate the parent up. */
  function OuterRepair(c: Ctx, t: Tree): (g: Tree)
    requires c.Step? && c.up.Step? && c.d == c.up.d
    ensures g.Node? && Kid(g, c.d) == t
  {
    Rotated(Opp(c.d), Painted(Wrap(c.up, Painted(Wrap(c, t), false)), true))
  }

  lemma {:induction false} OuterStep(c: Ctx, t: Tree, h: nat)
    requires RedUnderRed(c, t, h) && !IsRed(c.up.sib) && c.d == c.up.d
    ensures var g := OuterRepair(c, t);
      && Repaired(Down(c.d, c.up.up, g), t, h)
      && Plug(Down(c.d, c.up.up, g), t) == Plug(c.up.up, g)
      && Inorder(g) == Inorder(Wrap(c.up, Wrap(c, t)))
  {
    RotatedInorder(Opp(c.d), Painted(Wrap(c.up, Painted(Wrap(c, t), false)), true));
    assert CtxRB(c.up, h) && CtxRB(c.up.up, h + 1);
    var u := Kid(OuterRepair(c, t), Opp(c.d));
    assert u == Make(Opp(c.d), true, c.up.sib, c.up.e, c.sib);
    assert RB(u, h);
  }

  /** Painting the root black ends the repair. */
  lemma {:induction false} BlackenRoot(c: Ctx, t: Tree, h: nat)
    requires Repaired(c, t, h)
    ensures Plug(c, t).Node? && RedBlack(Painted(Plug(c, t), false))
    ensures Inorder(Painted(Plug(c, t), false)) == Inorder(Plug(c, t))
  {
    if c.Top? {
      HeightIsUnique(t.left, h);
    } else {
      Replug(c, t, h);
      PlugNodes(c, t);
      assert Plug(c, t).Node?;
    }
  }

  // ---------- after a removal: one black node too few ----------

  /**
   * The subtree `t` is one black node short, or it is red and painting it black makes up for it;
   * its surroundings ask for black height `h + 1`.
   */
  ghost predicate Short(c: Ctx, t: Tree, h: nat) {
    && CtxRB(c, h + 1)
    && if IsRed(t) then RB(Painted(t, false), h + 1) else RB(t, h)
  }

  /** The context of the sibling of the focus. */
  function Flank(c: Ctx, t: Tree): Ctx
    requires c.Step?
  {
    Step(Opp(c.d), c.red, c.e, t, c.up)
  }

  lemma {:induction false} FlankPlug(c: Ctx, t: Tree)
    requires c.Step?
    ensures Plug(Flank(c, t), c.sib) == Plug(c, t)
  {
    assert Wrap(Flank(c, t), c.sib) == Wrap(c, t);
  }

  function WithSib(c: Ctx, w: Tree): Ctx
    requires c.Step?
  {
    Step(c.d, c.red, c.e, w, c.up)
  }

  function WithKid(t: Tree, d: Dir, k: Tree): (r: Tree)
    requires t.Node?
    ensures r.Node? && r.e == t.e && r.red == t.red && Kid(r, d) == k && Kid(r, Opp(d)) == Kid(t, Opp(d))
  {
    Make(d, t.red, k, t.e, Kid(t, Opp(d)))
  }

  /** The sibling exists, because the focus is one black node short. */
  lemma {:induction false} SiblingExists(c: Ctx, t: Tree, h: nat)
    requires Short(c, t, h) && c.Step? && !IsRed(t)
    ensures c.sib.Node? && (IsRed(c.sib) ==> !c.red)
    ensures IsRed(c.sib) ==> c.sib.left.Node? && c.sib.right.Node? && !IsRed(c.sib.left) && !IsRed(c.sib.right)
  {
    assert RB(c.sib, h + 1);
    if IsRed(c.sib) { assert RB(c.sib.left, h + 1) && RB(c.sib.right, h + 1); }
  }

  /** Red sibling: sibling black, parent red, then rotate the sibling up. */
  function RedSiblingRepair(c: Ctx, t: Tree): (p: Tree)
    requires c.Step? && c.sib.Node?
    ensures p.Node? && p.e == c.sib.e && Kid(p, c.d).Node? && Kid(p, c.d).e == c.e && Kid(Kid(p, c.d), c.d) == t
  {
    Rotated(c.d, Painted(Wrap(WithSib(c, Painted(c.sib, false)), t), true))
  }

  /** The focus after the red sibling's repair: the same subtree, one level deeper. */
  function RedSiblingFocus(c: Ctx, t: Tree): Ctx
    requires c.Step? && c.sib.Node?
  {
    var p := RedSiblingRepair(c, t);
    Down(c.d, Down(c.d, c.up, p), Kid(p, c.d))
  }

  lemma {:induction false} RedSiblingStep(c: Ctx, t: Tree, h: nat)
    requires Short(c, t, h) && c.Step? && !IsRed(t) && IsRed(c.sib)
    ensures var c' := RedSiblingFocus(c, t);
      && Short(c', t, h) && c'.d == c.d && c'.red && c'.e == c.e && c'.sib.Node? && !IsRed(c'.sib)
      && Depth(c') == Depth(c) + 1
      && Plug(c', t) == Plug(c.up, RedSiblingRepair(c, t))
      && Inorder(Plug(c', t)) == Inorder(Plug(c, t))
  {
    SiblingExists(c, t, h);
    var p := RedSiblingRepair(c, t);
    RotatedInorder(c.d, Painted(Wrap(WithSib(c, Painted(c.sib, false)), t), true));
    assert Inorder(p) == Inorder(Wrap(c, t));
    SameInorder(c.up, Wrap(c, t), p);
    assert RB(c.sib, h + 1) && CtxRB(c.up, h + 2);
    var c' := RedSiblingFocus(c, t);
    assert Plug(c', t) == Plug(c'.up, Wrap(c', t)) && Wrap(c', t) == Kid(p, c.d);
    assert CtxRB(c'.up, h + 1);
  }

  /** Black sibling with a red near child only: near child black, sibling red, then rotate the near child up. */
  function NearRepair(c: Ctx): (w: Tree)
    requires c.Step? && c.sib.Node? && Kid(c.sib, c.d).Node?
    ensures w.Node? && w.e == Kid(c.sib, c.d).e && Kid(w, Opp(c.d)).Node?
  {
    Rotated(Opp(c.d), Painted(WithKid(c.sib, c.d, Painted(Kid(c.sib, c.d), false)), true))
  }

  lemma {:induction false} NearStep(c: Ctx, t: Tree, h: nat)
    requires Short(c, t, h) && c.Step? && !IsRed(t) && c.sib.Node? && !IsRed(c.sib)
    requires IsRed(Kid(c.sib, c.d)) && !IsRed(Kid(c.sib, Opp(c.d)))
    ensures var c' := WithSib(c, NearRepair(c));
      && Short(c', t, h) && !IsRed(c'.sib) && IsRed(Kid(c'.sib, Opp(c.d)))
      && Inorder(Plug(c', t)) == Inorder(Plug(c, t))
  {
    var k, w := Kid(c.sib, c.d), NearRepair(c);
    RotatedInorder(Opp(c.d), Painted(WithKid(c.sib, c.d, Painted(k, false)), true));
    assert RB(c.sib, h + 1) && RB(k, h);
    assert Inorder(Painted(k, false)) == Inorder(k);
    assert Inorder(WithKid(c.sib, c.d, Painted(k, false))) == Inorder(c.sib);
    assert RB(Kid(w, Opp(c.d)), h) && RB(w, h + 1);
    assert Inorder(w) == Inorder(c.sib);
    SameInorder(c.up, Wrap(c, t), Wrap(WithSib(c, w), t));
  }

  /** Black sibling with a red far child: the sibling takes the parent's colour, both children turn black. */
  function FarRepair(c: Ctx, t: Tree): (p: Tree)
    requires c.Step? && c.sib.Node? && Kid(c.sib, Opp(c.d)).Node?
    ensures p.Node? && p.e == c.sib.e
  {
    var w := Painted(c.sib, c.red);
    var w' := WithKid(w, Opp(c.d), Painted(Kid(w, Opp(c.d)), false));
    Rotated(c.d, Painted(Wrap(WithSib(c, w'), t), false))
  }

  lemma {:induction false} FarStep(c: Ctx, t: Tree, h: nat)
    requires Short(c, t, h) && c.Step? && !IsRed(t) && c.sib.Node? && !IsRed(c.sib)
    requires IsRed(Kid(c.sib, Opp(c.d)))
    ensures RedBlack(Plug(c.up, FarRepair(c, t)))
    ensures Inorder(Plug(c.up, FarRepair(c, t))) == Inorder(Plug(c, t))
  {
    var far := Kid(c.sib, Opp(c.d));
    var w := Painted(c.sib, c.red);
    var w' := WithKid(w, Opp(c.d), Painted(far, false));
    var p := FarRepair(c, t);
    RotatedInorder(c.d, Painted(Wrap(WithSib(c, w'), t), false));
    assert Inorder(Painted(far, false)) == Inorder(far);
    assert Inorder(w') == Inorder(c.sib);
    assert Inorder(p) == Inorder(Wrap(c, t));
    SameInorder(c.up, Wrap(c, t), p);
    assert RB(c.sib, h + 1) && RB(far, h) && RB(Painted(far, false), h + 1);
    assert RB(Kid(p, c.d), h + 1) && RB(Kid(p, Opp(c.d)), h + 1);
    Replug(c.up, p, if c.red then h + 1 else h + 2);
  }

  /** The end of the removal repair for a black sibling with a red child. */
  function RotateRepair(c: Ctx, t: Tree): (r: Tree)
    requires c.Step? && c.sib.Node? && (IsRed(c.sib.left) || IsRed(c.sib.right))
  {
    if IsRed(Kid(c.sib, Opp(c.d))) then Plug(c.up, FarRepair(c, t))
    else Plug(c.up, FarRepair(WithSib(c, NearRepair(c)), t))
  }

  ghost predicate BlackSibling(c: Ctx) {
    c.Step? && c.sib.Node? && !IsRed(c.sib) && !IsRed(c.sib.left) && !IsRed(c.sib.right)
  }

  /** Black sibling with black children: the sibling turns red, and the shortage moves up. */
  lemma {:induction false} PushUpStep(c: Ctx, t: Tree, h: nat) returns (h': nat)
    requires Short(c, t, h) && c.Step? && !IsRed(t) && c.sib.Node? && !IsRed(c.sib)
    requires !IsRed(c.sib.left) && !IsRed(c.sib.right)
    ensures var t' := Wrap(WithSib(c, Painted(c.sib, true)), t);
      Short(c.up, t', h') && Inorder(Plug(c.up, t')) == Inorder(Plug(c, t)) && IsRed(t') == c.red
  {
    var t' := Wrap(WithSib(c, Painted(c.sib, true)), t);
    h' := if c.red then h else h + 1;
    assert RB(c.sib, h + 1) && RB(Painted(c.sib, true), h);
    assert Inorder(Painted(c.sib, true)) == Inorder(c.sib);
    SameInorder(c.up, Wrap(c, t), t');
  }

  /** Painting a red subtree black ends the repair; so does reaching the root. */
  lemma {:induction false} ShortEnds(c: Ctx, t: Tree, h: nat)
    requires Short(c, t, h) && (c.Top? || IsRed(t))
    ensures var t' := if t.Node? then Painted(t, false) else t;
      RedBlack(Plug(c, t')) && Inorder(Plug(c, t')) == Inorder(Plug(c, t))
  {
    var t' := if t.Node? then Painted(t, false) else t;
    assert Inorder(t') == Inorder(t);
    SameInorder(c, t, t');
    if IsRed(t) {
      Replug(c, t', h + 1);
    } else {
      assert Plug(c, t') == t' == t;
      HeightIsUnique(t, h);
    }
  }

  // ---------- taking an entry out ----------

  /** `s` without its element at `k`. */
  function Without(s: seq<Entry>, k: nat): seq<Entry>
    requires k < |s|
  {
    s[..k] + s[k + 1..]
  }

  lemma {:induction false} WithoutMiddle(b: seq<Entry>, l: seq<Entry>, x: Entry, r: seq<Entry>, a: seq<Entry>)
    ensures var s, k := b + (l + [x] + r) + a, |b| + |l|;
      k < |s| && s[k] == x && Without(s, k) == b + (l + r) + a
  {
    var s, k := b + (l + [x] + r) + a, |b| + |l|;
    assert s[..k] == b + l;
    assert s[k + 1..] == r + a;
  }

  /** Unlinking a node with one child leaves a red-black tree if it was red, and a shortage if it was black. */
  lemma {:induction false} UnlinkColours(c: Ctx, f: Tree) returns (h: nat)
    requires RedBlack(Plug(c, f)) && f.Node? && (f.left.Leaf? || f.right.Leaf?)
    ensures CtxRB(c, if f.red then h else h + 1)
    ensures if f.red then RB(OnlyChild(f), h) && !IsRed(OnlyChild(f)) else Short(c, OnlyChild(f), h)
  {
    var k := Unplug(c, f);
    h := if f.red then k else k - 1;
  }

  lemma {:induction false} UnlinkInorder(c: Ctx, f: Tree)
    requires f.Node? && (f.left.Leaf? || f.right.Leaf?)
    ensures var s, k := Inorder(Plug(c, f)), |Before(c)| + |Inorder(f.left)|;
      k < |s| && s[k] == f.e && Inorder(Plug(c, OnlyChild(f))) == Without(s, k)
  {
    InorderPlug(c, f);
    InorderPlug(c, OnlyChild(f));
    WithoutMiddle(Before(c), Inorder(f.left), f.e, Inorder(f.right), After(c));
    assert Inorder(OnlyChild(f)) == Inorder(f.left) + Inorder(f.right);
  }

  /**
   * The way up from the successor of the root of `t`, which lies in context `o`: first `c` inside the right
   * subtree of `t`, then `t` itself with entry `y` at its root.
   */
  function SpliceCtx(c: Ctx, o: Ctx, t: Tree, y: Entry): Ctx
    requires t.Node?
  {
    Under(c, Down(R, o, WithEntry(t, y)))
  }

  function WithRight(t: Tree, r: Tree): (t': Tree)
    requires t.Node?
    ensures t'.Node? && t'.e == t.e
  {
    Node(t.red, t.left, t.e, r)
  }

  lemma {:induction false} SplicePlug(c: Ctx, o: Ctx, t: Tree, y: Entry, r: Tree)
    requires t.Node?
    ensures Plug(SpliceCtx(c, o, t, y), r) == Plug(o, WithEntry(WithRight(t, Plug(c, r)), y))
  {
    PlugUnder(c, Down(R, o, WithEntry(t, y)), r);
    assert Wrap(Down(R, o, WithEntry(t, y)), Plug(c, r)) == WithEntry(WithRight(t, Plug(c, r)), y);
  }

  /** The successor and the parent of its hole are two entries, and neither is the entry it succeeds. */
  lemma {:induction false} SpliceDistinct(c: Ctx, o: Ctx, t: Tree, f: Tree)
    requires t.Node? && f.Node? && t.right == Plug(c, f) && Distinct(Plug(SpliceCtx(c, o, t, t.e), f))
    ensures f.e != t.e && {f.e, t.e} <= Nodes(Plug(SpliceCtx(c, o, t, t.e), f))
    ensures c.Step? ==> c.e != t.e
  {
    SplicePlug(c, o, t, t.e, f);
    assert WithEntry(WithRight(t, Plug(c, f)), t.e) == t;
    PlugDistinct(o, t);
    PlugNodes(c, f);
    PlugNodes(o, t);
  }

  lemma {:induction false} SpliceColours(c: Ctx, o: Ctx, t: Tree, y: Entry, z: Entry, h: nat)
    requires t.Node? && CtxRB(SpliceCtx(c, o, t, y), h)
    ensures CtxRB(SpliceCtx(c, o, t, z), h)
    ensures CtxRed(SpliceCtx(c, o, t, y)) == CtxRed(SpliceCtx(c, o, t, z))
    decreases c
  {
    if c.Top? {
    } else {
      SpliceColours(c.up, o, t, y, z, if c.red then h else h + 1);
    }
  }

  lemma {:induction false} WithoutReplaced(b: seq<Entry>, l: seq<Entry>, x: Entry, y: Entry, r: seq<Entry>, a: seq<Entry>)
    ensures var s, k := b + (l + [x] + ([y] + r)) + a, |b| + |l|;
      k < |s| && s[k] == x && Without(s, k) == b + (l + [y] + r) + a
  {
    WithoutMiddle(b, l, x, [y] + r, a);
    assert l + ([y] + r) == l + [y] + r;
  }

  lemma {:induction false} LeftmostInorder(c: Ctx, f: Tree)
    requires f.Node? && f.left.Leaf? && Before(c) == []
    ensures Inorder(Plug(c, f)) == [f.e] + Inorder(Plug(c, OnlyChild(f)))
  {
    InorderPlug(c, f);
    InorderPlug(c, OnlyChild(f));
  }

  /** Unlinking the successor and letting it take over its predecessor's place removes the predecessor. */
  lemma {:induction false} SpliceInorder(c: Ctx, o: Ctx, t: Tree, f: Tree)
    requires t.Node? && f.Node? && f.left.Leaf? && t.right == Plug(c, f) && Before(c) == []
    ensures var s, k := Inorder(Plug(o, t)), |Before(o)| + |Inorder(t.left)|;
      && k < |s| && s[k] == t.e
      && Inorder(Plug(SpliceCtx(c, o, t, f.e), OnlyChild(f))) == Without(s, k)
  {
    var g := OnlyChild(f);
    var t' := WithEntry(WithRight(t, Plug(c, g)), f.e);
    SplicePlug(c, o, t, f.e, g);
    InorderPlug(o, t);
    InorderPlug(o, t');
    LeftmostInorder(c, f);
    WithoutReplaced(Before(o), Inorder(t.left), t.e, f.e, Inorder(Plug(c, g)), After(o));
  }

  lemma {:induction false} SortedWithout(cmp: Compare, s: seq<Entry>, k: nat)
    requires Sorted(cmp, s) && k < |s|
    ensures Sorted(cmp, Without(s, k))
  {
    var r := Without(s, k);
    forall i, j | 0 <= i < j < |r|
      ensures cmp(r[i].key, r[j].key) < 0
    {
      assert r[i] == s[if i < k then i else i + 1] && r[j] == s[if j < k then j else j + 1];
    }
  }
}
