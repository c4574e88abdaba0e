/** Binary search trees as values, and the links that a tree value asks of the heap. */
module RbShapes {
  /** Keys are opaque: only the caller's compare function looks at them. */
  type Key(==, !new)

  /** One intrusive tree node.  `key` stands for the containing object; the links never own it. */
  class Entry {
    const key: Key
    var parent: Entry?
    var left: Entry?
    var right: Entry?
    var red: bool

    constructor (key: Key)
      ensures this.key == key
    {
      this.key := key;
      parent, left, right, red := null, null, null, false;
    }
  }

  datatype Dir = L | R

  function Opp(d: Dir): Dir {
    if d.L? then R else L
  }

  /** A tree as a value: which entries, in which shape and colour. */
  datatype Tree = Leaf | Node(red: bool, left: Tree, e: Entry, right: Tree)

  /** The way from a subtree up to the root: the subtree is child `d` of `e`, and `sib` is the other child. */
  datatype Ctx = Top | Step(d: Dir, red: bool, e: Entry, sib: Tree, up: Ctx)

  function Kid(t: Tree, d: Dir): Tree
    requires t.Node?
  {
    if d.L? then t.left else t.right
  }

  /** A node whose child on side `d` is `near`. */
  function Make(d: Dir, red: bool, near: Tree, e: Entry, far: Tree): (r: Tree)
    ensures r.Node? && r.red == red && r.e == e && Kid(r, d) == near && Kid(r, Opp(d)) == far
  {
    if d.L? then Node(red, near, e, far) else Node(red, far, e, near)
  }

  function Root(t: Tree): Entry? {
    if t.Leaf? then null else t.e
  }

  function Above(c: Ctx): Entry? {
    if c.Top? then null else c.e
  }

  /** The context of child `d` of `t`, when `t` itself is in context `c`. */
  function Down(d: Dir, c: Ctx, t: Tree): Ctx
    requires t.Node?
  {
    Step(d, t.red, t.e, Kid(t, Opp(d)), c)
  }

  function Painted(t: Tree, red: bool): (r: Tree)
    requires t.Node?
    ensures r.Node? && r.red == red
  {
    Node(red, t.left, t.e, t.right)
  }

  function Wrap(c: Ctx, t: Tree): (r: Tree)
    requires c.Step?
    ensures r.Node? && r.e == c.e
  {
    Make(c.d, c.red, t, c.e, c.sib)
  }

  /** The whole tree, when its focus is `t` in context `c`. */
  function Plug(c: Ctx, t: Tree): Tree
    decreases c
  {
    if c.Top? then t else Plug(c.up, Wrap(c, t))
  }

  function Depth(c: Ctx): nat {
    if c.Top? then 0 else 1 + Depth(c.up)
  }

  // ---------- which entries, and each only once ----------

  function Nodes(t: Tree): set<Entry> {
    if t.Leaf? then {} else Nodes(t.left) + {t.e} + Nodes(t.right)
  }

  ghost predicate Distinct(t: Tree) {
    t.Node? ==>
      && t.e !in Nodes(t.left) && t.e !in Nodes(t.right) && Nodes(t.left) !! Nodes(t.right)
      && Distinct(t.left) && Distinct(t.right)
  }

  lemma {:induction false} PlugNodes(c: Ctx, t: Tree)
    ensures Nodes(t) <= Nodes(Plug(c, t))
    ensures c.Step? ==> c.e in Nodes(Plug(c, t))
    decreases c
  {
    if c.Top? {
    } else {
      PlugNodes(c.up, Wrap(c, t));
    }
  }

  lemma {:induction false} PlugDistinct(c: Ctx, t: Tree)
    requires Distinct(Plug(c, t))
    ensures Distinct(t)
    ensures c.Step? ==> Distinct(Wrap(c, t))
    decreases c
  {
    if c.Top? {
    } else {
      PlugDistinct(c.up, Wrap(c, t));
    }
  }

  lemma {:induction false} PlugRoot(c: Ctx, t: Tree, t': Tree)
    ensures Root(Plug(c, t')) == if c.Top? then Root(t') else Root(Plug(c, t))
    decreases c
  {
    if c.Top? {
    } else {
      PlugRoot(c.up, Wrap(c, t), Wrap(c, t'));
    }
  }

  lemma {:induction false} ReplaceOneLevel(c: Ctx, t: Tree, t': Tree)
    requires c.Step? && Distinct(Wrap(c, t)) && Distinct(t') && Nodes(t') !! Nodes(c.sib) + {c.e}
    ensures Distinct(Wrap(c, t'))
    ensures Nodes(Wrap(c, t)) == Nodes(c.sib) + {c.e} + Nodes(t)
    ensures Nodes(Wrap(c, t')) == Nodes(c.sib) + {c.e} + Nodes(t')
    ensures Nodes(t) !! Nodes(c.sib) + {c.e}
  {
  }

  /** A subtree may be replaced by any other one that brings no entry already present elsewhere. */
  lemma {:induction false} ReplaceNodes(c: Ctx, t: Tree, t': Tree)
    requires Distinct(Plug(c, t)) && Distinct(t') && Nodes(t') !! Nodes(Plug(c, t)) - Nodes(t)
    ensures Distinct(Plug(c, t'))
    ensures Nodes(Plug(c, t')) == Nodes(Plug(c, t)) - Nodes(t) + Nodes(t')
    decreases c
  {
    if c.Top? {
    } else {
      PlugNodes(c.up, Wrap(c, t));
      PlugDistinct(c.up, Wrap(c, t));
      ReplaceOneLevel(c, t, t');
      ReplaceNodes(c.up, Wrap(c, t), Wrap(c, t'));
      forall x ensures x in Nodes(Wrap(c, t)) - Nodes(t) <==> x in Nodes(Wrap(c, t')) - Nodes(t') {}
    }
  }

  // ---------- the links a shape asks for ----------

  datatype Links = Links(parent: Entry?, left: Entry?, right: Entry?, red: bool) {
    function Kid(d: Dir): Entry? {
      if d.L? then left else right
    }

    function WithKid(d: Dir, x: Entry?): Links {
      if d.L? then this.(left := x) else this.(right := x)
    }
  }

  /** The fields that entry `x` must have for the heap to hold tree `t` below `p`. */
  function LinksAt(t: Tree, p: Entry?, x: Entry): Links {
    if t.Leaf? then Links(null, null, null, false)
    else if x == t.e then Links(p, Root(t.left), Root(t.right), t.red)
    else if x in Nodes(t.left) then LinksAt(t.left, t.e, x)
    else LinksAt(t.right, t.e, x)
  }

  lemma {:induction false} Inside(c: Ctx, t: Tree, x: Entry)
    requires Distinct(Plug(c, t)) && x in Nodes(t)
    ensures x in Nodes(Plug(c, t)) && LinksAt(Plug(c, t), null, x) == LinksAt(t, Above(c), x)
    decreases c
  {
    if c.Top? {
    } else {
      PlugDistinct(c.up, Wrap(c, t));
      Inside(c.up, Wrap(c, t), x);
    }
  }

  function HoleLinks(c: Ctx, hole: Entry?): Links
    requires c.Step?
  {
    Links(Above(c.up), null, null, c.red).WithKid(c.d, hole).WithKid(Opp(c.d), Root(c.sib))
  }

  lemma {:induction false} AtHole(c: Ctx, t: Tree)
    requires Distinct(Plug(c, t)) && c.Step?
    ensures c.e in Nodes(Plug(c, t)) && LinksAt(Plug(c, t), null, c.e) == HoleLinks(c, Root(t))
  {
    PlugDistinct(c.up, Wrap(c, t));
    Inside(c.up, Wrap(c, t), c.e);
  }

  /** Replacing a subtree leaves the links of the entries outside it alone, but for the entry just above. */
  lemma {:induction false} Outside(c: Ctx, t: Tree, t': Tree, x: Entry)
    requires Distinct(Plug(c, t)) && Distinct(Plug(c, t'))
    requires x in Nodes(Plug(c, t)) && x in Nodes(Plug(c, t')) && x !in Nodes(t) && x !in Nodes(t')
    requires x == Above(c) ==> Root(t) == Root(t')
    ensures LinksAt(Plug(c, t), null, x) == LinksAt(Plug(c, t'), null, x)
    decreases c
  {
    if c.Top? {
    } else if x in Nodes(Wrap(c, t)) {
      PlugDistinct(c, t);
      PlugDistinct(c, t');
      Inside(c.up, Wrap(c, t), x);
      Inside(c.up, Wrap(c, t'), x);
    } else {
      Outside(c.up, Wrap(c, t), Wrap(c, t'), x);
    }
  }

  /** What the fields of the entries next to the focus must be. */
  lemma {:induction false} AtFocus(c: Ctx, t: Tree)
    requires Distinct(Plug(c, t)) && t.Node?
    ensures Nodes(t) <= Nodes(Plug(c, t)) && t.e in Nodes(t)
    ensures LinksAt(Plug(c, t), null, t.e) == Links(Above(c), Root(t.left), Root(t.right), t.red)
    ensures c.Step? ==> c.e in Nodes(Plug(c, t)) && c.e !in Nodes(t) && c.e !in Nodes(c.sib)
    ensures c.Step? ==> Nodes(t) !! Nodes(c.sib)
    ensures c.Step? ==> LinksAt(Plug(c, t), null, c.e) == HoleLinks(c, t.e)
  {
    Inside(c, t, t.e);
    PlugNodes(c, t);
    PlugDistinct(c, t);
    if c.Step? { AtHole(c, t); }
  }

  // ---------- rotation ----------

  /** `t` rotated towards side `d`: its child on the other side becomes the root. */
  function Rotated(d: Dir, t: Tree): Tree
    requires t.Node? && Kid(t, Opp(d)).Node?
  {
    var r := Kid(t, Opp(d));
    Make(d, r.red, Make(d, t.red, Kid(t, d), t.e, Kid(r, d)), r.e, Kid(r, Opp(d)))
  }

  lemma {:induction false} RotatedNodes(d: Dir, t: Tree)
    requires t.Node? && Kid(t, Opp(d)).Node? && Distinct(t)
    ensures Distinct(Rotated(d, t)) && Nodes(Rotated(d, t)) == Nodes(t)
  {
    var r := Kid(t, Opp(d));
    assert Nodes(r) == Nodes(r.left) + {r.e} + Nodes(r.right);
    var l := Make(d, t.red, Kid(t, d), t.e, Kid(r, d));
    assert Nodes(l) == Nodes(Kid(t, d)) + {t.e} + Nodes(Kid(r, d));
  }

  lemma {:induction false} RotatedInside(d: Dir, t: Tree, p: Entry?, x: Entry)
    requires t.Node? && Kid(t, Opp(d)).Node? && Distinct(t) && x in Nodes(t) && Nodes(Rotated(d, t)) == Nodes(t)
    ensures var r := Kid(t, Opp(d));
      LinksAt(Rotated(d, t), p, x) == (
        if x == t.e then Links(r.e, null, null, t.red).WithKid(d, Root(Kid(t, d))).WithKid(Opp(d), Root(Kid(r, d)))
        else if x == r.e then Links(p, null, null, r.red).WithKid(d, t.e).WithKid(Opp(d), Root(Kid(r, Opp(d))))
        else if x == Root(Kid(r, d)) then LinksAt(t, p, x).(parent := t.e)
        else LinksAt(t, p, x))
  {
    var r := Kid(t, Opp(d));
    var b := Kid(r, d);
    assert Nodes(r) == Nodes(r.left) + {r.e} + Nodes(r.right);
    if x in Nodes(r) {
      assert LinksAt(t, p, x) == LinksAt(r, t.e, x);
      if x in Nodes(b) {
        assert LinksAt(r, t.e, x) == LinksAt(b, r.e, x);
        var t' := Rotated(d, t);
        assert x in Nodes(Kid(t', d)) && LinksAt(t', p, x) == LinksAt(Kid(t', d), t'.e, x);
        assert LinksAt(Kid(t', d), r.e, x) == LinksAt(b, t.e, x);
      }
    }
  }

  /** The links of all entries, as a value. */
  type View = Entry -> Links

  function ViewOf(t: Tree): View {
    (x: Entry) => LinksAt(t, null, x)
  }

  predicate CanRotate(d: Dir, s: set<Entry>, h: View, e: Entry) {
    var r, p := h(e).Kid(Opp(d)), h(e).parent;
    && e in s && r != null && r in s && r != e
    && (p != null ==> p in s) && p != e && p != r
    && var b := h(r).Kid(d);
    && (b != null ==> b in s && b != p) && b != e && b != r
  }

  /** The links of `x` after the pointer assignments of a rotation towards `d` that lifts `r` above `e`. */
  function RotateLinks(d: Dir, h: View, e: Entry, r: Entry, x: Entry): Links {
    var p, b := h(e).parent, h(r).Kid(d);
    if x == e then h(e).(parent := r).WithKid(Opp(d), b)
    else if x == r then h(r).(parent := p).WithKid(d, e)
    else if x == b then h(x).(parent := e)
    else if x == p && h(x).left == e then h(x).(left := r)
    else if x == p then h(x).(right := r)
    else h(x)
  }

  lemma {:induction false} RotateAt(d: Dir, c: Ctx, t: Tree, x: Entry)
    requires t.Node? && Kid(t, Opp(d)).Node? && Distinct(Plug(c, t)) && x in Nodes(Plug(c, t))
    ensures LinksAt(Plug(c, Rotated(d, t)), null, x)
         == RotateLinks(d, ViewOf(Plug(c, t)), t.e, Kid(t, Opp(d)).e, x)
  {
    var t', r := Rotated(d, t), Kid(t, Opp(d));
    AtFocus(c, t);
    PlugDistinct(c, t);
    RotatedNodes(d, t);
    ReplaceNodes(c, t, t');
    AtFocus(Down(Opp(d), c, t), r);
    if x in Nodes(t) {
      RotatedInside(d, t, Above(c), x);
      Inside(c, t, x);
      Inside(c, t', x);
    } else if x == Above(c) {
      AtHole(c, t');
    } else {
      Outside(c, t, t', x);
    }
  }

  lemma {:induction false} RotateAllowed(d: Dir, c: Ctx, t: Tree)
    requires t.Node? && Kid(t, Opp(d)).Node? && Distinct(Plug(c, t))
    ensures var h, r := ViewOf(Plug(c, t)), Kid(t, Opp(d));
      && CanRotate(d, Nodes(Plug(c, t)), h, t.e)
      && h(t.e).parent == Above(c) && h(t.e).Kid(Opp(d)) == r.e
  {
    var r := Kid(t, Opp(d));
    var b := Kid(r, d);
    PlugDistinct(c, t);
    AtFocus(c, t);
    AtFocus(Down(Opp(d), c, t), r);
    if b.Node? { AtFocus(Down(d, Down(Opp(d), c, t), r), b); }
  }

  /** The pointer assignments of a rotation turn the links of a tree into those of the rotated tree. */
  lemma {:induction false} RotateTree(d: Dir, c: Ctx, t: Tree)
    requires t.Node? && Kid(t, Opp(d)).Node? && Distinct(Plug(c, t))
    ensures var T, T', r := Plug(c, t), Plug(c, Rotated(d, t)), Kid(t, Opp(d));
      && Distinct(T') && Nodes(T') == Nodes(T)
      && Root(T') == (if c.Top? then r.e else Root(T))
      && forall x | x in Nodes(T) :: LinksAt(T', null, x) == RotateLinks(d, ViewOf(T), t.e, r.e, x)
  {
    forall x | x in Nodes(Plug(c, t)) { RotateAt(d, c, t, x); }
    PlugDistinct(c, t);
    PlugNodes(c, t);
    RotatedNodes(d, t);
    ReplaceNodes(c, t, Rotated(d, t));
    PlugRoot(c, t, Rotated(d, t));
  }

  // ---------- recolouring ----------

  lemma {:induction false} RepaintTree(c: Ctx, t: Tree, b: bool)
    requires t.Node? && Distinct(Plug(c, t))
    ensures var T, T' := Plug(c, t), Plug(c, Painted(t, b));
      && Distinct(T') && Nodes(T') == Nodes(T) && Root(T') == Root(T) && t.e in Nodes(T)
      && forall x | x in Nodes(T) ::
        LinksAt(T', null, x) == (if x == t.e then LinksAt(T, null, x).(red := b) else LinksAt(T, null, x))
  {
    var t' := Painted(t, b);
    PlugDistinct(c, t);
    PlugNodes(c, t);
    ReplaceNodes(c, t, t');
    PlugRoot(c, t, t');
    forall x | x in Nodes(Plug(c, t))
      ensures LinksAt(Plug(c, t'), null, x)
        == (if x == t.e then LinksAt(Plug(c, t), null, x).(red := b) else LinksAt(Plug(c, t), null, x))
    {
      if x in Nodes(t) {
        Inside(c, t, x);
        Inside(c, t', x);
      } else {
        Outside(c, t, t', x);
      }
    }
  }

  // ---------- linking a new leaf ----------

  lemma {:induction false} LinkTree(c: Ctx, x0: Entry)
    requires Distinct(Plug(c, Leaf)) && x0 !in Nodes(Plug(c, Leaf))
    ensures var T, T' := Plug(c, Leaf), Plug(c, Node(true, Leaf, x0, Leaf));
      && Distinct(T') && Nodes(T') == Nodes(T) + {x0}
      && Root(T') == (if c.Top? then x0 else Root(T))
      && forall x | x in Nodes(T') ::
        LinksAt(T', null, x) == (
          if x == x0 then Links(Above(c), null, null, true)
          else if x == Above(c) then LinksAt(T, null, x).WithKid(c.d, x0)
          else LinksAt(T, null, x))
  {
    var f := Node(true, Leaf, x0, Leaf);
    assert Nodes(f) == {x0};
    PlugNodes(c, f);
    ReplaceNodes(c, Leaf, f);
    PlugRoot(c, Leaf, f);
    Inside(c, f, x0);
    if c.Step? { AtHole(c, Leaf); AtHole(c, f); }
    forall x | x in Nodes(Plug(c, f)) && x != x0 && x != Above(c)
      ensures LinksAt(Plug(c, f), null, x) == LinksAt(Plug(c, Leaf), null, x)
    {
      Outside(c, Leaf, f, x);
    }
  }

  // ---------- unlinking an entry, and putting another entry in the place of one ----------

  /** What is left of a node that has at most one child. */
  function OnlyChild(f: Tree): Tree
    requires f.Node? && (f.left.Leaf? || f.right.Leaf?)
  {
    if f.left.Node? then f.left else f.right
  }

  lemma {:induction false} UnlinkTree(c: Ctx, f: Tree)
    requires f.Node? && (f.left.Leaf? || f.right.Leaf?) && Distinct(Plug(c, f))
    ensures var T, T', g := Plug(c, f), Plug(c, OnlyChild(f)), OnlyChild(f);
      && Distinct(T') && Nodes(T') == Nodes(T) - {f.e}
      && Root(T') == (if c.Top? then Root(g) else Root(T))
      && forall x | x in Nodes(T') ::
        LinksAt(T', null, x) == (
          if x == Root(g) then LinksAt(T, null, x).(parent := Above(c))
          else if x == Above(c) then LinksAt(T, null, x).WithKid(c.d, Root(g))
          else LinksAt(T, null, x))
  {
    var T, g := Plug(c, f), OnlyChild(f);
    PlugDistinct(c, f);
    assert Nodes(f) == Nodes(g) + {f.e};
    PlugNodes(c, f);
    ReplaceNodes(c, f, g);
    PlugRoot(c, f, g);
    if c.Step? { AtHole(c, f); AtHole(c, g); }
    forall x | x in Nodes(Plug(c, g)) && x != Above(c)
      ensures LinksAt(Plug(c, g), null, x) == if x == Root(g) then LinksAt(T, null, x).(parent := Above(c)) else LinksAt(T, null, x)
    {
      if x in Nodes(g) {
        Inside(c, f, x);
        Inside(c, g, x);
      } else {
        Outside(c, f, g, x);
      }
    }
  }

  function WithEntry(t: Tree, y: Entry): (r: Tree)
    requires t.Node?
    ensures r.Node?
  {
    Node(t.red, t.left, y, t.right)
  }

  lemma {:induction false} ReplaceEntryTree(c: Ctx, t: Tree, y: Entry)
    requires t.Node? && Distinct(Plug(c, t)) && y !in Nodes(Plug(c, t))
    ensures var T, T' := Plug(c, t), Plug(c, WithEntry(t, y));
      && Distinct(T') && Nodes(T') == Nodes(T) - {t.e} + {y}
      && Root(T') == (if c.Top? then y else Root(T))
      && forall x | x in Nodes(T') ::
        LinksAt(T', null, x) == (
          if x == y then LinksAt(T, null, t.e)
          else if x == Above(c) then LinksAt(T, null, x).WithKid(c.d, y)
          else if x == Root(t.left) || x == Root(t.right) then LinksAt(T, null, x).(parent := y)
          else LinksAt(T, null, x))
  {
    var T, t' := Plug(c, t), WithEntry(t, y);
    PlugDistinct(c, t);
    PlugNodes(c, t);
    assert Nodes(t') == Nodes(t) - {t.e} + {y};
    ReplaceNodes(c, t, t');
    PlugRoot(c, t, t');
    AtFocus(c, t);
    if c.Step? { AtHole(c, t'); }
    forall x | x in Nodes(Plug(c, t')) && x != Above(c)
      ensures LinksAt(Plug(c, t'), null, x) == (
        if x == y then LinksAt(T, null, t.e)
        else if x == Root(t.left) || x == Root(t.right) then LinksAt(T, null, x).(parent := y)
        else LinksAt(T, null, x))
    {
      if x in Nodes(t') {
        Inside(c, t', x);
        if x != y { Inside(c, t, x); }
      } else {
        Outside(c, t, t', x);
      }
    }
  }

  /** The links of `x` after child `old` of its parent `p` has been replaced by `new`. */
  function RefillLinks(h: View, p: Entry?, oldKid: Entry, newKid: Entry?, x: Entry): Links {
    if x != p then h(x)
    else if h(x).left == oldKid then h(x).(left := newKid)
    else h(x).(right := newKid)
  }

  predicate CanUnlink(s: set<Entry>, h: View, iter: Entry) {
    var g, p := if h(iter).left != null then h(iter).left else h(iter).right, h(iter).parent;
    && iter in s && (p != null ==> p in s - {iter} && p != g) && (g != null ==> g in s - {iter})
  }

  function UnlinkLinks(h: View, iter: Entry, x: Entry): Links {
    var g, p := if h(iter).left != null then h(iter).left else h(iter).right, h(iter).parent;
    if x == g then h(x).(parent := p) else RefillLinks(h, p, iter, g, x)
  }

  lemma {:induction false} UnlinkView(c: Ctx, f: Tree)
    requires f.Node? && (f.left.Leaf? || f.right.Leaf?) && Distinct(Plug(c, f))
    ensures var T, T' := Plug(c, f), Plug(c, OnlyChild(f));
      && CanUnlink(Nodes(T), ViewOf(T), f.e)
      && forall x | x in Nodes(T') :: LinksAt(T', null, x) == UnlinkLinks(ViewOf(T), f.e, x)
  {
    UnlinkTree(c, f);
    AtFocus(c, f);
    PlugDistinct(c, f);
  }

  predicate CanTakeOver(s: set<Entry>, h: View, entry: Entry) {
    var l := h(entry);
    && entry in s && (l.parent != null ==> l.parent in s - {entry} && l.parent != l.left && l.parent != l.right)
    && (l.left != null ==> l.left in s - {entry} && l.left != l.right) && (l.right != null ==> l.right in s - {entry})
  }

  function TakeOverLinks(h: View, entry: Entry, iter: Entry, x: Entry): Links {
    if x == iter then h(entry)
    else if x == h(entry).left || x == h(entry).right then h(x).(parent := iter)
    else RefillLinks(h, h(entry).parent, entry, iter, x)
  }

  lemma {:induction false} TakeOverView(c: Ctx, t: Tree, y: Entry)
    requires t.Node? && Distinct(Plug(c, t)) && y !in Nodes(Plug(c, t))
    ensures var T, T' := Plug(c, t), Plug(c, WithEntry(t, y));
      && CanTakeOver(Nodes(T), ViewOf(T), t.e)
      && forall x | x in Nodes(T') :: LinksAt(T', null, x) == TakeOverLinks(ViewOf(T), t.e, y, x)
  {
    ReplaceEntryTree(c, t, y);
    AtFocus(c, t);
    PlugDistinct(c, t);
  }

  /** `c` continued upwards by `o`. */
  function Under(c: Ctx, o: Ctx): Ctx {
    if c.Top? then o else Step(c.d, c.red, c.e, c.sib, Under(c.up, o))
  }

  lemma {:induction false} PlugUnder(c: Ctx, o: Ctx, t: Tree)
    ensures Plug(Under(c, o), t) == Plug(o, Plug(c, t))
    decreases c
  {
    if c.Top? {
    } else {
      PlugUnder(c.up, o, Wrap(c, t));
    }
  }
}
