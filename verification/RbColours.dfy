/** The red-black discipline and the in-order listing of tree values. */
module RbColours {
  import opened Powers
  import opened RbShapes

  // ---------- red-black discipline ----------

  predicate IsRed(t: Tree) {
    t.Node? && t.red
  }

  predicate CtxRed(c: Ctx) {
    c.Step? && c.red
  }

  /** No red node has a red child, and every way down passes exactly `h` black nodes. */
  ghost predicate RB(t: Tree, h: nat) {
    if t.Leaf? then h == 0
    else if t.red then !IsRed(t.left) && !IsRed(t.right) && RB(t.left, h) && RB(t.right, h)
    else h > 0 && RB(t.left, h - 1) && RB(t.right, h - 1)
  }

  /** The context becomes a red-black tree with a black root when given a subtree of black height `h`. */
  ghost predicate CtxRB(c: Ctx, h: nat)
    decreases c
  {
    c.Step? ==>
      && RB(c.sib, h)
      && (c.red ==> !IsRed(c.sib) && c.up.Step? && !c.up.red)
      && CtxRB(c.up, if c.red then h else h + 1)
  }

  function BlackHeight(t: Tree): nat {
    if t.Leaf? then 0 else BlackHeight(t.left) + if t.red then 0 else 1
  }

  /** The promise of the tree: red-black discipline and a black root. */
  ghost predicate RedBlack(t: Tree) {
    RB(t, BlackHeight(t)) && !IsRed(t)
  }

  lemma {:induction false} HeightIsUnique(t: Tree, h: nat)
    requires RB(t, h)
    ensures h == BlackHeight(t)
  {
    if t.Leaf? {
    } else {
      HeightIsUnique(t.left, if t.red then h else h - 1);
    }
  }

  /** A subtree of a red-black tree, and what its surroundings accept in its place. */
  lemma {:induction false} Unplug(c: Ctx, t: Tree) returns (h: nat)
    requires RedBlack(Plug(c, t))
    ensures RB(t, h) && CtxRB(c, h) && (IsRed(t) ==> c.Step? && !c.red)
    decreases c
  {
    if c.Top? {
      h := BlackHeight(t);
    } else {
      var w := Wrap(c, t);
      var k := Unplug(c.up, w);
      h := if c.red then k else k - 1;
    }
  }

  lemma {:induction false} Replug(c: Ctx, t: Tree, h: nat)
    requires RB(t, h) && CtxRB(c, h) && (IsRed(t) ==> c.Step? && !c.red)
    ensures RedBlack(Plug(c, t))
    decreases c
  {
    if c.Top? {
      HeightIsUnique(t, h);
    } else {
      Replug(c.up, Wrap(c, t), if c.red then h else h + 1);
    }
  }

  // ---------- size against height ----------

  function Height(t: Tree): nat {
    if t.Leaf? then 0
    else 1 + if Height(t.left) > Height(t.right) then Height(t.left) else Height(t.right)
  }

  function Size(t: Tree): nat {
    if t.Leaf? then 0 else Size(t.left) + 1 + Size(t.right)
  }

  lemma {:induction false} BlackHeightBounds(t: Tree, h: nat)
    requires RB(t, h)
    ensures Pow2(h) <= Size(t) + 1
    ensures Height(t) <= 2 * h + if IsRed(t) then 1 else 0
  {
    if t.Leaf? {
    } else {
      var k := if t.red then h else h - 1;
      BlackHeightBounds(t.left, k);
      BlackHeightBounds(t.right, k);
    }
  }

  lemma {:induction false} Squares(a: nat, b: nat)
    requires a <= b
    ensures a * a <= b * b
  {
  }

  /** A red-black tree of n entries is at most 2 * log2(n + 1) high. */
  lemma {:induction false} HeightBound(t: Tree)
    requires RedBlack(t)
    ensures Pow2(Height(t)) <= (Size(t) + 1) * (Size(t) + 1)
  {
    var h := BlackHeight(t);
    BlackHeightBounds(t, h);
    Pow2Sum(h, h);
    Pow2Monotone(Height(t), 2 * h);
    Squares(Pow2(h), Size(t) + 1);
  }

  // ---------- in-order listing ----------

  function Inorder(t: Tree): seq<Entry> {
    if t.Leaf? then [] else Inorder(t.left) + [t.e] + Inorder(t.right)
  }

  ghost function Elements(s: seq<Entry>): set<Entry> {
    set x | x in s
  }

  lemma {:induction false} InorderNodes(t: Tree)
    ensures Elements(Inorder(t)) == Nodes(t) && |Inorder(t)| == Size(t)
  {
    if t.Leaf? {
    } else {
      InorderNodes(t.left);
      InorderNodes(t.right);
      assert Elements(Inorder(t)) == Elements(Inorder(t.left)) + {t.e} + Elements(Inorder(t.right));
    }
  }

  /** `steps` is at most 2 * log2(n + 1). */
  ghost predicate TwiceLog(steps: nat, n: nat) {
    Pow2(steps) <= (n + 1) * (n + 1)
  }

  lemma {:induction false} StepBound(t: Tree, steps: nat)
    requires RedBlack(t) && steps <= Height(t)
    ensures TwiceLog(steps, |Inorder(t)|)
  {
    HeightBound(t);
    Pow2Monotone(steps, Height(t));
    InorderNodes(t);
  }

  /** The entries that come before and after everything in the hole. */
  function Before(c: Ctx): seq<Entry> {
    if c.Top? then [] else Before(c.up) + if c.d.L? then [] else Inorder(c.sib) + [c.e]
  }

  function After(c: Ctx): seq<Entry> {
    if c.Top? then [] else (if c.d.L? then [c.e] + Inorder(c.sib) else []) + After(c.up)
  }

  /** The index of the root of the focus in the in-order listing of the whole tree. */
  function Position(c: Ctx, t: Tree): nat
    requires t.Node?
  {
    |Before(c)| + |Inorder(t.left)|
  }

  lemma Reassociate(b: seq<Entry>, s: seq<Entry>, e: Entry, r: seq<Entry>, a: seq<Entry>)
    ensures b + (s + [e] + r) + a == (b + []) + s + (([e] + r) + a)
    ensures b + (r + [e] + s) + a == (b + (r + [e])) + s + ([] + a)
  {
  }

  lemma {:induction false} InorderPlug(c: Ctx, t: Tree)
    ensures Inorder(Plug(c, t)) == Before(c) + Inorder(t) + After(c)
    decreases c
  {
    if c.Top? {
    } else {
      InorderPlug(c.up, Wrap(c, t));
      Reassociate(Before(c.up), Inorder(t), c.e, Inorder(c.sib), After(c.up));
    }
  }

  lemma {:induction false} PositionIsIndex(c: Ctx, t: Tree)
    requires t.Node?
    ensures Position(c, t) < |Inorder(Plug(c, t))| && Inorder(Plug(c, t))[Position(c, t)] == t.e
  {
    InorderPlug(c, t);
  }

  /** The leftmost entry of a subtree is the first one of its listing. */
  lemma LeftmostIsFirst(c: Ctx, t: Tree, c0: Ctx, t0: Tree)
    requires t.Node? && t.left.Leaf? && t0.Node? && Plug(c, t) == Plug(c0, t0) && Before(c) == Before(c0)
    ensures Inorder(t0) != [] && Inorder(t0)[0] == t.e
  {
    InorderPlug(c, t);
    InorderPlug(c0, t0);
    var s, k := Inorder(Plug(c, t)), |Before(c)|;
    assert s[k] == Inorder(t)[0] && s[k] == Inorder(t0)[0];
  }

  lemma {:induction false} SameInorder(c: Ctx, t: Tree, t': Tree)
    requires Inorder(t) == Inorder(t')
    ensures Inorder(Plug(c, t)) == Inorder(Plug(c, t'))
  {
    InorderPlug(c, t);
    InorderPlug(c, t');
  }

  lemma {:induction false} RotatedInorder(d: Dir, t: Tree)
    requires t.Node? && Kid(t, Opp(d)).Node?
    ensures Inorder(Rotated(d, t)) == Inorder(t)
  {
    var r := Kid(t, Opp(d));
    assert Inorder(r) == Inorder(r.left) + [r.e] + Inorder(r.right);
    var l := Make(d, t.red, Kid(t, d), t.e, Kid(r, d));
    assert Inorder(l) == Inorder(l.left) + [l.e] + Inorder(l.right);
  }

  lemma {:induction false} FocusIsListed(c: Ctx, t: Tree)
    requires t.Node?
    ensures t.e in Inorder(Plug(c, t))
  {
    InorderNodes(Plug(c, t));
    PlugNodes(c, t);
  }

  lemma {:induction false} FindBelow(c0: Ctx, t: Tree, x: Entry) returns (c: Ctx, f: Tree)
    requires x in Nodes(t)
    ensures Plug(c, f) == Plug(c0, t) && f.Node? && f.e == x
    decreases t
  {
    if x == t.e {
      c, f := c0, t;
    } else if x in Nodes(t.left) {
      c, f := FindBelow(Down(L, c0, t), t.left, x);
    } else {
      c, f := FindBelow(Down(R, c0, t), t.right, x);
    }
  }

  /** Every entry of a tree is the root of some subtree. */
  lemma {:induction false} Find(t: Tree, x: Entry) returns (c: Ctx, f: Tree)
    requires x in Nodes(t)
    ensures Plug(c, f) == t && f.Node? && f.e == x
  {
    c, f := FindBelow(Top, t, x);
  }

  // ---------- order ----------

  type Compare = (Key, Key) -> int

  /** A three-way compare that is consistent: a total order up to keys it calls equal. */
  ghost predicate Consistent(cmp: Compare) {
    && (forall a :: cmp(a, a) == 0)
    && (forall a, b :: cmp(a, b) < 0 <==> cmp(b, a) > 0)
    && (forall a, b, c :: cmp(a, b) <= 0 && cmp(b, c) <= 0 ==> cmp(a, c) <= 0)
  }

  ghost predicate Sorted(cmp: Compare, s: seq<Entry>) {
    forall i, j | 0 <= i < j < |s| :: cmp(s[i].key, s[j].key) < 0
  }

  lemma {:induction false} LessThrough(cmp: Compare, a: Key, b: Key, c: Key)
    requires Consistent(cmp)
    ensures cmp(a, b) <= 0 && cmp(b, c) < 0 ==> cmp(a, c) < 0
    ensures cmp(a, b) < 0 && cmp(b, c) <= 0 ==> cmp(a, c) < 0
  {
    assert cmp(a, c) < 0 || cmp(c, a) <= 0;
  }

  /** In a sorted listing, an entry is greater than what is to its left and less than what is to its right. */
  lemma {:induction false} Separates(cmp: Compare, b: seq<Entry>, l: seq<Entry>, e: Entry, r: seq<Entry>, a: seq<Entry>)
    requires Sorted(cmp, b + (l + [e] + r) + a)
    ensures forall x | x in l :: cmp(x.key, e.key) < 0
    ensures forall x | x in r :: cmp(e.key, x.key) < 0
  {
    var s, k := b + (l + [e] + r) + a, |b| + |l|;
    assert s[k] == e;
    forall x | x in l ensures cmp(x.key, e.key) < 0 {
      var i :| 0 <= i < |l| && l[i] == x;
      assert s[|b| + i] == x;
    }
    forall x | x in r ensures cmp(e.key, x.key) < 0 {
      var i :| 0 <= i < |r| && r[i] == x;
      assert s[k + 1 + i] == x;
    }
  }

  /** Going down from `f` past its root: everything on the far side stays on that side of the key. */
  lemma {:induction false} Narrow(cmp: Compare, key: Key, c: Ctx, f: Tree)
    requires Consistent(cmp) && f.Node? && Sorted(cmp, Inorder(Plug(c, f)))
    ensures cmp(key, f.e.key) < 0 ==> forall x | x in Inorder(f.right) :: cmp(key, x.key) < 0
    ensures cmp(key, f.e.key) > 0 ==> forall x | x in Inorder(f.left) :: cmp(key, x.key) > 0
  {
    InorderPlug(c, f);
    Separates(cmp, Before(c), Inorder(f.left), f.e, Inorder(f.right), After(c));
    forall x | x in Inorder(f.right) && cmp(key, f.e.key) < 0 ensures cmp(key, x.key) < 0 {
      LessThrough(cmp, key, f.e.key, x.key);
    }
    forall x | x in Inorder(f.left) && cmp(key, f.e.key) > 0 ensures cmp(key, x.key) > 0 {
      LessThrough(cmp, x.key, f.e.key, key);
    }
  }

  lemma {:induction false} SortedInsert(cmp: Compare, before: seq<Entry>, x: Entry, after: seq<Entry>)
    requires Consistent(cmp) && Sorted(cmp, before + after)
    requires forall y | y in before :: cmp(x.key, y.key) > 0
    requires forall y | y in after :: cmp(x.key, y.key) < 0
    ensures Sorted(cmp, before + [x] + after)
  {
    var s := before + [x] + after;
    var r := before + after;
    forall i, j | 0 <= i < j < |s|
      ensures cmp(s[i].key, s[j].key) < 0
    {
      if i < |before| && j > |before| { assert s[i] == r[i] && s[j] == r[j - 1]; }
      else if j < |before| { assert s[i] == r[i] && s[j] == r[j]; }
      else if i > |before| { assert s[i] == r[i - 1] && s[j] == r[j - 1]; }
      else if j == |before| { assert s[i] in before; }
      else { assert s[j] in after; }
    }
  }

  /** A key with no equal has one place, and an entry with that key is new to the tree. */
  lemma {:induction false} PlaceIsFree(cmp: Compare, key: Key, c: Ctx, x: Entry)
    requires cmp(key, x.key) == 0
    requires forall y | y in Before(c) :: cmp(key, y.key) > 0
    requires forall y | y in After(c) :: cmp(key, y.key) < 0
    ensures forall y | y in Inorder(Plug(c, Leaf)) :: cmp(key, y.key) != 0
    ensures x !in Nodes(Plug(c, Leaf))
  {
    InorderPlug(c, Leaf);
    InorderNodes(Plug(c, Leaf));
    assert x in Nodes(Plug(c, Leaf)) ==> x in Elements(Inorder(Plug(c, Leaf)));
  }

  lemma {:induction false} EqualKeys(cmp: Compare, key: Key, x: Entry, before: seq<Entry>, after: seq<Entry>)
    requires Consistent(cmp) && cmp(key, x.key) == 0
    requires forall y | y in before :: cmp(key, y.key) > 0
    requires forall y | y in after :: cmp(key, y.key) < 0
    ensures forall y | y in before :: cmp(x.key, y.key) > 0
    ensures forall y | y in after :: cmp(x.key, y.key) < 0
  {
    forall y | y in before ensures cmp(x.key, y.key) > 0 {
      LessThrough(cmp, y.key, key, x.key);
    }
    forall y | y in after ensures cmp(x.key, y.key) < 0 {
      LessThrough(cmp, x.key, key, y.key);
    }
  }

  lemma {:induction false} InsertShape(c: Ctx, x: Entry)
    ensures var s, k := Inorder(Plug(c, Leaf)), |Before(c)|;
      && s == Before(c) + After(c) && k <= |s|
      && Inorder(Plug(c, Node(true, Leaf, x, Leaf))) == s[..k] + [x] + s[k..] == Before(c) + [x] + After(c)
  {
    InorderPlug(c, Leaf);
    InorderPlug(c, Node(true, Leaf, x, Leaf));
    var s, k := Inorder(Plug(c, Leaf)), |Before(c)|;
    assert s == Before(c) + After(c);
    assert s[..k] == Before(c) && s[k..] == After(c);
  }

  /** The new entry, in its place, keeps the order. */
  lemma {:induction false} InsertInOrder(cmp: Compare, key: Key, c: Ctx, x: Entry)
    requires Consistent(cmp) && Sorted(cmp, Inorder(Plug(c, Leaf))) && cmp(key, x.key) == 0
    requires forall y | y in Before(c) :: cmp(key, y.key) > 0
    requires forall y | y in After(c) :: cmp(key, y.key) < 0
    ensures var s, s', k := Inorder(Plug(c, Leaf)), Inorder(Plug(c, Node(true, Leaf, x, Leaf))), |Before(c)|;
      k <= |s| && s' == s[..k] + [x] + s[k..] && Sorted(cmp, s')
  {
    InsertShape(c, x);
    EqualKeys(cmp, key, x, Before(c), After(c));
    SortedInsert(cmp, Before(c), x, After(c));
  }
}
