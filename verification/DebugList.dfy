/** The lists of options in environment variables: words between commas or semicolons. */
module DebugList {
  import opened Machine

  predicate IsSeparator(c: char) {
    c == ',' || c == ';' || c == '\0'
  }

  /** The character at `i`; past the last one there is the NUL. */
  function CharAt(s: string, i: nat): char {
    if i < |s| then s[i] else '\0'
  }

  predicate SeparatorFree(s: string) {
    forall i | 0 <= i < |s| :: !IsSeparator(s[i])
  }

  predicate MatchAt(s: string, m: string, k: nat) {
    k + |m| <= |s| && s[k..k + |m|] == m
  }

  /** strstr: the first match from `p` on. */
  function StrStr(s: string, m: string, p: nat): (r: Option<nat>)
    ensures r.Some? ==> p <= r.value && MatchAt(s, m, r.value) && forall k | p <= k < r.value :: !MatchAt(s, m, k)
    ensures r.None? ==> forall k | p <= k :: !MatchAt(s, m, k)
    decreases |s| - p
  {
    if p + |m| > |s| then None
    else if s[p..p + |m|] == m then Some(p)
    else StrStr(s, m, p + 1)
  }

  /** What stands around a match: separators, or the ends of the string. */
  predicate Bounded(s: string, k: nat, end: nat) {
    (k > 0 ==> k <= |s| && IsSeparator(s[k - 1])) && IsSeparator(CharAt(s, end))
  }

  /** One turn of the loop from `p`: it has found the member, has come to the end, or goes on from a new place. */
  datatype Turn = Found | Ended | On(p: nat)

  function Next(s: string, m: string, p: nat): Turn {
    match StrStr(s, m, p)
    case None => Ended
    case Some(k) => if Bounded(s, k, k + |m|) then Found else On(k + |m|)
  }

  /** The loop ends for every member but the empty one; that one has to be found at once. */
  predicate Ends(s: string, m: string) {
    m == "" ==> IsSeparator(CharAt(s, 0))
  }

  /** Otherwise each turn leads back to where it began. */
  lemma EndsExactly(s: string, m: string)
    ensures Ends(s, m) <==> Next(s, m, 0) != On(0)
    ensures m == "" && Ends(s, m) ==> Next(s, m, 0) == Found
  {
    if m == "" { assert MatchAt(s, m, 0); }
  }

  // ---------- the elements ----------

  function Split(s: string): (r: seq<string>)
    ensures r != []
  {
    if s == "" then [""]
    else if IsSeparator(s[0]) then [""] + Split(s[1..])
    else [[s[0]] + Split(s[1..])[0]] + Split(s[1..])[1..]
  }

  lemma SplitStep(c: char, t: string)
    ensures Split([c] + t) == if IsSeparator(c) then [""] + Split(t) else [[c] + Split(t)[0]] + Split(t)[1..]
  {
    assert ([c] + t)[1..] == t;
  }

  lemma JoinFirst(c: char, p: seq<string>, q: seq<string>)
    requires p != []
    ensures [[c] + (p + q)[0]] + (p + q)[1..] == ([[c] + p[0]] + p[1..]) + q
    ensures [""] + (p + q) == ([""] + p) + q
  {
  }

  /** Commas and semicolons separate. */
  lemma {:induction false} SplitAtSeparator(a: string, c: char, b: string)
    requires c == ',' || c == ';'
    ensures Split(a + [c] + b) == Split(a) + Split(b)
  {
    if a == "" {
      SplitStep(c, b);
      assert a + [c] + b == [c] + b;
    } else {
      var t := a[1..];
      SplitAtSeparator(t, c, b);
      SplitStep(a[0], t);
      SplitStep(a[0], t + [c] + b);
      assert a == [a[0]] + t && a + [c] + b == [a[0]] + (t + [c] + b);
      JoinFirst(a[0], Split(t), Split(b));
    }
  }

  /** Nothing else does. */
  lemma {:induction false} SplitWord(a: string)
    requires forall i | 0 <= i < |a| :: a[i] != ',' && a[i] != ';' && a[i] != '\0'
    ensures Split(a) == [a]
  {
    if a == "" {
    } else {
      SplitWord(a[1..]);
      assert [a[0]] + a[1..] == a;
    }
  }

  /** A word is free of exactly the three separators. */
  lemma SeparatorsAre(a: string)
    ensures SeparatorFree(a) <==> forall i | 0 <= i < |a| :: a[i] != ',' && a[i] != ';' && a[i] != '\0'
  {
  }

  /** `m` is an element that begins at `k`. */
  predicate ElementAt(s: string, m: string, k: nat) {
    MatchAt(s, m, k) && Bounded(s, k, k + |m|)
  }

  lemma {:induction false} FirstElement(s: string, m: string)
    ensures m == Split(s)[0] <==> SeparatorFree(m) && MatchAt(s, m, 0) && IsSeparator(CharAt(s, |m|))
  {
    if s == "" || IsSeparator(s[0]) {
    } else {
      if m == "" {
        assert MatchAt(s, m, 0);
      } else {
        FirstElement(s[1..], m[1..]);
        assert m == [m[0]] + m[1..];
        assert MatchAt(s, m, 0) <==> m[0] == s[0] && MatchAt(s[1..], m[1..], 0);
      }
    }
  }

  lemma ElementShift(s: string, m: string, k: nat)
    requires s != ""
    ensures ElementAt(s, m, k + 1) <==> ElementAt(s[1..], m, k) && (k == 0 ==> IsSeparator(s[0]))
  {
    assert k + 1 + |m| <= |s| ==> s[k + 1..k + 1 + |m|] == s[1..][k..k + |m|];
  }

  lemma LaterShift(s: string, m: string)
    requires s != ""
    ensures (exists k :: 1 <= k && ElementAt(s, m, k))
      <==> (IsSeparator(s[0]) && ElementAt(s[1..], m, 0)) || exists k :: 1 <= k && ElementAt(s[1..], m, k)
  {
    var t := s[1..];
    ElementShift(s, m, 0);
    if k :| 1 <= k && ElementAt(s, m, k) { ElementShift(s, m, k - 1); }
    if k :| 1 <= k && ElementAt(t, m, k) { ElementShift(s, m, k); }
  }

  lemma {:induction false} LaterElement(s: string, m: string)
    ensures m in Split(s)[1..] <==> SeparatorFree(m) && exists k :: 1 <= k && ElementAt(s, m, k)
  {
    if s == "" {
    } else {
      var t := s[1..];
      LaterElement(t, m);
      LaterShift(s, m);
      if IsSeparator(s[0]) {
        FirstElement(t, m);
        assert Split(s)[1..] == Split(t) == [Split(t)[0]] + Split(t)[1..];
        assert ElementAt(t, m, 0) <==> MatchAt(t, m, 0) && IsSeparator(CharAt(t, |m|));
      } else {
        assert Split(s)[1..] == Split(t)[1..];
      }
    }
  }

  /** The elements are the separator-free matches with separators, or an end of the string, on both sides. */
  lemma IsElement(s: string, m: string)
    ensures m in Split(s) <==> SeparatorFree(m) && exists k :: ElementAt(s, m, k)
  {
    FirstElement(s, m);
    LaterElement(s, m);
    assert m in Split(s) <==> m == Split(s)[0] || m in Split(s)[1..];
    assert ElementAt(s, m, 0) <==> MatchAt(s, m, 0) && IsSeparator(CharAt(s, |m|));
  }

  // ---------- the loop ----------

  /** Whether the loop, from `p` on, finds the member. */
  function Finds(s: string, m: string, p: nat): bool
    requires m != "" && p <= |s|
    decreases |s| - p
  {
    match Next(s, m, p)
    case Found => true
    case Ended => false
    case On(q) => Finds(s, m, q)
  }

  /** A match that overlaps another one and is bounded means that there is a separator in the member. */
  lemma SkipMissesNothing(s: string, m: string, k: nat, k': nat)
    requires SeparatorFree(m) && MatchAt(s, m, k) && k < k' < k + |m|
    ensures !ElementAt(s, m, k')
  {
    assert s[k..k + |m|][k' - 1 - k] == m[k' - 1 - k];
  }

  lemma FindsNext(s: string, m: string, p: nat)
    requires m != "" && p <= |s|
    ensures var t := Next(s, m, p);
      t.On? ==> p < t.p <= |s| && Finds(s, m, p) == Finds(s, m, t.p)
    ensures Next(s, m, p).Found? ==> Finds(s, m, p)
    ensures Next(s, m, p).Ended? ==> !Finds(s, m, p)
  {
  }

  /** A turn that goes on, or ends the loop, leaves no element behind. */
  lemma TurnMissesNothing(s: string, m: string, p: nat)
    requires m != "" && p <= |s| && SeparatorFree(m)
    ensures match Next(s, m, p)
      case Found => exists k :: p <= k && ElementAt(s, m, k)
      case Ended => forall k | p <= k :: !ElementAt(s, m, k)
      case On(q) => forall k | p <= k < q :: !ElementAt(s, m, k)
  {
    var r := StrStr(s, m, p);
    if r.Some? {
      var k := r.value;
      if Bounded(s, k, k + |m|) {
        assert ElementAt(s, m, k);
      } else {
        forall k' | p <= k' < k + |m| ensures !ElementAt(s, m, k') {
          if k' > k { SkipMissesNothing(s, m, k, k'); }
        }
      }
    }
  }

  lemma {:induction false} FindsElements(s: string, m: string, p: nat)
    requires m != "" && p <= |s| && SeparatorFree(m)
    ensures Finds(s, m, p) <==> exists k :: p <= k && ElementAt(s, m, k)
    decreases |s| - p
  {
    FindsNext(s, m, p);
    TurnMissesNothing(s, m, p);
    if Next(s, m, p).On? { FindsElements(s, m, Next(s, m, p).p); }
  }

  /** The loop tells for every string whether the member is an element of it, exactly if the member is a word. */
  lemma ElementsExactly(m: string)
    requires m != ""
    ensures (forall s :: Finds(s, m, 0) <==> m in Split(s)) <==> SeparatorFree(m)
  {
    if SeparatorFree(m) {
      forall s ensures Finds(s, m, 0) <==> m in Split(s) {
        IsElement(s, m);
        FindsElements(s, m, 0);
      }
    } else {
      assert MatchAt(m, m, 0) && Finds(m, m, 0);
      IsElement(m, m);
    }
  }

  lemma Tells(s: string, m: string)
    requires Ends(s, m) && SeparatorFree(m)
    ensures m == "" ==> m in Split(s)
    ensures m != "" ==> (Finds(s, m, 0) <==> m in Split(s))
  {
    if m == "" {
      FirstElement(s, m);
      assert MatchAt(s, m, 0);
    } else {
      IsElement(s, m);
      FindsElements(s, m, 0);
    }
  }

  /** The body of the loop. A pointer into the string is an index, or none when it is NULL. */
  method Search(s: string, m: string, from: nat) returns (found: bool, p: Option<nat>)
    requires from <= |s|
    ensures Next(s, m, from) == if found then Found else if p.Some? then On(p.value) else Ended
    ensures p.Some? ==> from + |m| <= p.value <= |s|
  {
    found, p := false, StrStr(s, m, from);
    if p.Some? {
      var prev := if p.value > 0 then s[p.value - 1] else '\0';
      p := Some(p.value + |m|);
      var next := CharAt(s, p.value);
      found := IsSeparator(prev) && IsSeparator(next);
    }
  }

  /** What the function returns, if it does. */
  predicate Has(s: string, m: string)
    requires Ends(s, m)
  {
    m == "" || Finds(s, m, 0)
  }

  /** vkd3d_debug_list_has_member. The empty member is an element whenever the loop ends for it. */
  method HasMember(s: string, m: string) returns (r: bool)
    requires Ends(s, m)
    ensures r == Has(s, m)
    ensures SeparatorFree(m) ==> (r <==> m in Split(s))
  {
    if SeparatorFree(m) { Tells(s, m); }
    EndsExactly(s, m);
    var p: Option<nat> := Some(0);
    r := false;
    while p.Some? && !r
      invariant p.Some? ==> p.value <= |s|
      invariant m == "" ==> r || p == Some(0)
      invariant m != "" ==> Finds(s, m, 0) == (r || (p.Some? && Finds(s, m, p.value)))
      decreases if r || p.None? then 0 else |s| - p.value + 1
    {
      if m != "" { FindsNext(s, m, p.value); }
      r, p := Search(s, m, p.value);
    }
  }

  // ---------- options ----------

  /** A flag word is the set of its bits. */
  type Flags = bits: set<nat> | forall b | b in bits :: b < 64 witness {}

  datatype DebugOption = DebugOption(name: string, flag: Flags)

  ghost predicate AllEnd(s: string, os: seq<DebugOption>) {
    forall i | 0 <= i < |os| :: Ends(s, os[i].name)
  }

  /** A bit is on in the result exactly when some option brings it and the string has that option. */
  method ParseOptions(s: string, os: seq<DebugOption>) returns (flags: Flags)
    requires AllEnd(s, os)
    ensures forall b :: b in flags <==> exists i :: 0 <= i < |os| && b in os[i].flag && Has(s, os[i].name)
  {
    flags := {};
    for i := 0 to |os|
      invariant forall b :: b in flags <==> exists j :: 0 <= j < i && b in os[j].flag && Has(s, os[j].name)
    {
      var present := HasMember(s, os[i].name);
      if present { flags := flags + os[i].flag; }
    }
  }

  /** For options whose names are words, these are the elements of the string. */
  lemma HasElements(s: string, o: DebugOption)
    requires Ends(s, o.name) && SeparatorFree(o.name)
    ensures Has(s, o.name) <==> o.name in Split(s)
  {
    Tells(s, o.name);
  }
}
