/** Merging the resolutions that render calls and viewport calls report into the eight most called ones. */
module ResolutionMerge {
  import opened Common

  const SLOTS: nat := 8

  /** A slot of width 0 is empty. */
  datatype Calls = Calls(width: nat, height: nat, calls: nat)

  const EMPTY: Calls := Calls(0, 0, 0)

  predicate Live(c: Calls) { c.width != 0 }

  predicate SameKey(a: Calls, b: Calls) { a.width == b.width && a.height == b.height }

  // ---- Sorting ----

  predicate NonIncreasing(s: seq<Calls>) { forall i, k | 0 <= i < k < |s| :: s[i].calls >= s[k].calls }

  /** What qsort with this comparison leaves: the same slots by falling calls, equal ones in any order. */
  ghost predicate SortedFrom(before: seq<Calls>, after: seq<Calls>) {
    multiset(before) == multiset(after) && NonIncreasing(after)
  }

  function Insert(s: seq<Calls>, c: Calls): (t: seq<Calls>)
    requires NonIncreasing(s)
    ensures NonIncreasing(t) && |t| == |s| + 1 && forall x | x in t :: x == c || x in s
  {
    if s == [] then [c]
    else if c.calls >= s[0].calls then [c] + s
    else
      var t := Insert(s[1..], c);
      assert forall i | 0 <= i < |t| :: t[i] in t;
      [s[0]] + t
  }

  lemma {:induction false} InsertPermutes(s: seq<Calls>, c: Calls)
    requires NonIncreasing(s)
    ensures multiset(Insert(s, c)) == multiset(s) + multiset{c}
  {
    if s != [] {
      assert s == [s[0]] + s[1..];
      InsertPermutes(s[1..], c);
    }
  }

  function Sorted(s: seq<Calls>): (t: seq<Calls>)
    ensures NonIncreasing(t) && |t| == |s|
  {
    if s == [] then [] else Insert(Sorted(s[..|s| - 1]), s[|s| - 1])
  }

  lemma {:induction false} SortedPermutes(s: seq<Calls>)
    ensures multiset(Sorted(s)) == multiset(s)
  {
    if s != [] {
      var front := s[..|s| - 1];
      assert s == front + [s[|s| - 1]];
      SortedPermutes(front);
      InsertPermutes(Sorted(front), s[|s| - 1]);
    }
  }

  method QSort(a: array<Calls>)
    modifies a
    ensures SortedFrom(old(a[..]), a[..])
    ensures forall i, k | 0 <= i < k < a.Length :: a[i].calls >= a[k].calls
  {
    var s := Sorted(a[..]);
    SortedPermutes(a[..]);
    forall i | 0 <= i < a.Length {
      a[i] := s[i];
    }
    assert a[..] == s;
  }

  // ---- The merge as a list ----

  /** A render entry with the calls of the first viewport entry of the same key, if those are more. */
  function MergeOne(c: Calls, vs: seq<Calls>): (m: Calls)
    ensures SameKey(m, c)
  {
    if vs == [] then c
    else if SameKey(c, vs[0]) then c.(calls := Max(c.calls, vs[0].calls))
    else MergeOne(c, vs[1..])
  }

  function FromRenders(rs: seq<Calls>, vs: seq<Calls>): (out: seq<Calls>)
    ensures |out| <= |rs|
  {
    if rs == [] then []
    else
      var c := rs[|rs| - 1];
      FromRenders(rs[..|rs| - 1], vs) + if Live(c) then [MergeOne(c, vs)] else []
  }

  predicate HasKey(s: seq<Calls>, c: Calls) { exists i :: 0 <= i < |s| && SameKey(s[i], c) }

  function FromViewports(vs: seq<Calls>, out: seq<Calls>): seq<Calls> {
    if vs == [] then []
    else
      var c := vs[|vs| - 1];
      FromViewports(vs[..|vs| - 1], out) + if Live(c) && !HasKey(out, c) then [c] else []
  }

  function FirstEight(s: seq<Calls>): (t: seq<Calls>)
    ensures |t| <= SLOTS
  {
    if |s| > SLOTS then s[..SLOTS] else s
  }

  /** Everything there is to show, before it is cut to eight. */
  function Merged(rs: seq<Calls>, vs: seq<Calls>): seq<Calls> {
    FromRenders(rs, vs) + FromViewports(vs, FromRenders(rs, vs))
  }

  // ---- The loops ----

  method MergeRender(c: Calls, v: array<Calls>) returns (found: bool, calls: nat)
    ensures found ==> MergeOne(c, v[..]) == c.(calls := calls)
    ensures !found ==> MergeOne(c, v[..]) == c
  {
    var x := 0;
    while x < v.Length
      invariant x <= v.Length && MergeOne(c, v[..]) == MergeOne(c, v[x..])
    {
      assert v[x..] == [v[x]] + v[x + 1..];
      if c.width == v[x].width && c.height == v[x].height {
        return true, if c.calls > v[x].calls then c.calls else v[x].calls;
      }
      x := x + 1;
    }
    return false, 0;
  }

  method MergeRenders(r: array<Calls>, v: array<Calls>, out: array<Calls>) returns (n: nat)
    requires r.Length == v.Length == out.Length == SLOTS && out != r && out != v
    modifies out
    ensures n <= SLOTS && out[..n] == FromRenders(r[..], v[..])
    ensures forall k | n <= k < SLOTS :: out[k] == old(out[k])
  {
    n := 0;
    var i := 0;
    while i < SLOTS
      invariant n <= i <= SLOTS
      invariant out[..n] == FromRenders(r[..i], v[..])
      invariant forall k | n <= k < SLOTS :: out[k] == old(out[k])
    {
      assert r[..i + 1] == r[..i] + [r[i]];
      if r[i].width != 0 {
        var found, calls := MergeRender(r[i], v);
        out[n] := if found then Calls(r[i].width, r[i].height, calls) else r[i];
        n := n + 1;
        assert out[..n] == out[..n - 1] + [out[n - 1]];
      }
      i := i + 1;
      if n == SLOTS { break; }
    }
    assert r[..SLOTS] == r[..];
  }

  method IsThere(c: Calls, out: array<Calls>, n: nat) returns (found: bool)
    requires n <= out.Length
    ensures found == HasKey(out[..n], c)
  {
    var y := 0;
    while y < n
      invariant y <= n && !HasKey(out[..y], c)
    {
      if c.width == out[y].width && c.height == out[y].height {
        assert SameKey(out[..n][y], c);
        return true;
      }
      assert out[..y + 1] == out[..y] + [out[y]];
      y := y + 1;
    }
    return false;
  }

  method MergeViewports(v: array<Calls>, out: array<Calls>, from: nat) returns (n: nat)
    requires v.Length == out.Length == SLOTS && out != v && from < SLOTS
    modifies out
    ensures from <= n <= SLOTS
    ensures out[..n] == FirstEight(old(out[..from]) + FromViewports(v[..], old(out[..from])))
    ensures forall k | n <= k < SLOTS :: out[k] == old(out[k])
  {
    ghost var start := out[..from];
    n := from;
    var x := 0;
    while x < SLOTS
      invariant x <= SLOTS && from <= n < SLOTS
      invariant out[..n] == start + FromViewports(v[..x], start)
      invariant forall k | n <= k < SLOTS :: out[k] == old(out[k])
    {
      assert v[..x + 1] == v[..x] + [v[x]];
      assert out[..from] == start;
      if v[x].width != 0 {
        var found := IsThere(v[x], out, from);
        if !found {
          out[n] := v[x];
          n := n + 1;
          assert out[..n] == out[..n - 1] + [v[x]];
        }
      }
      x := x + 1;
      if n == SLOTS {
        Continues(v[..], start, x, out[..n]);
        return;
      }
    }
    assert v[..SLOTS] == v[..];
  }

  /** Later viewports only add to the list, so a full output is its first eight. */
  lemma {:induction false} Continues(vs: seq<Calls>, start: seq<Calls>, x: nat, full: seq<Calls>)
    requires x <= |vs| && full == start + FromViewports(vs[..x], start) && |full| == SLOTS
    ensures full == FirstEight(start + FromViewports(vs, start))
    decreases |vs| - x
  {
    FromViewportsGrows(vs, start, x);
  }

  lemma {:induction false} FromViewportsGrows(vs: seq<Calls>, start: seq<Calls>, x: nat)
    requires x <= |vs|
    ensures FromViewports(vs[..x], start) <= FromViewports(vs, start)
  {
    if x == |vs| {
      assert vs[..x] == vs;
    } else {
      FromViewportsGrows(vs[..|vs| - 1], start, x);
      assert vs[..|vs| - 1][..x] == vs[..x];
    }
  }

  /** The two passes over cleared slots. */
  method MergeSorted(r: array<Calls>, v: array<Calls>, out: array<Calls>)
    requires r.Length == v.Length == out.Length == SLOTS && out != r && out != v
    modifies out
    ensures out[..] == Padded(FirstEight(Merged(r[..], v[..])))
  {
    forall i | 0 <= i < SLOTS {
      out[i] := EMPTY;
    }
    var n := MergeRenders(r, v, out);
    if n < SLOTS {
      n := MergeViewports(v, out, n);
    } else {
      assert Merged(r[..], v[..])[..SLOTS] == out[..n];
    }
    assert out[..] == Padded(out[..n]);
  }

  /** The whole of it: sort both inputs, merge, sort. */
  method Merge(r: array<Calls>, v: array<Calls>, out: array<Calls>)
    requires r.Length == v.Length == out.Length == SLOTS && out != r && out != v && r != v
    modifies r, v, out
    ensures SortedFrom(old(r[..]), r[..]) && SortedFrom(old(v[..]), v[..])
    ensures SortedFrom(Padded(FirstEight(Merged(r[..], v[..]))), out[..])
  {
    ghost var v0 := v[..];
    QSort(r);
    ghost var rs := r[..];
    assert v[..] == v0;
    QSort(v);
    ghost var vs := v[..];
    assert r[..] == rs;
    MergeSorted(r, v, out);
    QSort(out);
    assert r[..] == rs && v[..] == vs;
  }

  function Padded(s: seq<Calls>): (t: seq<Calls>)
    requires |s| <= SLOTS
    ensures |t| == SLOTS && (forall i | 0 <= i < SLOTS :: t[i] == if i < |s| then s[i] else EMPTY)
    decreases SLOTS - |s|
  {
    if |s| == SLOTS then s else Padded(s + [EMPTY])
  }

  // ---- When the keys of the list are distinct ----

  /** No two live entries have the same key. */
  ghost predicate DistinctKeys(s: seq<Calls>) {
    forall i, k | 0 <= i < k < |s| && Live(s[i]) && Live(s[k]) :: !SameKey(s[i], s[k])
  }

  /** A key that the viewports list twice is a key of the other list. */
  ghost predicate RepeatsAreIn(vs: seq<Calls>, other: seq<Calls>) {
    forall i, k | 0 <= i < k < |vs| && Live(vs[i]) && SameKey(vs[i], vs[k]) :: HasKey(other, vs[i])
  }

  lemma OneMoreKey(s: seq<Calls>, c: Calls)
    ensures DistinctKeys(s + [c]) <==> DistinctKeys(s) && !(Live(c) && HasKey(s, c))
  {
    var t := s + [c];
    if DistinctKeys(t) {
      assert forall i | 0 <= i < |s| :: t[i] == s[i];
      forall i | 0 <= i < |s| && Live(c)
        ensures !SameKey(s[i], c)
      {
        assert t[i] == s[i] && t[|s|] == c;
      }
    }
  }

  lemma SameKeyAlike(s: seq<Calls>, a: Calls, b: Calls)
    requires SameKey(a, b)
    ensures HasKey(s, a) <==> HasKey(s, b)
  {
    if i :| 0 <= i < |s| && SameKey(s[i], a) { assert SameKey(s[i], b); }
    if i :| 0 <= i < |s| && SameKey(s[i], b) { assert SameKey(s[i], a); }
  }

  /** The render half of the list: each live render entry, merged. */
  lemma {:induction false} RendersAre(rs: seq<Calls>, vs: seq<Calls>, e: Calls)
    ensures e in FromRenders(rs, vs) <==> exists c | c in rs :: Live(c) && e == MergeOne(c, vs)
  {
    if rs != [] {
      assert rs == rs[..|rs| - 1] + [rs[|rs| - 1]];
      RendersAre(rs[..|rs| - 1], vs, e);
    }
  }

  /** It has the keys of the render entries. */
  lemma RenderKeys(rs: seq<Calls>, vs: seq<Calls>, e: Calls)
    requires Live(e)
    ensures HasKey(FromRenders(rs, vs), e) <==> HasKey(rs, e)
  {
    var out := FromRenders(rs, vs);
    if i :| 0 <= i < |out| && SameKey(out[i], e) {
      RendersAre(rs, vs, out[i]);
      var c :| c in rs && Live(c) && out[i] == MergeOne(c, vs);
      var k :| 0 <= k < |rs| && rs[k] == c;
      assert SameKey(rs[k], e);
    }
    if i :| 0 <= i < |rs| && SameKey(rs[i], e) {
      var m := MergeOne(rs[i], vs);
      RendersAre(rs, vs, m);
      assert rs[i] in rs && Live(rs[i]);
      var k :| 0 <= k < |out| && out[k] == m;
      assert SameKey(out[k], e);
    }
  }

  /** The viewport half: each live viewport entry whose key is not there yet. */
  lemma {:induction false} ViewportsAre(vs: seq<Calls>, out: seq<Calls>, e: Calls)
    ensures e in FromViewports(vs, out) <==> e in vs && Live(e) && !HasKey(out, e)
  {
    if vs != [] {
      assert vs == vs[..|vs| - 1] + [vs[|vs| - 1]];
      ViewportsAre(vs[..|vs| - 1], out, e);
    }
  }

  lemma ViewportKeys(vs: seq<Calls>, out: seq<Calls>, e: Calls)
    requires Live(e) && !HasKey(out, e)
    ensures HasKey(FromViewports(vs, out), e) <==> HasKey(vs, e)
  {
    var added := FromViewports(vs, out);
    if i :| 0 <= i < |added| && SameKey(added[i], e) {
      ViewportsAre(vs, out, added[i]);
      var k :| 0 <= k < |vs| && vs[k] == added[i];
      assert SameKey(vs[k], e);
    }
    if i :| 0 <= i < |vs| && SameKey(vs[i], e) {
      SameKeyAlike(out, vs[i], e);
      ViewportsAre(vs, out, vs[i]);
      var k :| 0 <= k < |added| && added[k] == vs[i];
      assert SameKey(added[k], e);
    }
  }

  lemma {:induction false} RendersDistinctExactly(rs: seq<Calls>, vs: seq<Calls>)
    ensures DistinctKeys(FromRenders(rs, vs)) <==> DistinctKeys(rs)
  {
    if rs != [] {
      var front, c := rs[..|rs| - 1], rs[|rs| - 1];
      assert rs == front + [c];
      RendersDistinctExactly(front, vs);
      OneMoreKey(front, c);
      if Live(c) {
        OneMoreKey(FromRenders(front, vs), MergeOne(c, vs));
        RenderKeys(front, vs, c);
        SameKeyAlike(FromRenders(front, vs), c, MergeOne(c, vs));
      } else {
        assert FromRenders(rs, vs) == FromRenders(front, vs);
      }
    }
  }

  lemma OneMoreRepeat(vs: seq<Calls>, c: Calls, other: seq<Calls>)
    ensures RepeatsAreIn(vs + [c], other) <==> RepeatsAreIn(vs, other) && (Live(c) && HasKey(vs, c) ==> HasKey(other, c))
  {
    var t := vs + [c];
    if RepeatsAreIn(t, other) {
      assert forall i | 0 <= i < |vs| :: t[i] == vs[i];
      if Live(c) && HasKey(vs, c) {
        var i :| 0 <= i < |vs| && SameKey(vs[i], c);
        assert t[i] == vs[i] && t[|vs|] == c && SameKey(t[i], t[|vs|]);
        SameKeyAlike(other, vs[i], c);
      }
    } else if RepeatsAreIn(vs, other) {
      var i, k :| 0 <= i < k < |t| && Live(t[i]) && SameKey(t[i], t[k]) && !HasKey(other, t[i]);
      assert k == |vs| && SameKey(vs[i], c);
      SameKeyAlike(other, vs[i], c);
    }
  }

  lemma {:induction false} ViewportsDistinctExactly(vs: seq<Calls>, out: seq<Calls>)
    ensures DistinctKeys(FromViewports(vs, out)) <==> RepeatsAreIn(vs, out)
  {
    if vs != [] {
      var front, c := vs[..|vs| - 1], vs[|vs| - 1];
      assert vs == front + [c];
      ViewportsDistinctExactly(front, out);
      OneMoreRepeat(front, c, out);
      if Live(c) && !HasKey(out, c) {
        OneMoreKey(FromViewports(front, out), c);
        ViewportKeys(front, out, c);
      } else {
        assert FromViewports(vs, out) == FromViewports(front, out);
      }
    }
  }

  ghost predicate Apart(a: seq<Calls>, b: seq<Calls>) {
    forall i, k | 0 <= i < |a| && 0 <= k < |b| :: !SameKey(a[i], b[k])
  }

  lemma DistinctHalves(a: seq<Calls>, b: seq<Calls>)
    requires Apart(a, b)
    ensures DistinctKeys(a + b) <==> DistinctKeys(a) && DistinctKeys(b)
  {
    var t := a + b;
    if DistinctKeys(t) {
      assert forall i | 0 <= i < |a| :: t[i] == a[i];
      assert forall k | 0 <= k < |b| :: b[k] == t[|a| + k];
    }
  }

  lemma RepeatsSeenThroughRenders(rs: seq<Calls>, vs: seq<Calls>)
    ensures RepeatsAreIn(vs, FromRenders(rs, vs)) <==> RepeatsAreIn(vs, rs)
  {
    forall e | Live(e)
      ensures HasKey(FromRenders(rs, vs), e) <==> HasKey(rs, e)
    {
      RenderKeys(rs, vs, e);
    }
  }

  /** The merged list has distinct keys exactly when the render calls have, and every key that the viewport calls list
      twice is a render key, so that neither of its viewport entries is listed by itself. */
  lemma DistinctExactly(rs: seq<Calls>, vs: seq<Calls>)
    ensures DistinctKeys(Merged(rs, vs)) <==> DistinctKeys(rs) && RepeatsAreIn(vs, rs)
  {
    var front, back := FromRenders(rs, vs), FromViewports(vs, FromRenders(rs, vs));
    RendersDistinctExactly(rs, vs);
    ViewportsDistinctExactly(vs, front);
    RepeatsSeenThroughRenders(rs, vs);
    forall i, k | 0 <= i < |front| && 0 <= k < |back|
      ensures !SameKey(front[i], back[k])
    {
      ViewportsAre(vs, front, back[k]);
    }
    DistinctHalves(front, back);
  }

  // ---- What the merge means ----

  /** `e` is a key of either list, with the largest of its counts. */
  ghost predicate InUnion(rs: seq<Calls>, vs: seq<Calls>, e: Calls) {
    && Live(e)
    && (exists c | c in rs || c in vs :: SameKey(c, e) && c.calls == e.calls)
    && (forall c | (c in rs || c in vs) && SameKey(c, e) :: c.calls <= e.calls)
  }

  lemma OnlyOneOfAKey(s: seq<Calls>, a: Calls, b: Calls)
    requires DistinctKeys(s) && a in s && b in s && Live(a) && SameKey(a, b)
    ensures a == b
  {
  }

  /** The viewport entries are sorted, so the first one of the key has the largest count. */
  lemma {:induction false} MergeOneIsLargest(c: Calls, vs: seq<Calls>)
    requires NonIncreasing(vs)
    ensures c.calls <= MergeOne(c, vs).calls
    ensures forall d | d in vs && SameKey(c, d) :: d.calls <= MergeOne(c, vs).calls
    ensures MergeOne(c, vs).calls == c.calls || exists d | d in vs :: SameKey(c, d) && d.calls == MergeOne(c, vs).calls
  {
    if vs != [] {
      if SameKey(c, vs[0]) {
        assert vs[0] in vs;
      } else {
        MergeOneIsLargest(c, vs[1..]);
        assert forall d | d in vs && SameKey(c, d) :: d in vs[1..];
      }
    }
  }

  lemma RenderIsInUnion(rs: seq<Calls>, vs: seq<Calls>, c: Calls)
    requires DistinctKeys(rs) && NonIncreasing(vs) && c in rs && Live(c)
    ensures InUnion(rs, vs, MergeOne(c, vs))
  {
    var e := MergeOne(c, vs);
    MergeOneIsLargest(c, vs);
    assert SameKey(c, e);
    forall x | (x in rs || x in vs) && SameKey(x, e)
      ensures x.calls <= e.calls
    {
      if x in rs { OnlyOneOfAKey(rs, c, x); } else { assert SameKey(c, x); }
    }
    if e.calls != c.calls {
      var d :| d in vs && SameKey(c, d) && d.calls == e.calls;
      assert SameKey(d, e);
    }
  }

  lemma ViewportIsInUnion(rs: seq<Calls>, vs: seq<Calls>, e: Calls)
    requires RepeatsAreIn(vs, rs) && e in vs && Live(e) && !HasKey(rs, e)
    ensures InUnion(rs, vs, e)
  {
    assert SameKey(e, e);
    forall x | (x in rs || x in vs) && SameKey(x, e)
      ensures x.calls <= e.calls
    {
      if x in vs {
        var i :| 0 <= i < |vs| && vs[i] == e;
        var k :| 0 <= k < |vs| && vs[k] == x;
        SameKeyAlike(rs, e, x);
        assert i == k;
      }
    }
  }

  /** With distinct keys, the list holds exactly the union of the keys, each with its largest count. */
  lemma MergedIsUnion(rs: seq<Calls>, vs: seq<Calls>, e: Calls)
    requires DistinctKeys(rs) && RepeatsAreIn(vs, rs) && NonIncreasing(vs)
    ensures e in Merged(rs, vs) <==> InUnion(rs, vs, e)
  {
    RendersAre(rs, vs, e);
    ViewportsAre(vs, FromRenders(rs, vs), e);
    if e in FromRenders(rs, vs) {
      var c :| c in rs && Live(c) && e == MergeOne(c, vs);
      RenderIsInUnion(rs, vs, c);
    } else if e in FromViewports(vs, FromRenders(rs, vs)) {
      RenderKeys(rs, vs, e);
      ViewportIsInUnion(rs, vs, e);
    } else if InUnion(rs, vs, e) {
      UnionIsMerged(rs, vs, e);
    }
  }

  lemma UnionIsMerged(rs: seq<Calls>, vs: seq<Calls>, e: Calls)
    requires DistinctKeys(rs) && NonIncreasing(vs) && InUnion(rs, vs, e)
    ensures e in Merged(rs, vs)
  {
    var c :| (c in rs || c in vs) && SameKey(c, e) && c.calls == e.calls;
    RenderKeys(rs, vs, e);
    if x :| x in rs && SameKey(x, e) {
      RenderIsInUnion(rs, vs, x);
      RendersAre(rs, vs, MergeOne(x, vs));
      SameInUnion(rs, vs, e, MergeOne(x, vs));
    } else {
      ViewportsAre(vs, FromRenders(rs, vs), e);
    }
  }

  /** The union has one entry for a key. */
  lemma SameInUnion(rs: seq<Calls>, vs: seq<Calls>, a: Calls, b: Calls)
    requires InUnion(rs, vs, a) && InUnion(rs, vs, b) && SameKey(a, b)
    ensures a == b
  {
    var c :| (c in rs || c in vs) && SameKey(c, a) && c.calls == a.calls;
    var d :| (d in rs || d in vs) && SameKey(d, b) && d.calls == b.calls;
    assert SameKey(c, b) && SameKey(d, a);
  }

  // ---- Counting keys ----

  /** The resolutions that live entries have. */
  ghost function Keys(s: seq<Calls>): set<(nat, nat)> {
    set c | c in s && Live(c) :: (c.width, c.height)
  }

  lemma KeyIsThere(s: seq<Calls>, c: Calls)
    requires Live(c)
    ensures (c.width, c.height) in Keys(s) <==> HasKey(s, c)
  {
    if HasKey(s, c) {
      var i :| 0 <= i < |s| && SameKey(s[i], c);
      assert s[i] in s && Live(s[i]);
    }
  }

  /** Live entries with distinct keys are as many as their keys. */
  lemma {:induction false} KeysAreEntries(s: seq<Calls>)
    requires DistinctKeys(s) && forall c | c in s :: Live(c)
    ensures |Keys(s)| == |s|
  {
    if s == [] {
      assert Keys(s) == {};
    } else {
      var front, c := s[..|s| - 1], s[|s| - 1];
      assert s == front + [c];
      OneMoreKey(front, c);
      KeysAreEntries(front);
      KeyIsThere(front, c);
      assert Keys(s) == Keys(front) + {(c.width, c.height)};
    }
  }

  /** Merging loses no key and makes none up. */
  lemma MergedKeys(rs: seq<Calls>, vs: seq<Calls>)
    ensures Keys(Merged(rs, vs)) == Keys(rs + vs) && forall c | c in Merged(rs, vs) :: Live(c)
  {
    var front := FromRenders(rs, vs);
    forall e | Live(e)
      ensures HasKey(Merged(rs, vs), e) <==> HasKey(rs + vs, e)
    {
      RenderKeys(rs, vs, e);
      JoinedKeys(rs, vs, e);
      JoinedKeys(front, FromViewports(vs, front), e);
      if !HasKey(front, e) { ViewportKeys(vs, front, e); }
    }
    forall c | c in Merged(rs, vs)
      ensures Live(c)
    {
      RendersAre(rs, vs, c);
      ViewportsAre(vs, front, c);
    }
    KeysAlike(Merged(rs, vs), rs + vs);
  }

  lemma JoinedKeys(a: seq<Calls>, b: seq<Calls>, e: Calls)
    ensures HasKey(a + b, e) <==> HasKey(a, e) || HasKey(b, e)
  {
    if i :| 0 <= i < |a| && SameKey(a[i], e) { assert SameKey((a + b)[i], e); }
    if i :| 0 <= i < |b| && SameKey(b[i], e) { assert SameKey((a + b)[|a| + i], e); }
  }

  lemma KeysAlike(s: seq<Calls>, t: seq<Calls>)
    requires forall e | Live(e) :: HasKey(s, e) <==> HasKey(t, e)
    ensures Keys(s) == Keys(t)
  {
    forall k
      ensures k in Keys(s) <==> k in Keys(t)
    {
      if k.0 != 0 {
        var e := Calls(k.0, k.1, 0);
        KeyIsThere(s, e);
        KeyIsThere(t, e);
      }
    }
  }

  // ---- Sorting changes none of it ----

  lemma SameMembers(s: seq<Calls>, t: seq<Calls>, c: Calls)
    requires multiset(s) == multiset(t)
    ensures c in s <==> c in t
  {
    assert c in s <==> c in multiset(s);
    assert c in t <==> c in multiset(t);
  }

  lemma TwiceMeansTwoPlaces(s: seq<Calls>, i: nat, k: nat)
    requires i < k < |s| && s[i] == s[k]
    ensures multiset(s)[s[i]] >= 2
  {
    assert s == s[..k] + s[k..];
    assert s[i] in s[..k] && s[i] in s[k..];
    assert multiset(s) == multiset(s[..k]) + multiset(s[k..]);
  }

  lemma {:induction false} TwoPlaces(s: seq<Calls>, c: Calls)
    requires multiset(s)[c] >= 2
    ensures exists i, k :: 0 <= i < k < |s| && s[i] == s[k] == c
  {
    var n := |s| - 1;
    assert s == s[..n] + [s[n]];
    if s[n] == c {
      assert c in multiset(s[..n]);
      var i :| 0 <= i < n && s[..n][i] == c;
      assert s[i] == s[n] == c;
    } else {
      TwoPlaces(s[..n], c);
      var i, k :| 0 <= i < k < n && s[..n][i] == s[..n][k] == c;
      assert s[i] == s[k] == c;
    }
  }

  /** A key that stands in two places of a list stands in two places of every permutation of it. */
  lemma RepeatedInPermutation(s: seq<Calls>, t: seq<Calls>, i: nat, k: nat)
    requires multiset(s) == multiset(t) && i < k < |t| && SameKey(t[i], t[k])
    ensures exists a, b :: 0 <= a < b < |s| && SameKey(s[a], s[b]) && SameKey(s[a], t[i])
  {
    if t[i] == t[k] {
      TwiceMeansTwoPlaces(t, i, k);
      TwoPlaces(s, t[i]);
    } else {
      SameMembers(s, t, t[i]);
      SameMembers(s, t, t[k]);
      var a :| 0 <= a < |s| && s[a] == t[i];
      var b :| 0 <= b < |s| && s[b] == t[k];
      if b < a { assert SameKey(s[b], s[a]); }
    }
  }

  lemma SortedIsDistinct(s: seq<Calls>, t: seq<Calls>)
    requires DistinctKeys(s) && multiset(s) == multiset(t)
    ensures DistinctKeys(t)
  {
    forall i, k | 0 <= i < k < |t| && Live(t[i]) && Live(t[k])
      ensures !SameKey(t[i], t[k])
    {
      if SameKey(t[i], t[k]) { RepeatedInPermutation(s, t, i, k); }
    }
  }

  lemma SortedHasKey(s: seq<Calls>, t: seq<Calls>, e: Calls)
    requires multiset(s) == multiset(t) && HasKey(s, e)
    ensures HasKey(t, e)
  {
    var i :| 0 <= i < |s| && SameKey(s[i], e);
    SameMembers(s, t, s[i]);
  }

  lemma SortedRepeatsAreIn(rs: seq<Calls>, vs: seq<Calls>, rs': seq<Calls>, vs': seq<Calls>)
    requires multiset(rs) == multiset(rs') && multiset(vs) == multiset(vs') && RepeatsAreIn(vs, rs)
    ensures RepeatsAreIn(vs', rs')
  {
    forall i, k | 0 <= i < k < |vs'| && Live(vs'[i]) && SameKey(vs'[i], vs'[k])
      ensures HasKey(rs', vs'[i])
    {
      RepeatedInPermutation(vs, vs', i, k);
      var a, b :| 0 <= a < b < |vs| && SameKey(vs[a], vs[b]) && SameKey(vs[a], vs'[i]);
      SameKeyAlike(rs, vs[a], vs'[i]);
      SortedHasKey(rs, rs', vs'[i]);
    }
  }

  lemma SortedKeys(s: seq<Calls>, t: seq<Calls>)
    requires multiset(s) == multiset(t)
    ensures Keys(s) == Keys(t)
  {
    forall c ensures c in s <==> c in t { SameMembers(s, t, c); }
  }

  lemma SortedUnion(rs: seq<Calls>, vs: seq<Calls>, rs': seq<Calls>, vs': seq<Calls>, e: Calls)
    requires multiset(rs) == multiset(rs') && multiset(vs) == multiset(vs') && InUnion(rs', vs', e)
    ensures InUnion(rs, vs, e)
  {
    var c :| (c in rs' || c in vs') && SameKey(c, e) && c.calls == e.calls;
    SameMembers(rs, rs', c);
    SameMembers(vs, vs', c);
    forall x | (x in rs || x in vs) && SameKey(x, e)
      ensures x.calls <= e.calls
    {
      SameMembers(rs, rs', x);
      SameMembers(vs, vs', x);
    }
  }

  // ---- The output ----

  /** `out` is what Merge leaves for inputs `rs` and `vs`, which it sorts to `rs'` and `vs'`. */
  ghost predicate MergeOutput(rs: seq<Calls>, vs: seq<Calls>, rs': seq<Calls>, vs': seq<Calls>, out: seq<Calls>) {
    && SortedFrom(rs, rs') && SortedFrom(vs, vs')
    && SortedFrom(Padded(FirstEight(Merged(rs', vs'))), out)
  }

  /** The live entries of the output are the first eight of the list. */
  lemma ShownAre(list: seq<Calls>, out: seq<Calls>, e: Calls)
    requires (forall c | c in list :: Live(c)) && multiset(Padded(FirstEight(list))) == multiset(out)
    ensures e in out && Live(e) <==> e in FirstEight(list)
  {
    var shown := FirstEight(list);
    SameMembers(Padded(shown), out, e);
    if e in shown {
      var i :| 0 <= i < |shown| && shown[i] == e;
      assert Padded(shown)[i] == e && list[i] in list;
    }
  }

  lemma ShownKeys(list: seq<Calls>, out: seq<Calls>)
    requires (forall c | c in list :: Live(c)) && DistinctKeys(list) && multiset(Padded(FirstEight(list))) == multiset(out)
    ensures DistinctKeys(out) && |Keys(out)| == Min(|list|, SLOTS)
  {
    var shown := FirstEight(list);
    assert forall i | 0 <= i < |shown| :: shown[i] == list[i];
    assert DistinctKeys(Padded(shown));
    SortedIsDistinct(Padded(shown), out);
    forall e ensures e in out && Live(e) <==> e in shown { ShownAre(list, out, e); }
    KeysAreEntries(shown);
    assert Keys(out) == Keys(shown);
  }

  /** What Merge leaves in the output when the list has distinct keys: entries of the union, by falling calls, no key
      twice, and as many as there are keys, up to eight. */
  lemma OutputIsUnion(rs: seq<Calls>, vs: seq<Calls>, rs': seq<Calls>, vs': seq<Calls>, out: seq<Calls>)
    requires DistinctKeys(rs) && RepeatsAreIn(vs, rs) && MergeOutput(rs, vs, rs', vs', out)
    ensures (forall i, k | 0 <= i < k < |out| :: out[i].calls >= out[k].calls) && DistinctKeys(out)
    ensures |Keys(out)| == Min(|Keys(rs + vs)|, SLOTS)
    ensures forall e | e in out && Live(e) :: InUnion(rs, vs, e)
  {
    var list := Merged(rs', vs');
    OutputKeys(rs, vs, rs', vs', out);
    forall e | e in out && Live(e)
      ensures InUnion(rs, vs, e)
    {
      ShownAre(list, out, e);
      assert e in list;
      MergedIsUnion(rs', vs', e);
      SortedUnion(rs, vs, rs', vs', e);
    }
  }

  lemma OutputKeys(rs: seq<Calls>, vs: seq<Calls>, rs': seq<Calls>, vs': seq<Calls>, out: seq<Calls>)
    requires DistinctKeys(rs) && RepeatsAreIn(vs, rs) && MergeOutput(rs, vs, rs', vs', out)
    ensures DistinctKeys(rs') && RepeatsAreIn(vs', rs') && DistinctKeys(Merged(rs', vs'))
    ensures (forall c | c in Merged(rs', vs') :: Live(c)) && |Merged(rs', vs')| == |Keys(rs + vs)|
    ensures DistinctKeys(out) && |Keys(out)| == Min(|Keys(rs + vs)|, SLOTS)
  {
    SortedIsDistinct(rs, rs');
    SortedRepeatsAreIn(rs, vs, rs', vs');
    DistinctExactly(rs', vs');
    MergedKeys(rs', vs');
    SortedKeys(rs + vs, rs' + vs');
    KeysAreEntries(Merged(rs', vs'));
    ShownKeys(Merged(rs', vs'), out);
  }

  /** All of the union is shown exactly when it has no more than eight keys. */
  lemma OutputIsWholeUnionExactly(rs: seq<Calls>, vs: seq<Calls>, rs': seq<Calls>, vs': seq<Calls>, out: seq<Calls>)
    requires DistinctKeys(rs) && RepeatsAreIn(vs, rs) && MergeOutput(rs, vs, rs', vs', out)
    ensures (forall e | InUnion(rs, vs, e) :: e in out) <==> |Keys(rs + vs)| <= SLOTS
  {
    var list := Merged(rs', vs');
    OutputKeys(rs, vs, rs', vs', out);
    if |list| <= SLOTS {
      forall e | InUnion(rs, vs, e)
        ensures e in out
      {
        SortedUnion(rs', vs', rs, vs, e);
        MergedIsUnion(rs', vs', e);
        ShownAre(list, out, e);
      }
    } else {
      var e := list[SLOTS];
      MergedIsUnion(rs', vs', e);
      SortedUnion(rs, vs, rs', vs', e);
      ShownAre(list, out, e);
      assert forall i | 0 <= i < SLOTS :: !SameKey(list[i], e);
    }
  }

  /** Every render key is shown, also when the viewport calls have more keys than fit. */
  lemma RenderKeysAreShown(rs: seq<Calls>, vs: seq<Calls>, rs': seq<Calls>, vs': seq<Calls>, out: seq<Calls>, e: Calls)
    requires DistinctKeys(rs) && |rs| == SLOTS && MergeOutput(rs, vs, rs', vs', out)
    requires InUnion(rs, vs, e) && HasKey(rs, e)
    ensures e in out
  {
    var front, list := FromRenders(rs', vs'), Merged(rs', vs');
    SortedIsDistinct(rs, rs');
    SortedUnion(rs', vs', rs, vs, e);
    SortedHasKey(rs, rs', e);
    assert |rs| == |multiset(rs)| && |rs'| == |multiset(rs')|;
    var i :| 0 <= i < |rs'| && SameKey(rs'[i], e);
    var m := MergeOne(rs'[i], vs');
    RendersAre(rs', vs', m);
    RenderIsInUnion(rs', vs', rs'[i]);
    SameInUnion(rs', vs', e, m);
    var k :| 0 <= k < |front| && front[k] == e;
    assert FirstEight(list)[k] == e;
    MergedKeys(rs', vs');
    ShownAre(list, out, e);
  }

  // ---- When a key is shown twice ----

  /** The first `m` of a list, or all of it. */
  function Cut(s: seq<Calls>, m: nat): seq<Calls> { if |s| > m then s[..m] else s }

  /** Before a viewport entry comes whose key stands in front of it, and in no other list, `m` entries have been added. */
  ghost predicate RepeatsAreCut(vs: seq<Calls>, other: seq<Calls>, m: nat) {
    forall i, k | 0 <= i < k < |vs| && Live(vs[i]) && SameKey(vs[i], vs[k]) && !HasKey(other, vs[i]) ::
      |FromViewports(vs[..k], other)| >= m
  }

  lemma OneMoreCut(vs: seq<Calls>, c: Calls, other: seq<Calls>, m: nat)
    ensures RepeatsAreCut(vs + [c], other, m)
       <==> RepeatsAreCut(vs, other, m) && (Live(c) && HasKey(vs, c) && !HasKey(other, c) ==> |FromViewports(vs, other)| >= m)
  {
    var t := vs + [c];
    assert t[..|vs|] == vs;
    assert forall k | 0 <= k < |vs| :: t[k] == vs[k] && t[..k] == vs[..k];
    if RepeatsAreCut(t, other, m) {
      if Live(c) && HasKey(vs, c) && !HasKey(other, c) {
        var i :| 0 <= i < |vs| && SameKey(vs[i], c);
        SameKeyAlike(other, vs[i], c);
        assert SameKey(t[i], t[|vs|]);
      }
    } else if RepeatsAreCut(vs, other, m) {
      var i, k :| 0 <= i < k < |t| && Live(t[i]) && SameKey(t[i], t[k]) && !HasKey(other, t[i])
                  && |FromViewports(t[..k], other)| < m;
      assert k == |vs| && SameKey(vs[i], c);
      SameKeyAlike(other, vs[i], c);
    }
  }

  lemma {:induction false} CutDistinctExactly(vs: seq<Calls>, other: seq<Calls>, m: nat)
    ensures DistinctKeys(Cut(FromViewports(vs, other), m)) <==> RepeatsAreCut(vs, other, m)
  {
    if vs != [] {
      var front, c := vs[..|vs| - 1], vs[|vs| - 1];
      var added := FromViewports(front, other);
      assert vs == front + [c];
      CutDistinctExactly(front, other, m);
      OneMoreCut(front, c, other, m);
      if Live(c) && !HasKey(other, c) {
        assert FromViewports(vs, other) == added + [c];
        if |added| < m {
          assert Cut(added, m) == added && Cut(added + [c], m) == added + [c];
          OneMoreKey(added, c);
          ViewportKeys(front, other, c);
        } else {
          assert Cut(added + [c], m) == Cut(added, m);
        }
      } else {
        assert FromViewports(vs, other) == added;
      }
    }
  }

  /** Of what is shown, the render half is whole, and the viewport half is cut to the slots that are left. */
  lemma ShownHalves(front: seq<Calls>, back: seq<Calls>, room: nat)
    requires |front| + room == SLOTS
    ensures FirstEight(front + back) == front + Cut(back, room)
  {
  }

  lemma ShownHalvesDistinct(front: seq<Calls>, back: seq<Calls>, room: nat)
    requires |front| + room == SLOTS && Apart(front, Cut(back, room))
    ensures DistinctKeys(FirstEight(front + back)) <==> DistinctKeys(front) && DistinctKeys(Cut(back, room))
  {
    ShownHalves(front, back, room);
    DistinctHalves(front, Cut(back, room));
  }

  lemma PaddingHasNoKeys(s: seq<Calls>)
    requires |s| <= SLOTS
    ensures DistinctKeys(Padded(s)) <==> DistinctKeys(s)
  {
    if DistinctKeys(Padded(s)) {
      assert forall i | 0 <= i < |s| :: Padded(s)[i] == s[i];
    }
  }

  lemma AddedApart(vs: seq<Calls>, front: seq<Calls>, m: nat)
    ensures Apart(front, Cut(FromViewports(vs, front), m))
  {
    var shown := Cut(FromViewports(vs, front), m);
    forall i, k | 0 <= i < |front| && 0 <= k < |shown|
      ensures !SameKey(front[i], shown[k])
    {
      assert shown[k] in FromViewports(vs, front);
      ViewportsAre(vs, front, shown[k]);
    }
  }

  lemma CutListDistinctExactly(rs: seq<Calls>, vs: seq<Calls>, front: seq<Calls>, back: seq<Calls>, room: nat)
    requires front == FromRenders(rs, vs) && back == FromViewports(vs, front) && |front| + room == SLOTS
    ensures DistinctKeys(FirstEight(front + back)) <==> DistinctKeys(rs) && RepeatsAreCut(vs, front, room)
  {
    AddedApart(vs, front, room);
    ShownHalvesDistinct(front, back, room);
    RendersDistinctExactly(rs, vs);
    CutDistinctExactly(vs, front, room);
  }

  /** No key is shown twice exactly when the render calls have distinct keys, and whenever the sorted viewport calls list
      again a key that no render call has, the eight slots are full before they come to it. */
  lemma OutputDistinctExactly(rs: seq<Calls>, vs: seq<Calls>, rs': seq<Calls>, vs': seq<Calls>, out: seq<Calls>)
    requires |rs| == |rs'| == SLOTS && MergeOutput(rs, vs, rs', vs', out)
    ensures var front := FromRenders(rs', vs');
            DistinctKeys(out) <==>
            DistinctKeys(rs) && RepeatsAreCut(vs', front, SLOTS - |front|)
  {
    var front, shown := FromRenders(rs', vs'), FirstEight(Merged(rs', vs'));
    DistinctInPermutations(rs, rs');
    DistinctInPermutations(Padded(shown), out);
    PaddingHasNoKeys(shown);
    CutListDistinctExactly(rs', vs', front, FromViewports(vs', front), SLOTS - |front|);
  }

  lemma DistinctInPermutations(s: seq<Calls>, t: seq<Calls>)
    requires multiset(s) == multiset(t)
    ensures DistinctKeys(s) <==> DistinctKeys(t)
  {
    if DistinctKeys(s) { SortedIsDistinct(s, t); }
    if DistinctKeys(t) { SortedIsDistinct(t, s); }
  }

  /** Eight render entries of different keys leave no room, so then no viewport entry is listed at all. */
  lemma FullRendersHideRepeats(rs: seq<Calls>, vs: seq<Calls>, rs': seq<Calls>, vs': seq<Calls>, out: seq<Calls>)
    requires |rs| == |rs'| == SLOTS && MergeOutput(rs, vs, rs', vs', out)
    requires DistinctKeys(rs) && forall i | 0 <= i < |rs| :: Live(rs[i])
    ensures DistinctKeys(out)
  {
    forall i | 0 <= i < |rs'| ensures Live(rs'[i]) { SameMembers(rs, rs', rs'[i]); }
    AllLive(rs', vs');
    OutputDistinctExactly(rs, vs, rs', vs', out);
  }

  lemma {:induction false} AllLive(rs: seq<Calls>, vs: seq<Calls>)
    requires forall i | 0 <= i < |rs| :: Live(rs[i])
    ensures |FromRenders(rs, vs)| == |rs|
  {
    if rs != [] { AllLive(rs[..|rs| - 1], vs); }
  }

  lemma {:induction false} ViewportsShrink(vs: seq<Calls>, other: seq<Calls>)
    ensures |FromViewports(vs, other)| <= |vs|
  {
    if vs != [] { ViewportsShrink(vs[..|vs| - 1], other); }
  }

  lemma NothingFromEmpty(rs: seq<Calls>, rs': seq<Calls>, vs: seq<Calls>)
    requires multiset(rs) == multiset(rs') && forall i | 0 <= i < |rs| :: !Live(rs[i])
    ensures FromRenders(rs', vs) == []
  {
    var front := FromRenders(rs', vs);
    if front != [] {
      RendersAre(rs', vs, front[0]);
      var c :| c in rs' && Live(c);
      SameMembers(rs, rs', c);
      assert false;
    }
  }

  lemma SecondOfAKeyIsNotCut(vs: seq<Calls>)
    requires |vs| <= SLOTS && !DistinctKeys(vs)
    ensures !RepeatsAreCut(vs, [], SLOTS)
  {
    var i, k :| 0 <= i < k < |vs| && Live(vs[i]) && Live(vs[k]) && SameKey(vs[i], vs[k]);
    ViewportsShrink(vs[..k], []);
    assert !HasKey([], vs[i]);
  }

  /** A resolution that the render calls list twice is always shown twice, and one that the viewport calls list twice is
      when there are no render calls. */
  lemma RepeatsAreShown(rs: seq<Calls>, vs: seq<Calls>, rs': seq<Calls>, vs': seq<Calls>, out: seq<Calls>)
    requires |rs| == |rs'| == |vs'| == SLOTS && MergeOutput(rs, vs, rs', vs', out)
    requires !DistinctKeys(rs) || ((forall i | 0 <= i < |rs| :: !Live(rs[i])) && !DistinctKeys(vs))
    ensures !DistinctKeys(out)
  {
    OutputDistinctExactly(rs, vs, rs', vs', out);
    if DistinctKeys(rs) {
      NothingFromEmpty(rs, rs', vs');
      DistinctInPermutations(vs, vs');
      SecondOfAKeyIsNotCut(vs');
    }
  }

  const NO_CALLS: seq<Calls> := [EMPTY, EMPTY, EMPTY, EMPTY, EMPTY, EMPTY, EMPTY, EMPTY]

  /** Two slots of one resolution, and six empty ones. */
  const TWICE: seq<Calls> := [Calls(1280, 720, 5), Calls(1280, 720, 3), EMPTY, EMPTY, EMPTY, EMPTY, EMPTY, EMPTY]

  lemma TwiceIsRepeated()
    ensures |TWICE| == |NO_CALLS| == SLOTS && !DistinctKeys(TWICE) && forall i | 0 <= i < |NO_CALLS| :: !Live(NO_CALLS[i])
  {
    assert SameKey(TWICE[0], TWICE[1]) && Live(TWICE[0]) && Live(TWICE[1]);
  }

  /** On either side, such slots lead to an output with the resolution in two slots. */
  lemma KeysShownTwice(rs: seq<Calls>, vs: seq<Calls>, rs': seq<Calls>, vs': seq<Calls>, out: seq<Calls>)
    requires (rs == TWICE && vs == NO_CALLS) || (rs == NO_CALLS && vs == TWICE)
    requires |rs'| == |vs'| == SLOTS && MergeOutput(rs, vs, rs', vs', out)
    ensures !DistinctKeys(out)
  {
    TwiceIsRepeated();
    RepeatsAreShown(rs, vs, rs', vs', out);
  }
}
