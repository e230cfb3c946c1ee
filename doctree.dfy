/** The lxml element trees the pipeline builds and rearranges, as an arena:
    every element is an index into parallel sequences holding its tag, its
    attributes, its `text` and `tail`, its parent and its list of children.
    The operations are the lxml calls the pipeline makes (`append`,
    `insert`, `remove`, `find`, `getnext`, `getprevious`, `getparent`),
    with lxml's moving semantics: attaching an element that already has a
    parent first takes it out of that parent, and its tail travels with it. */
module DocTree {
  import opened Wrappers

  /** The attribute holding an element's identifier. */
  const EId := "eId"

  /** `s` with every occurrence of `c` taken out. */
  function Without(s: seq<nat>, c: nat): (r: seq<nat>)
    ensures forall x :: x in r <==> x in s && x != c
    ensures |r| <= |s|
    ensures c !in s ==> r == s
  {
    if s == [] then []
    else if s[0] == c then Without(s[1..], c)
    else [s[0]] + Without(s[1..], c)
  }

  predicate Distinct(s: seq<nat>) {
    forall i, j :: 0 <= i < j < |s| ==> s[i] != s[j]
  }

  lemma {:induction false} WithoutDistinct(s: seq<nat>, c: nat)
    requires Distinct(s)
    ensures Distinct(Without(s, c))
  {
    if s != [] {
      WithoutDistinct(s[1..], c);
      assert s[0] !in s[1..];
    }
  }

  /** Removing one element of a list without repetitions shortens it by one
      and keeps the others in their order. */
  lemma {:induction false} WithoutAt(s: seq<nat>, k: nat)
    requires Distinct(s) && k < |s|
    ensures Without(s, s[k]) == s[..k] + s[k + 1..]
  {
    if k == 0 {
      assert s[0] !in s[1..];
      assert s[1..] == s[..0] + s[1..];
    } else {
      var t := s[1..];
      assert Distinct(t) by {
        forall i, j | 0 <= i < j < |t| ensures t[i] != t[j] {
          assert t[i] == s[i + 1] && t[j] == s[j + 1];
        }
      }
      assert t[k - 1] == s[k] && s[0] != s[k];
      WithoutAt(t, k - 1);
      assert Without(s, s[k]) == [s[0]] + Without(t, s[k]);
      assert t[..k - 1] == s[1..k];
      assert t[k..] == s[k + 1..];
      assert s[..k] == [s[0]] + s[1..k];
    }
  }

  /** A list without repetitions that loses everything when `c` is taken
      out held `c` alone. */
  lemma WithoutOnly(s: seq<nat>, c: nat)
    requires Distinct(s) && c in s && Without(s, c) == []
    ensures s == [c]
  {
    assert forall i :: 0 <= i < |s| ==> s[i] in s;
  }

  /** Taking `c` out of its parent `q`, then changing the children of `p`
      only, leaves every other list as it was, except `q`'s. */
  lemma MovedKids(k0: seq<seq<nat>>, k1: seq<seq<nat>>, k2: seq<seq<nat>>, p: nat, q: int, c: nat)
    requires p < |k1| && |k0| == |k1| && |k2| == |k1|
    requires 0 <= q < |k0| ==> k1 == k0[q := Without(k0[q], c)]
    requires !(0 <= q < |k0|) ==> k1 == k0
    requires k2 == k1[p := k2[p]]
    ensures forall n :: 0 <= n < |k0| && n != p ==> k2[n] == if n == q then Without(k0[n], c) else k0[n]
  {
  }

  lemma UpdateTwice(s: seq<int>, i: nat, a: int, b: int)
    requires i < |s|
    ensures s[i := a][i := b] == s[i := b]
  {
  }

  function InsertAt(s: seq<nat>, j: nat, c: nat): (r: seq<nat>)
    requires j <= |s|
    ensures |r| == |s| + 1 && r[j] == c
    ensures forall x :: x in r <==> x in s || x == c
  {
    var r := s[..j] + [c] + s[j..];
    assert forall x :: x in s ==> x in s[..j] || x in s[j..] by {
      assert s == s[..j] + s[j..];
    }
    r
  }

  /** An element new to a list, inserted at `j`, is found at `j`, right
      before the element that stood there. */
  lemma InsertAtIndex(s: seq<nat>, j: nat, c: nat)
    requires j < |s| && c !in s
    ensures IndexOf(InsertAt(s, j, c), c) == j && InsertAt(s, j, c)[j + 1] == s[j]
  {
    var r := InsertAt(s, j, c);
    assert r[..j] == s[..j];
  }

  lemma InsertAtDistinct(s: seq<nat>, j: nat, c: nat)
    requires Distinct(s) && j <= |s| && c !in s
    ensures Distinct(InsertAt(s, j, c))
  {
    var r := InsertAt(s, j, c);
    forall a, b | 0 <= a < b < |r| ensures r[a] != r[b] {
      assert a < j ==> r[a] == s[a];
      assert a > j ==> r[a] == s[a - 1];
      assert b < j ==> r[b] == s[b];
      assert b > j ==> r[b] == s[b - 1];
    }
  }

  /** The first position of `c` in `s`. */
  function IndexOf(s: seq<nat>, c: nat): (k: nat)
    requires c in s
    ensures k < |s| && s[k] == c && c !in s[..k]
  {
    if s[0] == c then 0 else 1 + IndexOf(s[1..], c)
  }

  /** The last element of a list is found at the end when it occurs
      nowhere before. */
  lemma {:induction false} IndexOfLast(s: seq<nat>, c: nat)
    requires c !in s
    ensures IndexOf(s + [c], c) == |s|
  {
    if s != [] {
      assert (s + [c])[1..] == s[1..] + [c];
      IndexOfLast(s[1..], c);
    }
  }

  /** In a list without repetitions each element is found at its place. */
  lemma {:induction false} IndexOfDistinct(s: seq<nat>, i: nat)
    requires Distinct(s) && i < |s|
    ensures IndexOf(s, s[i]) == i
  {
    if i > 0 {
      assert s[1..][i - 1] == s[i];
      IndexOfDistinct(s[1..], i - 1);
    }
  }

  /** Taking out an element that is not among the first `m` keeps them. */
  lemma {:induction false} WithoutPrefix(s: seq<nat>, c: nat, m: nat)
    requires m <= |s| && c !in s[..m]
    ensures m <= |Without(s, c)| && Without(s, c)[..m] == s[..m]
  {
    if m > 0 {
      assert s[1..][..m - 1] == s[1..m];
      WithoutPrefix(s[1..], c, m - 1);
    }
  }

  /** Parent links that point inside the arena and climb in rank. */
  ghost predicate Ranked(parent: seq<int>, rank: seq<nat>, top: nat) {
    |rank| == |parent|
    && (forall n :: 0 <= n < |parent| ==> -1 <= parent[n] < |parent| && rank[n] < top)
    && (forall n {:trigger rank[parent[n]]} :: 0 <= n < |parent| && parent[n] >= 0 ==> rank[n] < rank[parent[n]])
  }

  /** `n` and the elements above it. */
  ghost function Ancestors(parent: seq<int>, rank: seq<nat>, top: nat, n: nat): (s: set<nat>)
    requires Ranked(parent, rank, top) && n < |parent|
    ensures n in s && forall x :: x in s ==> x < |parent|
    decreases top - rank[n]
  {
    {n} + (if parent[n] >= 0 then Ancestors(parent, rank, top, parent[n]) else {})
  }

  /** Cutting the link above `c` leaves the ancestors of an element that
      does not have `c` among them as they were. */
  lemma {:induction false} AncestorsDetach(parent: seq<int>, rank: seq<nat>, top: nat, p: nat, c: nat)
    requires Ranked(parent, rank, top) && p < |parent| && c < |parent|
    requires c !in Ancestors(parent, rank, top, p)
    ensures Ranked(parent[c := -1], rank, top)
    ensures Ancestors(parent[c := -1], rank, top, p) == Ancestors(parent, rank, top, p)
    decreases top - rank[p]
  {
    if parent[p] >= 0 {
      AncestorsDetach(parent, rank, top, parent[p], c);
    }
  }

  /** Cutting the link above `c` keeps the ranks in order. */
  lemma RankedDetach(parent: seq<int>, rank: seq<nat>, top: nat, c: nat)
    requires Ranked(parent, rank, top) && c < |parent|
    ensures Ranked(parent[c := -1], rank, top)
  {
  }

  /** The ranks after `c` is hung under `p`: `p` and its ancestors are
      raised above `c`. */
  ghost function Raised(rank: seq<nat>, s: set<nat>, d: nat): (r: seq<nat>)
    ensures |r| == |rank|
    ensures forall x :: 0 <= x < |rank| ==> r[x] == if x in s then rank[x] + d else rank[x]
  {
    seq(|rank|, x requires 0 <= x < |rank| => if x in s then rank[x] + d else rank[x])
  }

  lemma RankedAttach(parent: seq<int>, rank: seq<nat>, top: nat, p: nat, c: nat)
    requires Ranked(parent, rank, top) && p < |parent| && c < |parent| && parent[c] == -1
    requires c !in Ancestors(parent, rank, top, p)
    ensures Ranked(parent[c := p], Raised(rank, Ancestors(parent, rank, top, p), rank[c] + 1), top + rank[c] + 1)
  {
    var s := Ancestors(parent, rank, top, p);
    forall n | 0 <= n < |parent| && parent[n] >= 0 && n in s ensures parent[n] in s {
      AncestorsClosed(parent, rank, top, p, n);
    }
  }

  lemma {:induction false} AncestorsClosed(parent: seq<int>, rank: seq<nat>, top: nat, p: nat, n: nat)
    requires Ranked(parent, rank, top) && p < |parent|
    requires n in Ancestors(parent, rank, top, p) && parent[n] >= 0
    ensures parent[n] in Ancestors(parent, rank, top, p)
    decreases top - rank[p]
  {
    if n != p {
      AncestorsClosed(parent, rank, top, parent[p], n);
    }
  }

  /** The ancestors of `n` rank at least as high as `n`. */
  lemma {:induction false} AncestorsRank(parent: seq<int>, rank: seq<nat>, top: nat, n: nat, y: nat)
    requires Ranked(parent, rank, top) && n < |parent| && y in Ancestors(parent, rank, top, n)
    ensures y < |parent| && rank[y] >= rank[n]
    decreases top - rank[n]
  {
    if y != n {
      AncestorsRank(parent, rank, top, parent[n], y);
    }
  }

  /** A new parentless element leaves every chain of ancestors as it was. */
  lemma {:induction false} AncestorsGrow(parent: seq<int>, rank: seq<nat>, top: nat, x: nat)
    requires Ranked(parent, rank, top) && x < |parent|
    ensures Ranked(parent + [-1], rank + [0], top + 1)
    ensures Ancestors(parent + [-1], rank + [0], top + 1, x) == Ancestors(parent, rank, top, x)
    decreases top - rank[x]
  {
    RankedGrow(parent, rank, top);
    if parent[x] >= 0 {
      AncestorsGrow(parent, rank, top, parent[x]);
    }
  }

  /** Hanging `c` under `p` leaves the ancestors of an element that does not
      have `c` among them as they were. */
  lemma {:induction false} AncestorsAttach(parent: seq<int>, rank: seq<nat>, top: nat, p: nat, c: nat, x: nat)
    requires Ranked(parent, rank, top) && p < |parent| && c < |parent| && parent[c] == -1
    requires c !in Ancestors(parent, rank, top, p)
    requires x < |parent| && c !in Ancestors(parent, rank, top, x)
    ensures Ranked(parent[c := p], Raised(rank, Ancestors(parent, rank, top, p), rank[c] + 1), top + rank[c] + 1)
    ensures Ancestors(parent[c := p], Raised(rank, Ancestors(parent, rank, top, p), rank[c] + 1), top + rank[c] + 1, x)
      == Ancestors(parent, rank, top, x)
    decreases top - rank[x]
  {
    RankedAttach(parent, rank, top, p, c);
    if parent[x] >= 0 {
      AncestorsAttach(parent, rank, top, p, c, parent[x]);
    }
  }

  /** Parent links and child lists agree, and no child is listed twice. */
  ghost predicate Linked(parent: seq<int>, kids: seq<seq<nat>>) {
    |kids| == |parent|
    && (forall n :: 0 <= n < |parent| ==> -1 <= parent[n] < |parent|)
    && (forall n {:trigger kids[parent[n]]} :: 0 <= n < |parent| && parent[n] >= 0 ==> n in kids[parent[n]])
    && (forall n, x {:trigger x in kids[n]} :: 0 <= n < |parent| && x in kids[n] ==> x < |parent| && parent[x] == n)
    && (forall n, i :: 0 <= n < |parent| && 0 <= i < |kids[n]| ==> kids[n][i] < |parent|)
    && (forall n :: 0 <= n < |parent| ==> Distinct(kids[n]))
  }

  /** Setting one parent leaves the others. */
  lemma ParentOne(p0: seq<int>, p: seq<int>, j: nat, v: int)
    requires j < |p0| && p == p0[j := v]
    ensures |p| == |p0| && p[j] == v && forall n :: 0 <= n < |p0| && n != j ==> p[n] == p0[n]
  {
  }

  lemma LinkedKid(parent: seq<int>, kids: seq<seq<nat>>, n: nat, x: nat)
    requires Linked(parent, kids) && n < |parent| && x in kids[n]
    ensures x < |parent| && parent[x] == n
  {
  }

  lemma LinkedGrow(parent: seq<int>, kids: seq<seq<nat>>)
    requires Linked(parent, kids)
    ensures Linked(parent + [-1], kids + [[]])
  {
    var p2, k2 := parent + [-1], kids + [[]];
    forall n, x | 0 <= n < |p2| && x in k2[n] ensures x < |p2| && p2[x] == n {
      assert n < |parent| && k2[n] == kids[n];
      LinkedKid(parent, kids, n, x);
    }
    assert forall n :: 0 <= n < |p2| ==> Distinct(k2[n]);
  }

  lemma RankedGrow(parent: seq<int>, rank: seq<nat>, top: nat)
    requires Ranked(parent, rank, top)
    ensures Ranked(parent + [-1], rank + [0], top + 1)
  {
  }

  lemma LinkedDetach(parent: seq<int>, kids: seq<seq<nat>>, c: nat)
    requires Linked(parent, kids) && c < |parent| && parent[c] >= 0
    ensures Linked(parent[c := -1], kids[parent[c] := Without(kids[parent[c]], c)])
  {
    var q := parent[c];
    var p2, k2 := parent[c := -1], kids[q := Without(kids[q], c)];
    WithoutDistinct(kids[q], c);
    forall n, x | 0 <= n < |p2| && x in k2[n] ensures x < |p2| && p2[x] == n {
      assert x in kids[n];
      LinkedKid(parent, kids, n, x);
    }
    forall n, i | 0 <= n < |p2| && 0 <= i < |k2[n]| ensures k2[n][i] < |p2| {
      assert k2[n][i] in kids[n];
    }
    assert Linked(p2, k2);
  }

  lemma LinkedAttach(parent: seq<int>, kids: seq<seq<nat>>, p: nat, j: nat, c: nat)
    requires Linked(parent, kids) && p < |parent| && c < |parent| && parent[c] == -1
    requires j <= |kids[p]|
    ensures c !in kids[p]
    ensures Linked(parent[c := p], kids[p := InsertAt(kids[p], j, c)])
  {
    InsertAtDistinct(kids[p], j, c);
  }

  /** The first of `ns` whose tag is `t`. */
  function FirstTagged(tag: seq<string>, ns: seq<nat>, t: string): (r: Option<nat>)
    requires forall i :: 0 <= i < |ns| ==> ns[i] < |tag|
    ensures r.Some? ==> r.value in ns && tag[r.value] == t
    ensures r.Some? ==> forall i :: 0 <= i < IndexOf(ns, r.value) ==> tag[ns[i]] != t
    ensures r.None? ==> forall i :: 0 <= i < |ns| ==> tag[ns[i]] != t
  {
    if ns == [] then None
    else if tag[ns[0]] == t then Some(ns[0])
    else
      var r := FirstTagged(tag, ns[1..], t);
      if r.Some? then
        assert ns[0] != r.value;
        assert forall i :: 1 <= i < |ns| ==> ns[i] == ns[1..][i - 1];
        Some(r.value)
      else None
  }

  /** The search looks at the tags of `ns` only. */
  lemma {:induction false} FirstTaggedAgree(tag1: seq<string>, tag2: seq<string>, ns: seq<nat>, t: string)
    requires forall i :: 0 <= i < |ns| ==> ns[i] < |tag1| && ns[i] < |tag2| && tag1[ns[i]] == tag2[ns[i]]
    ensures FirstTagged(tag1, ns, t) == FirstTagged(tag2, ns, t)
  {
    if ns != [] {
      FirstTaggedAgree(tag1, tag2, ns[1..], t);
    }
  }

  class Doc {
    var tag: seq<string>
    var attrs: seq<map<string, string>>
    var text: seq<Option<string>>
    var tail: seq<Option<string>>
    /** The parent of each element, -1 for none. */
    var parent: seq<int>
    var kids: seq<seq<nat>>
    /** A parent always ranks above its children, so parent walks end. */
    ghost var rank: seq<nat>
    ghost var top: nat

    ghost predicate Shaped()
      reads this
    {
      |attrs| == |tag| && |text| == |tag| && |tail| == |tag|
      && |parent| == |tag| && |kids| == |tag| && |rank| == |tag|
    }

    ghost predicate Valid()
      reads this
    {
      Shaped() && Ranked(parent, rank, top) && Linked(parent, kids)
    }

    /** The element and its ancestors. */
    ghost function Chain(n: nat): (s: set<nat>)
      reads this
      requires Valid() && n < |tag|
      ensures n in s && forall x :: x in s ==> x < |tag|
    {
      Ancestors(parent, rank, top, n)
    }

    constructor ()
      ensures Valid() && tag == [] && top == 0
    {
      tag, attrs, text, tail, parent, kids := [], [], [], [], [], [];
      rank, top := [], 0;
    }

    /** `E.<t>()`: a fresh element with no attributes, text, tail, parent
        or children. */
    method NewElement(t: string) returns (n: nat)
      requires Valid()
      modifies this
      ensures Valid() && n == old(|tag|)
      ensures tag == old(tag) + [t] && attrs == old(attrs) + [map[]]
      ensures text == old(text) + [None] && tail == old(tail) + [None]
      ensures parent == old(parent) + [-1] && kids == old(kids) + [[]]
      ensures forall x :: 0 <= x < n ==> Chain(x) == old(Chain(x))
      ensures Chain(n) == {n}
    {
      n := |tag|;
      LinkedGrow(parent, kids);
      RankedGrow(parent, rank, top);
      forall x | 0 <= x < n
        ensures Ancestors(parent + [-1], rank + [0], top + 1, x) == Ancestors(parent, rank, top, x)
      {
        AncestorsGrow(parent, rank, top, x);
      }
      tag, attrs, text, tail := tag + [t], attrs + [map[]], text + [None], tail + [None];
      parent, kids := parent + [-1], kids + [[]];
      rank := rank + [0];
      top := top + 1;
    }

    /** `element.tag = t` */
    method SetTag(n: nat, t: string)
      requires Valid() && n < |tag|
      modifies this`tag
      ensures Valid() && tag == old(tag)[n := t]
    {
      tag := tag[n := t];
    }

    /** `element.attrib[k] = v` */
    method SetAttr(n: nat, k: string, v: string)
      requires Valid() && n < |tag|
      modifies this`attrs
      ensures Valid() && attrs == old(attrs)[n := old(attrs[n])[k := v]]
    {
      attrs := attrs[n := attrs[n][k := v]];
    }

    /** `element.attrib.pop(k, None)` */
    method PopAttr(n: nat, k: string)
      requires Valid() && n < |tag|
      modifies this`attrs
      ensures Valid() && attrs == old(attrs)[n := old(attrs[n]) - {k}]
    {
      attrs := attrs[n := attrs[n] - {k}];
    }

    /** `element.text = s` */
    method SetText(n: nat, s: Option<string>)
      requires Valid() && n < |tag|
      modifies this`text
      ensures Valid() && text == old(text)[n := s]
    {
      text := text[n := s];
    }

    /** `element.tail = s` */
    method SetTail(n: nat, s: Option<string>)
      requires Valid() && n < |tag|
      modifies this`tail
      ensures Valid() && tail == old(tail)[n := s]
    {
      tail := tail[n := s];
    }

    /** `element.attrib.get(k)` */
    function Attr(n: nat, k: string): (r: Option<string>)
      reads this
      requires Valid() && n < |tag|
      ensures r.Some? <==> k in attrs[n]
      ensures r.Some? ==> r.value == attrs[n][k]
    {
      if k in attrs[n] then Some(attrs[n][k]) else None
    }

    /** `element.find(t)`: the first child with tag `t`. */
    function FindChild(n: nat, t: string): (r: Option<nat>)
      reads this
      requires Valid() && n < |tag|
      ensures r.Some? ==> r.value in kids[n] && tag[r.value] == t
      ensures r.Some? ==> forall i :: 0 <= i < IndexOf(kids[n], r.value) ==> tag[kids[n][i]] != t
      ensures r.None? ==> forall i :: 0 <= i < |kids[n]| ==> tag[kids[n][i]] != t
    {
      FirstTagged(tag, kids[n], t)
    }

    /** `element.getprevious()` */
    function Previous(n: nat): (r: Option<nat>)
      reads this
      requires Valid() && n < |tag|
      ensures r.Some? <==> parent[n] >= 0 && IndexOf(kids[parent[n]], n) > 0
      ensures r.Some? ==> r.value < |tag|
      ensures r.Some? ==> r.value == kids[parent[n]][IndexOf(kids[parent[n]], n) - 1]
    {
      if parent[n] < 0 then None
      else
        var k := IndexOf(kids[parent[n]], n);
        if k == 0 then None else Some(kids[parent[n]][k - 1])
    }

    /** `element.getnext()` */
    function Next(n: nat): (r: Option<nat>)
      reads this
      requires Valid() && n < |tag|
      ensures r.Some? <==> parent[n] >= 0 && IndexOf(kids[parent[n]], n) + 1 < |kids[parent[n]]|
      ensures r.Some? ==> r.value < |tag|
      ensures r.Some? ==> r.value == kids[parent[n]][IndexOf(kids[parent[n]], n) + 1]
    {
      if parent[n] < 0 then None
      else
        var k := IndexOf(kids[parent[n]], n);
        if k + 1 < |kids[parent[n]]| then Some(kids[parent[n]][k + 1]) else None
    }

    /** Whether `c` is `p` or one of its ancestors: the test lxml makes
        before it attaches `c` under `p`. */
    method IsAncestorOrSelf(c: nat, p: nat) returns (b: bool)
      requires Valid() && c < |tag| && p < |tag|
      ensures b <==> c in Chain(p)
    {
      var x: int := p;
      while x >= 0
        invariant -1 <= x < |tag|
        invariant c in Chain(p) <==> x >= 0 && c in Chain(x)
        decreases if x >= 0 then top - rank[x] else 0
      {
        if x == c { return true; }
        x := parent[x];
      }
      return false;
    }

    /** An element without children is no ancestor of another element. */
    lemma {:induction false} ChildlessAbove(p: nat, n: nat)
      requires Valid() && p < |tag| && n < |tag| && kids[n] == [] && n != p
      ensures n !in Chain(p)
      decreases top - rank[p]
    {
      if parent[p] >= 0 {
        assert p in kids[parent[p]];
        ChildlessAbove(parent[p], n);
      }
    }

    /** Takes `c` out of its parent's children, if it has a parent. */
    method Detach(c: nat)
      requires Valid() && c < |tag|
      modifies this`parent, this`kids
      ensures Valid() && parent == old(parent)[c := -1]
      ensures old(parent[c]) >= 0 ==>
        kids == old(kids)[old(parent[c]) := Without(old(kids[parent[c]]), c)]
      ensures old(parent[c]) < 0 ==> kids == old(kids)
    {
      var q := parent[c];
      if q >= 0 {
        LinkedDetach(parent, kids, c);
        RankedDetach(parent, rank, top, c);
        kids := kids[q := Without(kids[q], c)];
        parent := parent[c := -1];
      }
    }

    /** Makes the parentless `c` the `j`-th child of `p`; `c` must not be
        `p` or an ancestor of `p`. */
    method Attach(p: nat, j: nat, c: nat)
      requires Valid() && p < |tag| && c < |tag| && parent[c] == -1
      requires c !in Chain(p) && j <= |kids[p]|
      modifies this`parent, this`kids, this`rank, this`top
      ensures Valid() && parent == old(parent)[c := p]
      ensures kids == old(kids)[p := InsertAt(old(kids[p]), j, c)]
      ensures Chain(c) == {c} + old(Chain(p))
    {
      RankedAttach(parent, rank, top, p, c);
      AncestorsAttach(parent, rank, top, p, c, p);
      LinkedAttach(parent, kids, p, j, c);
      rank := Raised(rank, Chain(p), rank[c] + 1);
      top := top + old(rank[c]) + 1;
      kids := kids[p := InsertAt(kids[p], j, c)];
      parent := parent[c := p];
    }

    /** `p.append(c)`: lxml refuses with ValueError (`false` here) when
        `c` is `p` or an ancestor of `p`; otherwise `c` leaves its old
        parent and becomes the last child of `p`. */
    method Append(p: nat, c: nat) returns (ok: bool)
      requires Valid() && p < |tag| && c < |tag|
      modifies this`parent, this`kids, this`rank, this`top
      ensures Valid() && (ok <==> c !in old(Chain(p)))
      ensures !ok ==> unchanged(this)
      ensures ok ==> parent == old(parent)[c := p]
      ensures ok ==> Chain(c) == {c} + old(Chain(p))
      ensures ok ==> kids[p] == Without(old(kids[p]), c) + [c]
      ensures ok ==> forall n :: 0 <= n < |tag| && n != p ==>
        kids[n] == if n == old(parent[c]) then Without(old(kids[n]), c) else old(kids[n])
    {
      var anc := IsAncestorOrSelf(c, p);
      if anc { return false; }
      AncestorsDetach(parent, rank, top, p, c);
      Detach(c);
      Attach(p, |kids[p]|, c);
      ok := true;
    }

    /** `p.insert(i, c)`: with no child at `i` this is `append`; otherwise
        `c` leaves its old parent and is put immediately before the element
        that was the `i`-th child of `p`. */
    method Insert(p: nat, i: nat, c: nat) returns (ok: bool)
      requires Valid() && p < |tag| && c < |tag|
      modifies this`parent, this`kids, this`rank, this`top
      ensures Valid() && (ok <==> c !in old(Chain(p)))
      ensures !ok ==> parent == old(parent) && kids == old(kids)
      ensures ok ==> parent == old(parent)[c := p]
      ensures ok && i < old(|kids[p]|) && old(kids[p][i]) != c ==>
        c in kids[p] && IndexOf(kids[p], c) + 1 < |kids[p]| && kids[p][IndexOf(kids[p], c) + 1] == old(kids[p][i])
      ensures ok && i < old(|kids[p]|) && old(kids[p][i]) != c ==>
        kids[p] == InsertAt(Without(old(kids[p]), c), IndexOf(Without(old(kids[p]), c), old(kids[p][i])), c)
      ensures ok && i < old(|kids[p]|) && old(kids[p][i]) == c ==> kids == old(kids)
      ensures ok ==> forall x :: x in kids[p] <==> x in old(kids[p]) || x == c
      ensures ok ==> forall n :: 0 <= n < |tag| && n != p ==>
        kids[n] == if n == old(parent[c]) then Without(old(kids[n]), c) else old(kids[n])
    {
      if i >= |kids[p]| {
        ok := Append(p, c);
        return;
      }
      var anc := IsAncestorOrSelf(c, p);
      if anc { return false; }
      var anchor := kids[p][i];
      if anchor != c {
        ghost var kp := Without(kids[p], c);
        MoveBefore(p, anchor, c);
        InsertAtIndex(kp, IndexOf(kp, anchor), c);
      } else {
        LinkedKid(parent, kids, p, c);
      }
      ok := true;
    }

    /** Puts `c` immediately before `anchor`, a child of `p`, taking it
        out of its old parent first. An element already standing at that
        place is the other case of `insert`: the tree stays as it is. */
    method MoveBefore(p: nat, anchor: nat, c: nat)
      requires Valid() && p < |tag| && c < |tag| && c !in Chain(p)
      requires anchor in kids[p] && anchor != c
      modifies this`parent, this`kids, this`rank, this`top
      ensures Valid() && parent == old(parent)[c := p]
      ensures kids[p] == InsertAt(Without(old(kids[p]), c), IndexOf(Without(old(kids[p]), c), anchor), c)
      ensures forall n :: 0 <= n < |tag| && n != p ==>
        kids[n] == if n == old(parent[c]) then Without(old(kids[n]), c) else old(kids[n])
    {
      if parent[c] != p && c in kids[p] {
        LinkedKid(parent, kids, p, c);
      }
      ghost var kp := Without(kids[p], c);
      ghost var k0, q, p0 := kids, parent[c], parent;
      AncestorsDetach(parent, rank, top, p, c);
      Detach(c);
      assert kids[p] == kp;
      ghost var k1 := kids;
      var j := IndexOf(kids[p], anchor);
      Attach(p, j, c);
      assert kids[p] == InsertAt(kp, j, c);
      MovedKids(k0, k1, kids, p, q, c);
      UpdateTwice(p0, c, -1, p);
    }

    /** `p.remove(c)`: lxml raises ValueError (`false` here) when `c` is
        not a child of `p`; otherwise `c` and its tail leave `p`. */
    method Remove(p: nat, c: nat) returns (ok: bool)
      requires Valid() && p < |tag| && c < |tag|
      modifies this`parent, this`kids
      ensures Valid() && (ok <==> old(parent[c]) == p)
      ensures !ok ==> parent == old(parent) && kids == old(kids)
      ensures ok ==> parent == old(parent)[c := -1] && kids == old(kids)[p := Without(old(kids[p]), c)]
    {
      if parent[c] != p { return false; }
      Detach(c);
      ok := true;
    }

    /** The element and all its descendants in document order: what
        `element.iter()` visits. */
    function Preorder(n: nat): (r: seq<nat>)
      reads this
      requires Valid() && n < |tag|
      ensures r != [] && r[0] == n
      ensures forall x :: x in r ==> x < |tag|
      ensures forall i :: 0 <= i < |r| ==> r[i] < |tag|
      decreases rank[n], 1
    {
      KidsBelow(n);
      var r := [n] + Forest(kids[n], rank[n]);
      assert forall i :: 0 <= i < |r| ==> r[i] in r;
      r
    }

    /** The children of `n` are elements that rank below it. */
    lemma KidsBelow(n: nat)
      requires Valid() && n < |tag|
      ensures forall i :: 0 <= i < |kids[n]| ==> kids[n][i] < |tag| && rank[kids[n][i]] < rank[n]
    {
      forall i | 0 <= i < |kids[n]| ensures kids[n][i] < |tag| && rank[kids[n][i]] < rank[n] {
        var x := kids[n][i];
        LinkedKid(parent, kids, n, x);
        assert rank[x] < rank[parent[x]];
      }
    }

    function Forest(ns: seq<nat>, ghost b: nat): (r: seq<nat>)
      reads this
      requires Valid() && forall i :: 0 <= i < |ns| ==> ns[i] < |tag| && rank[ns[i]] < b
      ensures forall x :: x in r ==> x < |tag|
      decreases b, 0, |ns|
    {
      if ns == [] then [] else Preorder(ns[0]) + Forest(ns[1..], b)
    }
  }

  /** `p.append(c)` for an element `c` without a parent that is not above
      `p`: `c` becomes the last child of `p`. */
  method AppendOrphan(d: Doc, p: nat, c: nat)
    requires d.Valid() && p < |d.tag| && c < |d.tag| && d.parent[c] == -1 && c !in d.Chain(p)
    modifies d`parent, d`kids, d`rank, d`top
    ensures d.Valid() && d.kids == old(d.kids)[p := old(d.kids[p]) + [c]]
    ensures d.parent == old(d.parent)[c := p]
  {
    ghost var k0 := d.kids;
    if c in d.kids[p] {
      LinkedKid(d.parent, d.kids, p, c);
    }
    var ok := d.Append(p, c);
    assert Without(k0[p], c) == k0[p];
    assert |d.kids| == |k0|;
    forall n | 0 <= n < |k0| ensures d.kids[n] == k0[p := k0[p] + [c]][n] {
    }
  }

  /** Two elements above the same element: one is above the other. */
  lemma {:induction false} AncestorsLinear(parent: seq<int>, rank: seq<nat>, top: nat, x: nat, a: nat, b: nat)
    requires Ranked(parent, rank, top) && x < |parent|
    requires a in Ancestors(parent, rank, top, x) && b in Ancestors(parent, rank, top, x)
    ensures a < |parent| && b < |parent|
    ensures a in Ancestors(parent, rank, top, b) || b in Ancestors(parent, rank, top, a)
    decreases top - rank[x]
  {
    if a != x && b != x {
      AncestorsLinear(parent, rank, top, parent[x], a, b);
    }
  }

  /** A parentless element above `y` is above everything above `y`. */
  lemma TopAbove(parent: seq<int>, rank: seq<nat>, top: nat, y: nat, a: nat, s: nat)
    requires Ranked(parent, rank, top) && y < |parent|
    requires a in Ancestors(parent, rank, top, y) && s in Ancestors(parent, rank, top, y) && parent[s] < 0
    ensures a < |parent| && s in Ancestors(parent, rank, top, a)
  {
    AncestorsLinear(parent, rank, top, y, a, s);
  }

  /** Two parentless elements are never above one element together. */
  lemma RootsApart(parent: seq<int>, rank: seq<nat>, top: nat, y: nat, s: nat, x: nat)
    requires Ranked(parent, rank, top) && y < |parent| && x < |parent|
    requires s in Ancestors(parent, rank, top, y) && parent[s] < 0 && parent[x] < 0 && x != s
    ensures x !in Ancestors(parent, rank, top, y)
  {
    if x in Ancestors(parent, rank, top, y) {
      TopAbove(parent, rank, top, y, x, s);
    }
  }

  /** An element strictly above `y` has a child. */
  lemma {:induction false} AboveHasKid(parent: seq<int>, rank: seq<nat>, top: nat, kids: seq<seq<nat>>, y: nat, a: nat)
    requires Ranked(parent, rank, top) && Linked(parent, kids) && y < |parent|
    requires a in Ancestors(parent, rank, top, y) && a != y
    ensures a < |kids| && |kids[a]| > 0
    decreases top - rank[y]
  {
    var q := parent[y];
    assert y in kids[q];
    if a != q {
      AboveHasKid(parent, rank, top, kids, q, a);
    }
  }

  /** The ancestors of an element read off parent links that agree with
      the old ones on those ancestors are the old ancestors. */
  lemma {:induction false} AncestorsKept(p1: seq<int>, r1: seq<nat>, t1: nat, p2: seq<int>, r2: seq<nat>, t2: nat, y: nat)
    requires Ranked(p1, r1, t1) && Ranked(p2, r2, t2) && |p1| <= |p2| && y < |p1|
    requires forall z :: z in Ancestors(p1, r1, t1, y) ==> p2[z] == p1[z]
    ensures Ancestors(p2, r2, t2, y) == Ancestors(p1, r1, t1, y)
    decreases t1 - r1[y]
  {
    if p1[y] >= 0 {
      AncestorsKept(p1, r1, t1, p2, r2, t2, p1[y]);
    }
  }

  /** Distinct children of one parent have no element below them both. */
  lemma SiblingsApart(d: Doc, a: nat, b: nat, x: nat)
    requires d.Valid() && x < |d.tag| && a < |d.tag| && b < |d.tag|
    requires a != b && d.parent[a] == d.parent[b] && a in d.Chain(x)
    ensures b !in d.Chain(x)
  {
    if b in d.Chain(x) {
      AncestorsLinear(d.parent, d.rank, d.top, x, a, b);
      if b in d.Chain(a) {
        AboveSibling(d, a, b);
      } else {
        AboveSibling(d, b, a);
      }
    }
  }

  /** An element is not above a sibling. */
  lemma AboveSibling(d: Doc, a: nat, b: nat)
    requires d.Valid() && a < |d.tag| && b < |d.tag|
    requires a != b && d.parent[a] == d.parent[b]
    ensures b !in d.Chain(a)
  {
    if b in d.Chain(a) {
      var q := d.parent[a];
      assert q >= 0;
      assert b in d.Chain(q);
      AncestorsRank(d.parent, d.rank, d.top, q, b);
    }
  }

  /** Every element `element.iter()` visits from `n` has `n` above it. */
  lemma {:induction false} PreorderBelow(d: Doc, n: nat, x: nat)
    requires d.Valid() && n < |d.tag| && x in d.Preorder(n)
    ensures n in d.Chain(x)
    decreases d.rank[n], 1
  {
    if x != n {
      d.KidsBelow(n);
      var ks := d.kids[n];
      assert x in d.Forest(ks, d.rank[n]);
      var i := ForestBelow(d, ks, d.rank[n], x);
      LinkedKid(d.parent, d.kids, n, ks[i]);
      AncestorsClosed(d.parent, d.rank, d.top, x, ks[i]);
    }
  }

  /** An element met in the walk over `ns` has one of `ns` above it. */
  lemma {:induction false} ForestBelow(d: Doc, ns: seq<nat>, b: nat, x: nat) returns (i: nat)
    requires d.Valid() && forall j :: 0 <= j < |ns| ==> ns[j] < |d.tag| && d.rank[ns[j]] < b
    requires x in d.Forest(ns, b)
    ensures i < |ns| && x < |d.tag| && ns[i] in d.Chain(x)
    decreases b, 0, |ns|
  {
    if x in d.Preorder(ns[0]) {
      PreorderBelow(d, ns[0], x);
      i := 0;
    } else {
      var k := ForestBelow(d, ns[1..], b, x);
      i := k + 1;
    }
  }

  /** `element.iter()` meets no element twice. */
  lemma {:induction false} PreorderDistinct(d: Doc, n: nat)
    requires d.Valid() && n < |d.tag|
    ensures Distinct(d.Preorder(n))
    decreases d.rank[n], 1
  {
    d.KidsBelow(n);
    var ks := d.kids[n];
    var f := d.Forest(ks, d.rank[n]);
    forall i | 0 <= i < |ks| ensures d.parent[ks[i]] == n {
      LinkedKid(d.parent, d.kids, n, ks[i]);
    }
    ForestDistinct(d, ks, d.rank[n], n);
    if n in f {
      var i := ForestBelow(d, ks, d.rank[n], n);
      AncestorsRank(d.parent, d.rank, d.top, n, ks[i]);
    }
    DistinctConcat([n], f);
  }

  /** The walk over distinct siblings meets no element twice. */
  lemma {:induction false} ForestDistinct(d: Doc, ns: seq<nat>, b: nat, p: int)
    requires d.Valid() && forall j :: 0 <= j < |ns| ==> ns[j] < |d.tag| && d.rank[ns[j]] < b && d.parent[ns[j]] == p
    requires Distinct(ns)
    ensures Distinct(d.Forest(ns, b))
    decreases b, 0, |ns|
  {
    if ns != [] {
      var t := ns[1..];
      assert Distinct(t) by {
        forall i, j | 0 <= i < j < |t| ensures t[i] != t[j] {
          assert t[i] == ns[i + 1] && t[j] == ns[j + 1];
        }
      }
      PreorderDistinct(d, ns[0]);
      ForestDistinct(d, t, b, p);
      var a := d.Preorder(ns[0]);
      var f := d.Forest(t, b);
      forall x | x in a ensures x !in f {
        PreorderBelow(d, ns[0], x);
        if x in f {
          var i := ForestBelow(d, t, b, x);
          assert t[i] == ns[i + 1];
          SiblingsApart(d, ns[0], t[i], x);
        }
      }
      DistinctConcat(a, f);
    }
  }

  lemma DistinctConcat(a: seq<nat>, b: seq<nat>)
    requires Distinct(a) && Distinct(b) && forall x :: x in a ==> x !in b
    ensures Distinct(a + b)
  {
    var s := a + b;
    forall i, j | 0 <= i < j < |s| ensures s[i] != s[j] {
      if i < |a| && j >= |a| {
        assert s[i] in a && s[j] == b[j - |a|];
      } else if i >= |a| {
        assert s[i] == b[i - |a|] && s[j] == b[j - |a|];
      }
    }
  }
}
