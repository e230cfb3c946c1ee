/** `TextMatchWrapper` of `actsetl/akn/utils.py`: every listed string found
    in the text of an element, or in the text or tail of an element below
    it, is cut out of that text and put in an element of its own with the
    given tag. The walk over the elements is lxml's live `iter()`, which
    works out the element it visits next from the tree as it stands when
    it moves on. */
module TextMatch {
  import opened Wrappers
  import opened Text
  import opened DocTree

  /** The element whose text is searched, the tag of the wrapping elements
      and the strings to wrap. */
  datatype Wrapper = Wrapper(p: nat, tag: string, matches: seq<string>)

  /** `TextMatchWrapper(parent, tag, matches)`: no list of matches is an
      empty one. */
  function NewWrapper(p: nat, tag: string, matches: Option<seq<string>>): (w: Wrapper)
    ensures w.p == p && w.tag == tag
    ensures matches.Some? ==> w.matches == matches.value
    ensures matches.None? ==> w.matches == []
  {
    Wrapper(p, tag, if matches.Some? then matches.value else [])
  }

  /** Python's `t and m in t` for a text that may be missing: the text is
      there, is not empty and holds `m`. */
  predicate Holds(t: Option<string>, m: string) {
    t.Some? && t.value != "" && Contains(t.value, m)
  }

  /** `s` cut around the first occurrence of `m`: what comes before it and
      what comes after it. */
  function SplitFirst(s: string, m: string): (r: (string, string))
    requires Contains(s, m)
    ensures s == r.0 + m + r.1
    ensures forall j :: 0 <= j < |r.0| ==> !At(s, j, m)
  {
    var k := Find(s, m).value;
    assert s == s[..k] + s[k..k + |m|] + s[k + |m|..];
    (s[..k], s[k + |m|..])
  }

  /** No other cut of `s` around `m` has `m` at its first occurrence. */
  lemma SplitFirstUnique(s: string, m: string, b: string, a: string)
    requires s == b + m + a && forall j :: 0 <= j < |b| ==> !At(s, j, m)
    ensures Contains(s, m) && SplitFirst(s, m) == (b, a)
  {
    assert s[|b|..|b| + |m|] == m;
    assert At(s, |b|, m);
    var r := SplitFirst(s, m);
    assert s[|r.0|..|r.0| + |m|] == m;
    assert At(s, |r.0|, m);
    assert |r.0| == |b|;
    assert r.0 == s[..|b|] == b;
    assert r.1 == s[|b| + |m|..] == a;
  }

  /** What comes before the first occurrence of `m` no longer holds `m`. */
  lemma CutLacks(s: string, m: string)
    requires Contains(s, m)
    ensures !Holds(Some(SplitFirst(s, m).0), m)
  {
    var b := SplitFirst(s, m).0;
    if m != [] && Contains(b, m) {
      var j := Find(b, m).value;
      assert b[j..j + |m|] == s[j..j + |m|];
      assert At(s, j, m);
    }
  }

  /** A text or tail left as it was, or cut once at the first occurrence
      of `m`. */
  predicate CutOrKept(before: Option<string>, after: Option<string>, m: string) {
    after == before || (Holds(before, m) && after == Some(SplitFirst(before.value, m).0))
  }

  /** `_wrap_text(elem, match, tail, child)`: the text (or, with `tail`,
      the tail) of `elem` keeps what comes before the first occurrence of
      `m`; a new element with the wrapping tag holds `m` as its text and
      what came after it as its tail, and is appended to `elem` or, with
      `child`, to the parent of `elem`. An element without a parent has no
      `append`: AttributeError, once the text has been cut and the new
      element made. */
  method WrapText(d: Doc, wtag: string, elem: nat, m: string, tail: bool, child: bool) returns (r: Result<nat>)
    requires d.Valid() && elem < |d.tag|
    requires Holds(if tail then d.tail[elem] else d.text[elem], m)
    modifies d
    ensures d.Valid() && |d.tag| == old(|d.tag|) + 1
    ensures d.tag == old(d.tag) + [wtag] && d.attrs == old(d.attrs) + [map[]]
    ensures var parts := SplitFirst(old(if tail then d.tail[elem] else d.text[elem]).value, m);
      d.text == old(d.text)[elem := if tail then old(d.text[elem]) else Some(parts.0)] + [Some(m)]
      && d.tail == old(d.tail)[elem := if tail then Some(parts.0) else old(d.tail[elem])] + [Some(parts.1)]
    ensures r.Failure? <==> child && old(d.parent[elem]) < 0
    ensures r.Failure? ==>
      r.error == "AttributeError" && d.parent == old(d.parent) + [-1] && d.kids == old(d.kids) + [[]]
    ensures r.Success? ==> r.value == old(|d.tag|)
    ensures r.Success? ==>
      var h := if child then old(d.parent[elem]) else elem;
      0 <= h < old(|d.tag|) && d.parent == old(d.parent) + [h]
      && d.kids == (old(d.kids) + [[]])[h := old(d.kids[h]) + [r.value]]
  {
    var parts := Cut(d, elem, m, tail);
    var n := NewHolder(d, wtag, m, parts.1);
    var host := if child then d.parent[elem] else elem;
    if host < 0 {
      return Failure("AttributeError");
    }
    d.ChildlessAbove(host, n);
    AppendOrphan(d, host, n);
    return Success(n);
  }

  /** The text (or tail) of `elem` cut to what comes before the first
      occurrence of `m`; the result is the cut. */
  method Cut(d: Doc, elem: nat, m: string, tail: bool) returns (parts: (string, string))
    requires d.Valid() && elem < |d.tag|
    requires Holds(if tail then d.tail[elem] else d.text[elem], m)
    modifies d`text, d`tail
    ensures d.Valid() && parts == SplitFirst(old(if tail then d.tail[elem] else d.text[elem]).value, m)
    ensures d.text == old(d.text)[elem := if tail then old(d.text[elem]) else Some(parts.0)]
    ensures d.tail == old(d.tail)[elem := if tail then Some(parts.0) else old(d.tail[elem])]
  {
    var s := if tail then d.tail[elem].value else d.text[elem].value;
    parts := SplitFirst(s, m);
    if tail {
      d.SetTail(elem, Some(parts.0));
    } else {
      d.SetText(elem, Some(parts.0));
    }
  }

  /** `E(tag, m)` with `after` as its tail: a new element without parent
      or children. */
  method NewHolder(d: Doc, wtag: string, m: string, after: string) returns (n: nat)
    requires d.Valid()
    modifies d
    ensures d.Valid() && n == old(|d.tag|)
    ensures d.tag == old(d.tag) + [wtag] && d.attrs == old(d.attrs) + [map[]]
    ensures d.text == old(d.text) + [Some(m)] && d.tail == old(d.tail) + [Some(after)]
    ensures d.parent == old(d.parent) + [-1] && d.kids == old(d.kids) + [[]]
  {
    n := d.NewElement(wtag);
    d.SetText(n, Some(m));
    d.SetTail(n, Some(after));
  }

  /** Where lxml's walk goes from `x` when `x` has no children left to
      visit: the next sibling of `x`, or else of its parent, and so on up
      to `root`, where the walk ends. */
  function Climb(d: Doc, x: nat, root: nat): (r: Option<nat>)
    reads d
    requires d.Valid() && x < |d.tag|
    ensures r.Some? ==> r.value < |d.tag| && d.parent[r.value] >= 0
    decreases d.top - d.rank[x]
  {
    if x == root then None
    else match d.Next(x)
      case Some(y) =>
        LinkedKid(d.parent, d.kids, d.parent[x], y);
        Some(y)
      case None =>
        if d.parent[x] < 0 then None else Climb(d, d.parent[x], root)
  }

  /** The element lxml's `root.iter()` visits after `x`: its first child,
      or else where `Climb` leads. Every element it reaches has a parent,
      so only `root` can lack one. */
  function Following(d: Doc, x: nat, root: nat): (r: Option<nat>)
    reads d
    requires d.Valid() && x < |d.tag|
    ensures r.Some? ==> r.value < |d.tag| && d.parent[r.value] >= 0
  {
    if d.kids[x] != [] then
      LinkedKid(d.parent, d.kids, x, d.kids[x][0]);
      Some(d.kids[x][0])
    else Climb(d, x, root)
  }

  /** The subtrees of the children of `n` from the `k`-th on, in
      document order. */
  ghost function Rest(d: Doc, n: nat, k: nat): (r: seq<nat>)
    reads d
    requires d.Valid() && n < |d.tag| && k <= |d.kids[n]|
    ensures forall i :: 0 <= i < |r| ==> r[i] < |d.tag|
  {
    d.KidsBelow(n);
    var r := d.Forest(d.kids[n][k..], d.rank[n]);
    assert forall i :: 0 <= i < |r| ==> r[i] in r;
    r
  }

  /** On a tree that does not change under it, the walk from `root` goes
      through `root` and its descendants in document order, as
      `Preorder(root)` lists them, and ends after the last of them. */
  lemma WalkIsPreorder(d: Doc, root: nat, i: nat)
    requires d.Valid() && root < |d.tag| && i < |d.Preorder(root)|
    ensures d.Preorder(root)[i] < |d.tag|
    ensures Following(d, d.Preorder(root)[i], root) ==
      if i + 1 < |d.Preorder(root)| then Some(d.Preorder(root)[i + 1]) else None
  {
    assert d.Preorder(root)[i] in d.Preorder(root);
    WalkSubtree(d, root, root, i);
  }

  /** Within the subtree of an element `n` at or below `root`, the walk
      follows `Preorder(n)`, and after its last element it goes where
      `Climb` leads from `n`. */
  lemma {:induction false} WalkSubtree(d: Doc, root: nat, n: nat, j: nat)
    requires d.Valid() && root < |d.tag| && n < |d.tag|
    requires n == root || d.rank[n] < d.rank[root]
    requires j < |d.Preorder(n)|
    ensures d.Preorder(n)[j] < |d.tag|
    ensures Following(d, d.Preorder(n)[j], root) ==
      if j + 1 < |d.Preorder(n)| then Some(d.Preorder(n)[j + 1]) else Climb(d, n, root)
    decreases d.rank[n], 1
  {
    assert d.Preorder(n) == [n] + Rest(d, n, 0);
    assert d.Preorder(n)[j] in d.Preorder(n);
    if j > 0 {
      WalkForest(d, root, n, 0, j - 1);
    } else if d.kids[n] != [] {
      assert Rest(d, n, 0)[0] == d.kids[n][0];
    }
  }

  lemma {:induction false} WalkForest(d: Doc, root: nat, n: nat, k: nat, j: nat)
    requires d.Valid() && root < |d.tag| && n < |d.tag|
    requires n == root || d.rank[n] < d.rank[root]
    requires k <= |d.kids[n]| && j < |Rest(d, n, k)|
    ensures Rest(d, n, k)[j] < |d.tag|
    ensures Following(d, Rest(d, n, k)[j], root) ==
      if j + 1 < |Rest(d, n, k)| then Some(Rest(d, n, k)[j + 1]) else Climb(d, n, root)
    decreases d.rank[n], 0, |d.kids[n]| - k
  {
    d.KidsBelow(n);
    var ks := d.kids[n];
    var c := ks[k];
    assert ks[k..][0] == c && ks[k..][1..] == ks[k + 1..];
    var pc := d.Preorder(c);
    assert Rest(d, n, k) == pc + Rest(d, n, k + 1);
    if j < |pc| {
      WalkSubtree(d, root, c, j);
      if j + 1 == |pc| {
        LinkedKid(d.parent, d.kids, n, c);
        IndexOfDistinct(ks, k);
        if k + 1 < |ks| {
          assert ks[k + 1..][0] == ks[k + 1];
          assert Rest(d, n, k + 1)[0] == ks[k + 1];
        }
      }
    } else {
      WalkForest(d, root, n, k + 1, j - |pc|);
    }
  }

  /** How a walk of `_iter_children` ended: at an element with the
      wrapping tag whose text holds the match, at the end of the elements,
      or, in the model only, when its fuel ran out. */
  datatype Scan = Stopped(at: nat) | Exhausted | OutOfFuel

  /** The new elements made for `w`: they carry its tag and hold one of
      its matches as their text. */
  ghost predicate Wrapped(d: Doc, w: Wrapper, n0: nat)
    reads d
    requires d.Valid()
  {
    forall x :: n0 <= x < |d.tag| ==> d.tag[x] == w.tag && d.text[x].Some? && d.text[x].value in w.matches
  }

  /** `_iter_children(match)`: walks `w.p` and the elements below it in
      document order. It stops at an element with the wrapping tag whose
      text holds `m`; otherwise an occurrence of `m` in the text and then
      in the tail of the element visited is wrapped next to it, under its
      parent. The walk visits at most `fuel` elements. */
  method IterChildren(d: Doc, w: Wrapper, m: string, fuel: nat) returns (r: Result<Scan>)
    requires d.Valid() && w.p < |d.tag|
    modifies d
    ensures d.Valid() && old(|d.tag|) <= |d.tag|
    ensures forall x :: 0 <= x < old(|d.tag|) ==> d.tag[x] == old(d.tag[x]) && d.attrs[x] == old(d.attrs[x])
    ensures forall x :: 0 <= x < old(|d.tag|) ==> d.parent[x] == old(d.parent[x])
    ensures forall x :: 0 <= x < old(|d.tag|) && old(d.tag[x]) == w.tag ==> d.text[x] == old(d.text[x])
    ensures forall x :: old(|d.tag|) <= x < |d.tag| ==> d.tag[x] == w.tag && d.text[x] == Some(m)
    ensures r.Failure? ==> r.error == "AttributeError" && old(d.parent[w.p]) < 0
    ensures r.Success? && r.value.Stopped? ==>
      r.value.at < |d.tag| && d.tag[r.value.at] == w.tag && Holds(d.text[r.value.at], m)
    ensures forall x :: 0 <= x < old(|d.tag|) ==>
      CutOrKept(old(d.text[x]), d.text[x], m) && CutOrKept(old(d.tail[x]), d.tail[x], m)
    ensures r.Success? ==> forall x :: old(|d.tag|) <= x < |d.tag| ==> 0 <= d.parent[x] < old(|d.tag|)
  {
    ghost var n0 := |d.tag|;
    ghost var t0, a0, x0, l0, p0 := d.tag, d.attrs, d.text, d.tail, d.parent;
    var cur: Option<nat> := Some(w.p);
    var f := fuel;
    while cur.Some?
      invariant d.Valid() && Walked(d, w.tag, m, t0, a0, x0, l0, p0) && Hung(d, |t0|)
      invariant cur.Some? ==> cur.value < |d.tag| && (cur.value == w.p || d.parent[cur.value] >= 0)
      decreases f
    {
      if f == 0 {
        return Success(OutOfFuel);
      }
      f := f - 1;
      var c := cur.value;
      // lxml settles the next element before the loop body runs
      cur := Following(d, c, w.p);
      if d.tag[c] == w.tag && Holds(d.text[c], m) {
        return Success(Stopped(c));
      }
      var v := WalkVisit(d, w.tag, c, m, t0, a0, x0, l0, p0);
      if v.Failure? {
        return Failure(v.error);
      }
    }
    return Success(Exhausted);
  }

  /** What the walk of `_iter_children` keeps, against the tree it started
      from (tags, attributes, texts, tails and parents of the elements
      there were): old elements keep their tag, attributes and parent, a
      text with the wrapping tag is never cut, every other text and tail is
      cut at most once, and every new element is a wrapper holding `m`. */
  ghost predicate Walked(d: Doc, wtag: string, m: string, t0: seq<string>, a0: seq<map<string, string>>,
                         x0: seq<Option<string>>, l0: seq<Option<string>>, p0: seq<int>)
    reads d
    requires d.Valid()
  {
    WalkedFrom(d.tag, d.attrs, d.text, d.tail, d.parent, wtag, m, t0, a0, x0, l0, p0)
  }

  /** `Walked` on the fields of the tree: `tag`, `attrs`, `text`, `tail`
      and `parent`. */
  ghost predicate WalkedFrom(tag: seq<string>, attrs: seq<map<string, string>>, text: seq<Option<string>>,
                             tail: seq<Option<string>>, parent: seq<int>, wtag: string, m: string,
                             t0: seq<string>, a0: seq<map<string, string>>,
                             x0: seq<Option<string>>, l0: seq<Option<string>>, p0: seq<int>)
    requires |attrs| == |tag| && |text| == |tag| && |tail| == |tag| && |parent| == |tag|
  {
    var n0 := |t0|;
    |a0| == n0 && |x0| == n0 && |l0| == n0 && |p0| == n0 && n0 <= |tag|
    && (forall x :: 0 <= x < n0 ==> p0[x] < n0)
    && (forall x :: 0 <= x < n0 ==> tag[x] == t0[x] && attrs[x] == a0[x] && parent[x] == p0[x])
    && (forall x :: 0 <= x < n0 && t0[x] == wtag ==> text[x] == x0[x])
    && (forall x :: 0 <= x < n0 ==> CutOrKept(x0[x], text[x], m) && CutOrKept(l0[x], tail[x], m))
    && (forall x :: n0 <= x < |tag| ==> tag[x] == wtag && text[x] == Some(m))
  }

  /** A visit at `c` that changes the tree as `Visit` promises keeps
      `WalkedFrom`: the tree before is `tag1` … `parent1`, after `tag2` …
      `parent2`. */
  lemma WalkedKept(tag1: seq<string>, attrs1: seq<map<string, string>>, text1: seq<Option<string>>,
                   tail1: seq<Option<string>>, parent1: seq<int>,
                   tag2: seq<string>, attrs2: seq<map<string, string>>, text2: seq<Option<string>>,
                   tail2: seq<Option<string>>, parent2: seq<int>, c: nat, wtag: string, m: string,
                   t0: seq<string>, a0: seq<map<string, string>>,
                   x0: seq<Option<string>>, l0: seq<Option<string>>, p0: seq<int>)
    requires |attrs1| == |tag1| && |text1| == |tag1| && |tail1| == |tag1| && |parent1| == |tag1|
    requires |attrs2| == |tag2| && |text2| == |tag2| && |tail2| == |tag2| && |parent2| == |tag2|
    requires WalkedFrom(tag1, attrs1, text1, tail1, parent1, wtag, m, t0, a0, x0, l0, p0)
    requires c < |tag1| <= |tag2|
    requires forall x :: 0 <= x < |tag1| ==> tag2[x] == tag1[x] && attrs2[x] == attrs1[x]
    requires forall x :: 0 <= x < |tag1| ==> parent2[x] == parent1[x]
    requires forall x :: 0 <= x < |tag1| && tag1[x] == wtag ==> text2[x] == text1[x]
    requires forall x :: |tag1| <= x < |tag2| ==> tag2[x] == wtag && text2[x] == Some(m)
    requires forall x :: 0 <= x < |tag1| && x != c ==> text2[x] == text1[x] && tail2[x] == tail1[x]
    requires CutOrKept(text1[c], text2[c], m) && CutOrKept(tail1[c], tail2[c], m)
    ensures WalkedFrom(tag2, attrs2, text2, tail2, parent2, wtag, m, t0, a0, x0, l0, p0)
  {
    var n0 := |t0|;
    forall x | 0 <= x < n0
      ensures CutOrKept(x0[x], text2[x], m) && CutOrKept(l0[x], tail2[x], m)
    {
      if x == c {
        KeepsCut(x0[c], text1[c], text2[c], m);
        KeepsCut(l0[c], tail1[c], tail2[c], m);
      }
    }
    forall x | n0 <= x < |tag2| ensures tag2[x] == wtag && text2[x] == Some(m) {
      if x < |tag1| {
        assert tag1[x] == wtag && text1[x] == Some(m);
      }
    }
  }

  /** Every element from `n0` on hangs under one of the first `n0`. */
  ghost predicate Hung(d: Doc, n0: nat)
    reads d
    requires d.Valid()
  {
    forall x :: n0 <= x < |d.tag| ==> 0 <= d.parent[x] < n0
  }

  /** One visit of the walk keeps `Walked`, and `Hung` when it succeeds. */
  method WalkVisit(d: Doc, wtag: string, c: nat, m: string, ghost t0: seq<string>, ghost a0: seq<map<string, string>>,
                   ghost x0: seq<Option<string>>, ghost l0: seq<Option<string>>, ghost p0: seq<int>)
    returns (v: Result<()>)
    requires d.Valid() && c < |d.tag| && !(d.tag[c] == wtag && Holds(d.text[c], m))
    requires Walked(d, wtag, m, t0, a0, x0, l0, p0) && Hung(d, |t0|)
    modifies d
    ensures d.Valid() && Walked(d, wtag, m, t0, a0, x0, l0, p0) && old(|d.tag|) <= |d.tag|
    ensures forall x :: 0 <= x < old(|d.tag|) ==> d.parent[x] == old(d.parent[x])
    ensures v.Success? ==> Hung(d, |t0|)
    ensures v.Failure? ==> v.error == "AttributeError" && old(d.parent[c]) < 0
  {
    ghost var tag1, attrs1, text1, tail1, parent1 := d.tag, d.attrs, d.text, d.tail, d.parent;
    v := Visit(d, wtag, c, m);
    WalkedKept(tag1, attrs1, text1, tail1, parent1, d.tag, d.attrs, d.text, d.tail, d.parent,
               c, wtag, m, t0, a0, x0, l0, p0);
  }

  /** A second visit leaves a cut text as it is: the cut no longer holds
      the match. */
  lemma KeepsCut(a: Option<string>, b: Option<string>, c: Option<string>, m: string)
    requires CutOrKept(a, b, m) && CutOrKept(b, c, m)
    ensures CutOrKept(a, c, m)
  {
    if b != a && c != b {
      CutLacks(a.value, m);
    }
  }

  /** The fields of a tree at one moment. */
  datatype Tree = Tree(tag: seq<string>, attrs: seq<map<string, string>>, text: seq<Option<string>>,
                       tail: seq<Option<string>>, parent: seq<int>, kids: seq<seq<nat>>)

  ghost function TreeOf(d: Doc): Tree
    reads d
  {
    Tree(d.tag, d.attrs, d.text, d.tail, d.parent, d.kids)
  }

  /** Every field has one entry per element. */
  predicate Sane(t: Tree) {
    |t.attrs| == |t.tag| && |t.text| == |t.tag| && |t.tail| == |t.tag|
    && |t.parent| == |t.tag| && |t.kids| == |t.tag|
  }

  /** `WrapText` with `child` set, from `t0` to `t1`: the text (or tail)
      of `c` holds `m` and is cut, a wrapper holding `m` is appended, and
      it becomes the last child of the parent of `c` when there is one. */
  ghost predicate WrapStep(t0: Tree, t1: Tree, wtag: string, c: nat, m: string, tail: bool)
    requires Sane(t0) && c < |t0.tag|
  {
    var part, n0, h := if tail then t0.tail[c] else t0.text[c], |t0.tag|, t0.parent[c];
    Holds(part, m)
    && var parts := SplitFirst(part.value, m);
    t1.tag == t0.tag + [wtag] && t1.attrs == t0.attrs + [map[]]
    && t1.text == t0.text[c := if tail then t0.text[c] else Some(parts.0)] + [Some(m)]
    && t1.tail == t0.tail[c := if tail then Some(parts.0) else t0.tail[c]] + [Some(parts.1)]
    && (h >= 0 ==> h < n0 && t1.parent == t0.parent + [h] && t1.kids == (t0.kids + [[]])[h := t0.kids[h] + [n0]])
    && (h < 0 ==> t1.parent == t0.parent + [-1] && t1.kids == t0.kids + [[]])
  }

  /** What a visit at `c` does, from `t0` to `t`, `ok` telling whether it
      succeeded: old elements keep their tags, attributes and parents, and
      all their texts and tails but those of `c`, which are each cut at
      most once; every new element is a wrapper holding `m`. On success
      the text of `c`, then its tail, is cut exactly when it held `m`, the
      wrappers are numbered in that order, carry the rest of the cut text
      as their tails, and are appended to the children of the parent of
      `c`; no other element's children change. */
  ghost predicate VisitedFrom(t0: Tree, t: Tree, wtag: string, c: nat, m: string, ok: bool)
    requires Sane(t0) && Sane(t) && c < |t0.tag|
  {
    var n0 := |t0.tag|;
    n0 <= |t.tag|
    && (forall x :: 0 <= x < n0 ==> t.tag[x] == t0.tag[x] && t.attrs[x] == t0.attrs[x])
    && (forall x :: 0 <= x < n0 ==> t.parent[x] == t0.parent[x])
    && (forall x :: 0 <= x < n0 && t0.tag[x] == wtag ==> t.text[x] == t0.text[x])
    && (forall x :: n0 <= x < |t.tag| ==> t.tag[x] == wtag && t.text[x] == Some(m))
    && (forall x :: 0 <= x < n0 && x != c ==> t.text[x] == t0.text[x] && t.tail[x] == t0.tail[x])
    && CutOrKept(t0.text[c], t.text[c], m) && CutOrKept(t0.tail[c], t.tail[c], m)
    && (ok ==>
      var tx, tl := t0.text[c], t0.tail[c];
      var a, b := if Holds(tx, m) then 1 else 0, if Holds(tl, m) then 1 else 0;
      && |t.tag| == n0 + a + b
      && t.text[c] == (if a == 1 then Some(SplitFirst(tx.value, m).0) else tx)
      && t.tail[c] == (if b == 1 then Some(SplitFirst(tl.value, m).0) else tl)
      && (a == 1 ==> t.tail[n0] == Some(SplitFirst(tx.value, m).1))
      && (b == 1 ==> t.tail[n0 + a] == Some(SplitFirst(tl.value, m).1)))
    && (ok && n0 < |t.tag| ==>
      var h := t0.parent[c];
      0 <= h < n0
      && (forall x :: n0 <= x < |t.tag| ==> t.parent[x] == h)
      && t.kids[h] == t0.kids[h] + (if |t.tag| == n0 + 1 then [n0] else [n0, n0 + 1])
      && (forall x :: 0 <= x < n0 && x != h ==> t.kids[x] == t0.kids[x]))
  }

  /** Cutting the text of `c` when it holds `m`, then its tail when that
      holds `m`, stopping after a failed wrap, is a visit; it fails
      exactly when something was to be wrapped and `c` has no parent. */
  lemma VisitComposes(t0: Tree, t1: Tree, t2: Tree, wtag: string, c: nat, m: string)
    requires Sane(t0) && Sane(t1) && Sane(t2) && c < |t0.tag|
    requires !(t0.tag[c] == wtag && Holds(t0.text[c], m))
    requires if Holds(t0.text[c], m) then WrapStep(t0, t1, wtag, c, m, false) else t1 == t0
    requires Holds(t0.text[c], m) && t0.parent[c] < 0 ==> t2 == t1
    requires !(Holds(t0.text[c], m) && t0.parent[c] < 0) ==>
      c < |t1.tag| && if Holds(t1.tail[c], m) then WrapStep(t1, t2, wtag, c, m, true) else t2 == t1
    ensures VisitedFrom(t0, t2, wtag, c, m, t0.parent[c] >= 0 || !(Holds(t0.text[c], m) || Holds(t0.tail[c], m)))
  {
    if !Holds(t0.text[c], m) {
      if Holds(t0.tail[c], m) {
        VisitOne(t0, t2, wtag, c, m, true);
      }
    } else if t0.parent[c] < 0 {
      VisitOne(t0, t2, wtag, c, m, false);
    } else {
      assert t1.tail[c] == t0.tail[c] && t1.parent[c] == t0.parent[c];
      if Holds(t0.tail[c], m) {
        VisitTwo(t0, t1, t2, wtag, c, m);
      } else {
        VisitOne(t0, t2, wtag, c, m, false);
      }
    }
  }

  /** A visit that wraps one of the text and the tail of `c`. */
  lemma VisitOne(t0: Tree, t: Tree, wtag: string, c: nat, m: string, tail: bool)
    requires Sane(t0) && Sane(t) && c < |t0.tag| && !(t0.tag[c] == wtag && Holds(t0.text[c], m))
    requires WrapStep(t0, t, wtag, c, m, tail)
    requires tail ==> !Holds(t0.text[c], m)
    requires !tail && t0.parent[c] >= 0 ==> !Holds(t0.tail[c], m)
    ensures VisitedFrom(t0, t, wtag, c, m, t0.parent[c] >= 0)
  {
  }

  /** A visit that wraps the text of `c`, then its tail. */
  lemma VisitTwo(t0: Tree, t1: Tree, t: Tree, wtag: string, c: nat, m: string)
    requires Sane(t0) && Sane(t1) && Sane(t) && c < |t0.tag| && t0.tag[c] != wtag
    requires WrapStep(t0, t1, wtag, c, m, false) && t0.parent[c] >= 0
    requires c < |t1.tag| && WrapStep(t1, t, wtag, c, m, true)
    ensures VisitedFrom(t0, t, wtag, c, m, true)
  {
    assert t1.tail[c] == t0.tail[c] && t1.parent[c] == t0.parent[c] && t.text[c] == t1.text[c];
  }

  /** The body of the walk of `_iter_children` at an element `c` that does
      not stop it: `m` is wrapped out of its text, then out of its tail,
      under the parent of `c`. */
  method Visit(d: Doc, wtag: string, c: nat, m: string) returns (r: Result<()>)
    requires d.Valid() && c < |d.tag| && !(d.tag[c] == wtag && Holds(d.text[c], m))
    modifies d
    ensures d.Valid() && VisitedFrom(old(TreeOf(d)), TreeOf(d), wtag, c, m, r.Success?)
    ensures r.Failure? ==> r.error == "AttributeError" && old(d.parent[c]) < 0
    ensures r.Success? <==> old(d.parent[c] >= 0 || !(Holds(d.text[c], m) || Holds(d.tail[c], m)))
    ensures old(!Holds(d.text[c], m) && !Holds(d.tail[c], m)) ==> unchanged(d)
  {
    ghost var t0 := TreeOf(d);
    if Holds(d.text[c], m) {
      var x := WrapText(d, wtag, c, m, false, true);
      assert WrapStep(t0, TreeOf(d), wtag, c, m, false);
      if x.Failure? {
        VisitComposes(t0, TreeOf(d), TreeOf(d), wtag, c, m);
        return Failure(x.error);
      }
    }
    ghost var t1 := TreeOf(d);
    if Holds(d.tail[c], m) {
      var x := WrapText(d, wtag, c, m, true, true);
      assert WrapStep(t1, TreeOf(d), wtag, c, m, true);
      VisitComposes(t0, t1, TreeOf(d), wtag, c, m);
      if x.Failure? {
        return Failure(x.error);
      }
    } else {
      VisitComposes(t0, t1, t1, wtag, c, m);
    }
    return Success(());
  }

  /** `iter_matches()`: each match is wrapped in the text of `w.p` when
      that text holds it, and searched for below `w.p` otherwise. The
      result tells whether every walk ended within its fuel. Only a `w.p`
      without a parent can make a wrap fail. */
  method IterMatches(d: Doc, w: Wrapper, fuel: nat) returns (r: Result<bool>)
    requires d.Valid() && w.p < |d.tag|
    modifies d
    ensures d.Valid() && old(|d.tag|) <= |d.tag|
    ensures forall x :: 0 <= x < old(|d.tag|) ==> d.tag[x] == old(d.tag[x]) && d.attrs[x] == old(d.attrs[x])
    ensures Wrapped(d, w, old(|d.tag|))
    ensures r.Failure? ==> r.error == "AttributeError" && old(d.parent[w.p]) < 0
    ensures w.matches == [] ==> r == Success(true) && unchanged(d)
  {
    ghost var n0 := |d.tag|;
    ghost var p0 := d.parent[w.p];
    var i := 0;
    while i < |w.matches|
      invariant d.Valid() && n0 <= |d.tag| && i <= |w.matches|
      invariant forall x :: 0 <= x < n0 ==> d.tag[x] == old(d.tag[x]) && d.attrs[x] == old(d.attrs[x])
      invariant d.parent[w.p] == p0
      invariant Wrapped(d, w, n0)
      invariant w.matches == [] ==> unchanged(d)
    {
      var m := w.matches[i];
      if Holds(d.text[w.p], m) {
        var x := WrapText(d, w.tag, w.p, m, false, false);
      } else {
        var s := IterChildren(d, w, m, fuel);
        if s.Failure? {
          return Failure(s.error);
        }
        if s.value.OutOfFuel? {
          return Success(false);
        }
      }
      i := i + 1;
    }
    return Success(true);
  }
}
