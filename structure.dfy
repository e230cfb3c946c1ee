/** The hierarchy builder of `eisb_structure.py`: the flat list of provisions
    of one section is re-nested by walking up from the current parent to the
    nearest element whose tag may hold the next provision. */
module Structure {
  import opened Wrappers
  import opened Text
  import opened DocTree
  import opened Provisions

  /** The eight structural levels, outermost first. */
  const Levels: seq<string> :=
    ["part", "chapter", "section", "subsection", "paragraph", "subparagraph", "clause", "subclause"]

  /** The tags whose provisions go into the current parent's `content`. */
  const ContentTags: seq<string> := ["mod_block", "tblock", "table"]

  /** The tags an element may be attached under, by the provision's tag. */
  function AllowedParents(t: string): (r: seq<string>)
    ensures forall i :: 3 <= i < |Levels| && t == Levels[i] ==> r == Levels[2..i]
    ensures t !in Levels[3..] ==> r == Levels
  {
    if t == "subsection" then ["section"]
    else if t == "paragraph" then ["section", "subsection"]
    else if t == "subparagraph" then ["section", "subsection", "paragraph"]
    else if t == "clause" then ["section", "subsection", "paragraph", "subparagraph"]
    else if t == "subclause" then ["section", "subsection", "paragraph", "subparagraph", "clause"]
    else Levels
  }

  /** The first of `n` and its ancestors whose tag is in `tags`, read off
      the tags and parent links. */
  ghost function NearestIn(tag: seq<string>, parent: seq<int>, rank: seq<nat>, top: nat, n: nat, tags: seq<string>): (r: Option<nat>)
    requires Ranked(parent, rank, top) && |tag| == |parent| && n < |parent|
    ensures r.Some? ==> r.value < |tag| && r.value in Ancestors(parent, rank, top, n) && tag[r.value] in tags
    decreases top - rank[n]
  {
    if tag[n] in tags then Some(n)
    else if parent[n] < 0 then None
    else NearestIn(tag, parent, rank, top, parent[n], tags)
  }

  /** The first of `n` and its ancestors in `d` whose tag is in `tags`. */
  ghost function Nearest(d: Doc, n: nat, tags: seq<string>): (r: Option<nat>)
    reads d
    requires d.Valid() && n < |d.tag|
    ensures r.Some? ==> r.value < |d.tag| && d.tag[r.value] in tags
  {
    NearestIn(d.tag, d.parent, d.rank, d.top, n, tags)
  }

  /** Parent links and tag classes that agree on the ancestors of `n`
      give the same nearest element. */
  lemma {:induction false} NearestKept(t1: seq<string>, p1: seq<int>, r1: seq<nat>, top1: nat,
                                       t2: seq<string>, p2: seq<int>, r2: seq<nat>, top2: nat,
                                       n: nat, tags: seq<string>)
    requires Ranked(p1, r1, top1) && Ranked(p2, r2, top2)
    requires |t1| == |p1| <= |p2| == |t2| && n < |p1|
    requires forall z :: z in Ancestors(p1, r1, top1, n) ==> p2[z] == p1[z] && (t2[z] in tags <==> t1[z] in tags)
    ensures NearestIn(t2, p2, r2, top2, n, tags) == NearestIn(t1, p1, r1, top1, n, tags)
    decreases top1 - r1[n]
  {
    if t1[n] !in tags && p1[n] >= 0 {
      NearestKept(t1, p1, r1, top1, t2, p2, r2, top2, p1[n], tags);
    }
  }

  /** What `Nearest` finds: an element of the chain above `n` with a tag in
      `tags`, below which no element of the chain has such a tag; and when
      it finds nothing, no element of the chain has one. */
  lemma {:induction false} NearestSpec(d: Doc, n: nat, tags: seq<string>)
    requires d.Valid() && n < |d.tag|
    ensures Nearest(d, n, tags).Some? ==>
      Nearest(d, n, tags).value in d.Chain(n) && d.tag[Nearest(d, n, tags).value] in tags
      && forall y :: y in d.Chain(n) && y !in d.Chain(Nearest(d, n, tags).value) ==> d.tag[y] !in tags
    ensures Nearest(d, n, tags).None? ==> forall y :: y in d.Chain(n) ==> d.tag[y] !in tags
    decreases d.top - d.rank[n]
  {
    if d.tag[n] !in tags && d.parent[n] >= 0 {
      NearestSpec(d, d.parent[n], tags);
      assert d.Chain(n) == {n} + d.Chain(d.parent[n]);
    }
  }

  /** `locate_tag(parent, tags)`: walks up from `start`, changing nothing. */
  method LocateTag(d: Doc, start: Option<nat>, tags: seq<string>) returns (r: Option<nat>)
    requires d.Valid() && (start.Some? ==> start.value < |d.tag|)
    ensures start.None? ==> r.None?
    ensures start.Some? ==> r == Nearest(d, start.value, tags)
  {
    if start.None? { return None; }
    var n := start.value;
    if d.tag[n] in tags { return Some(n); }
    var curr := d.parent[n];
    while curr >= 0
      invariant -1 <= curr < |d.tag|
      invariant Nearest(d, n, tags) == if curr >= 0 then Nearest(d, curr, tags) else None
      decreases if curr >= 0 then d.top - d.rank[curr] else 0
    {
      if d.tag[curr] in tags { return Some(curr); }
      curr := d.parent[curr];
    }
    return None;
  }

  /** The eId a child gets: its parent's eId, or the text `None` when the
      parent has none, then `_` and the child's own snippet. */
  function ChildEId(parentEId: Option<string>, eid: string): string {
    (if parentEId.Some? then parentEId.value else "None") + "_" + eid
  }

  /** Whether the provision carries a non-empty eId snippet. */
  predicate HasEId(s: Provision) {
    s.eid.Some? && s.eid.value != ""
  }

  /** `append_subdiv(parent_container, subdiv)`. A missing container is a
      ValueError; a provision without an element fails in lxml (AttributeError
      or TypeError); appending an ancestor is lxml's ValueError. Otherwise the
      element gets its prefixed eId, becomes the last child of the container,
      and a `content` element just before it is renamed `intro`. */
  method AppendSubdiv(d: Doc, container: Option<nat>, s: Provision) returns (r: Result<nat>)
    requires d.Valid() && (container.Some? ==> container.value < |d.tag|)
    requires s.xml.Some? ==> s.xml.value < |d.tag|
    modifies d
    ensures d.Valid() && |d.tag| == old(|d.tag|) && d.text == old(d.text) && d.tail == old(d.tail)
    ensures r.Failure? <==> container.None? || s.xml.None? || s.xml.value in old(d.Chain(container.value))
    ensures container.None? || s.xml.None? ==> unchanged(d)
    ensures container.Some? && s.xml.Some? ==>
      d.attrs == if HasEId(s)
        then old(d.attrs)[s.xml.value := old(d.attrs[s.xml.value])[EId := ChildEId(old(d.Attr(container.value, EId)), s.eid.value)]]
        else old(d.attrs)
    ensures r.Failure? ==> d.tag == old(d.tag) && d.parent == old(d.parent) && d.kids == old(d.kids)
    ensures r.Success? ==> r == Success(s.xml.value)
    ensures r.Success? ==> d.parent == old(d.parent)[r.value := container.value]
    ensures r.Success? ==> d.kids[container.value] == Without(old(d.kids[container.value]), r.value) + [r.value]
    ensures r.Success? ==> forall n :: 0 <= n < |d.tag| && n != container.value ==>
      d.kids[n] == if n == old(d.parent[r.value]) then Without(old(d.kids[n]), r.value) else old(d.kids[n])
    ensures r.Success? ==> var k := d.kids[container.value];
      d.tag == if |k| >= 2 && old(d.tag[k[|k| - 2]]) == "content" then old(d.tag)[k[|k| - 2] := "intro"] else old(d.tag)
  {
    if container.None? {
      return Failure("ValueError: cannot determine parent for subdivision");
    }
    var p := container.value;
    if HasEId(s) {
      if s.xml.None? { return Failure("AttributeError: no element"); }
      var pe := d.Attr(p, EId);
      d.SetAttr(s.xml.value, EId, ChildEId(pe, s.eid.value));
    }
    if s.xml.None? { return Failure("TypeError: cannot append None"); }
    var ok := AppendRetag(d, p, s.xml.value);
    r := if ok then Success(s.xml.value) else Failure("ValueError: cannot append an ancestor");
  }

  /** The tree part of `append_subdiv`: `c` becomes the last child of `p`,
      and a `content` element just before it is renamed `intro`. */
  method AppendRetag(d: Doc, p: nat, c: nat) returns (ok: bool)
    requires d.Valid() && p < |d.tag| && c < |d.tag|
    modifies d
    ensures d.Valid() && |d.tag| == old(|d.tag|) && d.attrs == old(d.attrs)
    ensures d.text == old(d.text) && d.tail == old(d.tail)
    ensures ok <==> c !in old(d.Chain(p))
    ensures !ok ==> d.tag == old(d.tag) && d.parent == old(d.parent) && d.kids == old(d.kids)
    ensures ok ==> d.parent == old(d.parent)[c := p]
    ensures ok ==> d.kids[p] == Without(old(d.kids[p]), c) + [c]
    ensures ok ==> forall n :: 0 <= n < |d.tag| && n != p ==>
      d.kids[n] == if n == old(d.parent[c]) then Without(old(d.kids[n]), c) else old(d.kids[n])
    ensures ok ==> var k := d.kids[p];
      d.tag == if |k| >= 2 && old(d.tag[k[|k| - 2]]) == "content" then old(d.tag)[k[|k| - 2] := "intro"] else old(d.tag)
  {
    ok := d.Append(p, c);
    if !ok { return; }
    RetagBefore(d, p, c, Without(old(d.kids[p]), c));
  }

  /** A `content` element just before the last child `c` of `p` is renamed
      `intro`. */
  method RetagBefore(d: Doc, p: nat, c: nat, ghost s: seq<nat>)
    requires d.Valid() && p < |d.tag| && c < |d.tag| && d.parent[c] == p
    requires d.kids[p] == s + [c] && c !in s
    modifies d`tag
    ensures d.Valid() && |d.tag| == old(|d.tag|)
    ensures var k := d.kids[p];
      d.tag == if |k| >= 2 && old(d.tag[k[|k| - 2]]) == "content" then old(d.tag)[k[|k| - 2] := "intro"] else old(d.tag)
  {
    IndexOfLast(s, c);
    var pre := d.Previous(c);
    if pre.Some? && d.tag[pre.value] == "content" {
      d.SetTag(pre.value, "intro");
    }
  }

  /** `c` is the last child of `p`. */
  predicate LastChild(d: Doc, p: nat, c: nat)
    reads d
    requires d.Valid() && p < |d.tag|
  {
    |d.kids[p]| > 0 && d.kids[p][|d.kids[p]| - 1] == c
  }

  /** `parent.find("content")`, or a new empty `content` element appended
      to `p` when it has none. */
  method ContentOf(d: Doc, p: nat) returns (c: nat)
    requires d.Valid() && p < |d.tag|
    modifies d
    ensures d.Valid() && c < |d.tag| && d.tag[c] == "content" && d.parent[c] == p
    ensures d.Chain(c) == {c} + old(d.Chain(p))
    ensures old(d.FindChild(p, "content")).Some? ==> c == old(d.FindChild(p, "content")).value && unchanged(d)
    ensures old(d.FindChild(p, "content")).None? ==>
      c == old(|d.tag|) && d.tag == old(d.tag) + ["content"] && d.attrs == old(d.attrs) + [map[]]
      && d.text == old(d.text) + [None] && d.tail == old(d.tail) + [None]
      && d.parent == old(d.parent) + [p] && d.kids == old(d.kids)[p := old(d.kids[p]) + [c]] + [[]]
    ensures forall n :: 0 <= n < old(|d.tag|) && n != p ==> d.kids[n] == old(d.kids[n])
  {
    var found := d.FindChild(p, "content");
    if found.Some? {
      c := found.value;
      LinkedKid(d.parent, d.kids, p, c);
      assert d.Chain(c) == {c} + d.Chain(p);
      return;
    }
    c := d.NewElement("content");
    assert c !in d.kids[p] by {
      forall i | 0 <= i < |d.kids[p]| ensures d.kids[p][i] != c {
        assert d.kids[p][i] < |old(d.parent)|;
      }
    }
    d.ChildlessAbove(p, c);
    var ok := d.Append(p, c);
    assert ok;
  }

  /** The first branch of a `section_hierarchy` step: a `mod_block`,
      `tblock` or `table` provision goes into the `content` of the current
      parent (made if absent), and the current parent stays. */
  method PlaceContent(d: Doc, parent: Option<nat>, s: Provision) returns (r: Result<Option<nat>>)
    requires d.Valid()
    requires parent.Some? ==> parent.value < |d.tag|
    requires s.xml.Some? ==> s.xml.value < |d.tag|
    modifies d
    ensures d.Valid() && |d.tag| >= old(|d.tag|)
    ensures r.Failure? <==> (parent.None? || s.xml.None? || s.xml.value in old(d.Chain(parent.value))
                             || old(d.FindChild(parent.value, "content")) == Some(s.xml.value))
    ensures forall n :: 0 <= n < old(|d.tag|) ==> d.tag[n] == old(d.tag[n])
    ensures forall n :: 0 <= n < old(|d.tag|) && s.xml != Some(n) ==> d.parent[n] == old(d.parent[n])
    ensures r.Success? ==>
      r == Success(parent) && d.parent[s.xml.value] >= 0
      && d.tag[d.parent[s.xml.value]] == "content" && d.parent[d.parent[s.xml.value]] == parent.value
      && LastChild(d, d.parent[s.xml.value], s.xml.value)
      && d.parent[s.xml.value] == (match old(d.FindChild(parent.value, "content"))
                                   case Some(c) => c
                                   case None => old(|d.tag|))
    ensures r.Success? ==>
      forall n :: 0 <= n < old(|d.tag|) && n != parent.value && n != d.parent[s.xml.value] && n != old(d.parent[s.xml.value])
        ==> d.kids[n] == old(d.kids[n])
  {
    if parent.None? { return Failure("AttributeError: no current parent"); }
    ghost var k0, above, found := d.kids, d.Chain(parent.value), d.FindChild(parent.value, "content");
    var c := ContentOf(d, parent.value);
    if s.xml.None? { return Failure("TypeError: cannot append None"); }
    ghost var k1 := d.kids;
    assert s.xml.value == c <==> found == Some(s.xml.value);
    var ok := PutLast(d, c, s.xml.value);
    assert !ok <==> s.xml.value in above || found == Some(s.xml.value);
    if !ok { return Failure("ValueError: cannot append an ancestor"); }
    ghost var q := old(d.parent[s.xml.value]);
    assert forall n :: 0 <= n < |k0| && n != parent.value && n != c && n != q ==> d.kids[n] == k1[n] == k0[n];
    return Success(parent);
  }

  /** `p.append(x)`, with what `PlaceContent` needs of it: no tag changes,
      only `x` changes parent, and on success `x` is the last child of `p`. */
  method PutLast(d: Doc, p: nat, x: nat) returns (ok: bool)
    requires d.Valid() && p < |d.tag| && x < |d.tag|
    modifies d
    ensures d.Valid() && |d.tag| == old(|d.tag|) && d.tag == old(d.tag)
    ensures ok <==> x !in old(d.Chain(p))
    ensures forall n :: 0 <= n < |d.tag| && n != x ==> d.parent[n] == old(d.parent[n])
    ensures ok ==> d.parent[x] == p && LastChild(d, p, x)
    ensures forall n :: 0 <= n < |d.tag| && n != p && n != old(d.parent[x]) ==> d.kids[n] == old(d.kids[n])
  {
    ghost var p0 := d.parent;
    ok := d.Append(p, x);
    if ok {
      ParentOne(p0, d.parent, x, p);
    }
  }

  /** The container `section_hierarchy` picks for a structural provision:
      `locate_tag(parent, tags) or sectionparent`. An lxml element without
      children is false in Python, so a childless match also falls back to
      the section. */
  ghost function Container(d: Doc, section: Option<nat>, parent: Option<nat>, t: string): (c: Option<nat>)
    reads d
    requires d.Valid() && (section.Some? ==> section.value < |d.tag|) && (parent.Some? ==> parent.value < |d.tag|)
    ensures c.Some? ==> c.value < |d.tag|
    ensures c.Some? ==> c == section || d.tag[c.value] in AllowedParents(t)
  {
    var loc := if parent.Some? then Nearest(d, parent.value, AllowedParents(t)) else None;
    if loc.Some? && |d.kids[loc.value]| > 0 then loc else section
  }

  /** The second branch of a `section_hierarchy` step: any other provision
      is attached by `append_subdiv` under its container and becomes the
      current parent. */
  method PlaceStructural(d: Doc, section: Option<nat>, parent: Option<nat>, s: Provision) returns (r: Result<Option<nat>>)
    requires d.Valid()
    requires section.Some? ==> section.value < |d.tag|
    requires parent.Some? ==> parent.value < |d.tag|
    requires s.xml.Some? ==> s.xml.value < |d.tag|
    modifies d
    ensures d.Valid() && |d.tag| == old(|d.tag|)
    ensures var container := old(Container(d, section, parent, s.tag));
      (r.Failure? <==> (container.None? || s.xml.None? || s.xml.value in old(d.Chain(container.value))))
      && (r.Success? ==> r == Success(s.xml) && d.parent[s.xml.value] == container.value
                         && LastChild(d, container.value, s.xml.value)
                         && forall n :: 0 <= n < |d.tag| && n != container.value && n != old(d.parent[s.xml.value])
                              ==> d.kids[n] == old(d.kids[n]))
    ensures forall n :: 0 <= n < old(|d.tag|) ==> Retagged(old(d.tag[n]), d.tag[n])
    ensures forall n :: 0 <= n < old(|d.tag|) && s.xml != Some(n) ==> d.parent[n] == old(d.parent[n])
  {
    var located := LocateTag(d, parent, AllowedParents(s.tag));
    var container := if located.Some? && |d.kids[located.value]| > 0 then located else section;
    assert container == Container(d, section, parent, s.tag);
    r := PlaceIn(d, container, s);
  }

  /** `append_subdiv` under a container that has been chosen. */
  method PlaceIn(d: Doc, container: Option<nat>, s: Provision) returns (r: Result<Option<nat>>)
    requires d.Valid() && (container.Some? ==> container.value < |d.tag|)
    requires s.xml.Some? ==> s.xml.value < |d.tag|
    modifies d
    ensures d.Valid() && |d.tag| == old(|d.tag|)
    ensures r.Failure? <==> (container.None? || s.xml.None? || s.xml.value in old(d.Chain(container.value)))
    ensures r.Success? ==> r == Success(s.xml) && d.parent[s.xml.value] == container.value
                           && LastChild(d, container.value, s.xml.value)
    ensures r.Success? ==> forall n :: 0 <= n < |d.tag| && n != container.value && n != old(d.parent[s.xml.value])
                             ==> d.kids[n] == old(d.kids[n])
    ensures forall n :: 0 <= n < old(|d.tag|) ==> Retagged(old(d.tag[n]), d.tag[n])
    ensures forall n :: 0 <= n < old(|d.tag|) && s.xml != Some(n) ==> d.parent[n] == old(d.parent[n])
  {
    ghost var t0, p0 := d.tag, d.parent;
    var placed := AppendSubdiv(d, container, s);
    if placed.Failure? { return Failure(placed.error); }
    assert LastChild(d, container.value, s.xml.value);
    Retags(t0, d.tag, d.kids[container.value]);
    ParentOne(p0, d.parent, placed.value, container.value);
    return Success(Some(placed.value));
  }

  /** Renaming the `content` before the last child `append_subdiv` added
      to `intro`, when there is one, is a retagging. */
  lemma Retags(t0: seq<string>, t: seq<string>, k: seq<nat>)
    requires |k| >= 2 ==> k[|k| - 2] < |t0|
    requires t == if |k| >= 2 && t0[k[|k| - 2]] == "content" then t0[k[|k| - 2] := "intro"] else t0
    ensures |t| == |t0| && forall n :: 0 <= n < |t0| ==> Retagged(t0[n], t[n])
  {
  }

  /** A tag left as it was, or a `content` renamed `intro`: the only
      renaming `append_subdiv` does. */
  predicate Retagged(before: string, after: string) {
    after == before || (before == "content" && after == "intro")
  }

  /** `section_hierarchy(subdivs)`: the first provision's element is the
      section; every later provision is placed by one of the two steps above,
      the structural ones becoming the current parent. An empty list gives
      `None`, an exception in any step is a `Failure`. On success, when the
      provisions have distinct elements none of which is a `content`, each
      later provision ends where its step put it (`Settled`); when those
      elements also start without a parent, each structural one hangs under
      exactly the container its step chose (`Located`). */
  method SectionHierarchy(d: Doc, subdivs: seq<Provision>) returns (r: Result<Option<nat>>)
    requires d.Valid()
    requires forall k :: 0 <= k < |subdivs| && subdivs[k].xml.Some? ==> subdivs[k].xml.value < |d.tag|
    modifies d
    ensures d.Valid() && |d.tag| >= old(|d.tag|)
    ensures subdivs == [] ==> r == Success(None) && unchanged(d)
    ensures |subdivs| == 1 ==> r == Success(subdivs[0].xml) && unchanged(d)
    ensures subdivs != [] && r.Success? ==> r.value == subdivs[0].xml
    ensures r.Success? ==> forall k :: 1 <= k < |subdivs| ==> subdivs[k].xml.Some?
    ensures r.Success? && DistinctElements(subdivs) && NoContentElement(old(d.tag), subdivs) ==>
      forall k :: 1 <= k < |subdivs| ==> Settled(d.tag, d.parent, subdivs, k)
    ensures r.Success? && DistinctElements(subdivs) && NoContentElement(old(d.tag), subdivs)
            && Detached(old(d.parent), subdivs) ==>
      forall k :: 1 <= k < |subdivs| && subdivs[k].tag !in ContentTags ==>
        Located(d.tag, d.parent, d.rank, d.top, old(d.kids), subdivs, k)
  {
    if subdivs == [] { return Success(None); }
    ghost var sep := DistinctElements(subdivs) && NoContentElement(d.tag, subdivs);
    ghost var k0, det := d.kids, Detached(d.parent, subdivs);
    var section: Option<nat> := subdivs[0].xml;
    var parent: Option<nat> := section;
    var k := 1;
    while k < |subdivs|
      invariant 1 <= k <= |subdivs|
      invariant d.Valid() && |d.tag| >= old(|d.tag|)
      invariant forall i :: 0 <= i < |subdivs| && subdivs[i].xml.Some? ==> subdivs[i].xml.value < |d.tag|
      invariant section == subdivs[0].xml && parent == CurrentParent(subdivs, k)
      invariant forall i :: 1 <= i < k ==> subdivs[i].xml.Some?
      invariant sep ==> NoContentElement(d.tag, subdivs) && forall i :: 1 <= i < k ==> Settled(d.tag, d.parent, subdivs, i)
      invariant sep && det ==> Placing(d.tag, d.parent, d.rank, d.top, d.kids, k0, subdivs, k)
      invariant k == 1 ==> unchanged(d)
    {
      var step := HierarchyStep(d, subdivs, k, parent, sep, k0, det);
      if step.Failure? { return Failure(step.error); }
      parent := step.value;
      k := k + 1;
    }
    return Success(section);
  }

  /** The current parent when the `k`-th provision is placed: the element
      of the last structural provision before it, or else the section. */
  function CurrentParent(subdivs: seq<Provision>, k: nat): Option<nat>
    requires 1 <= k <= |subdivs|
  {
    if k == 1 then subdivs[0].xml
    else if subdivs[k - 1].tag in ContentTags then CurrentParent(subdivs, k - 1)
    else subdivs[k - 1].xml
  }

  /** No element belongs to two provisions. */
  predicate DistinctElements(subdivs: seq<Provision>) {
    forall i, j :: 0 <= i < j < |subdivs| && subdivs[i].xml.Some? ==> subdivs[i].xml != subdivs[j].xml
  }

  /** No provision's element is a `content` element. */
  ghost predicate NoContentElement(tag: seq<string>, subdivs: seq<Provision>) {
    forall i :: 0 <= i < |subdivs| && subdivs[i].xml.Some? ==>
      subdivs[i].xml.value < |tag| && tag[subdivs[i].xml.value] != "content"
  }

  /** Where the `k`-th provision stands: a content provision inside a
      `content` (or, once a structural sibling followed it, `intro`)
      element that is not itself a provision and hangs under the current
      parent; a structural one under the section or under an element whose
      tag may hold it. */
  ghost predicate Settled(tag: seq<string>, parent: seq<int>, subdivs: seq<Provision>, k: nat)
    requires |parent| == |tag| && 1 <= k < |subdivs|
  {
    var x := subdivs[k].xml;
    x.Some? && x.value < |tag| && 0 <= parent[x.value] < |tag|
    && var c := parent[x.value];
    if subdivs[k].tag in ContentTags then
      (tag[c] == "content" || tag[c] == "intro")
      && CurrentParent(subdivs, k).Some? && parent[c] == CurrentParent(subdivs, k).value
      && forall i :: 0 <= i < |subdivs| ==> subdivs[i].xml != Some(c)
    else
      Some(c) == subdivs[0].xml || tag[c] in AllowedParents(subdivs[k].tag)
  }

  /** A placed provision stays placed while only another provision's
      element moves and tags change only from `content` to `intro`. */
  lemma SettledKept(t1: seq<string>, p1: seq<int>, t2: seq<string>, p2: seq<int>,
                    subdivs: seq<Provision>, j: nat, k: nat)
    requires |p1| == |t1| <= |t2| == |p2| && 1 <= j < |subdivs| && k < |subdivs| && j != k
    requires Settled(t1, p1, subdivs, j) && DistinctElements(subdivs) && subdivs[k].xml.Some?
    requires forall n :: 0 <= n < |t1| ==> Retagged(t1[n], t2[n])
    requires forall n :: 0 <= n < |t1| && subdivs[k].xml != Some(n) ==> p2[n] == p1[n]
    ensures Settled(t2, p2, subdivs, j)
  {
    var x := subdivs[j].xml.value;
    if j < k {
      assert subdivs[j].xml != subdivs[k].xml;
    } else {
      assert subdivs[k].xml != subdivs[j].xml;
    }
    var c := p1[x];
    assert p2[x] == c;
    if subdivs[j].tag in ContentTags {
      assert subdivs[k].xml != Some(c);
    } else if Some(c) != subdivs[0].xml {
      assert "content" !in AllowedParents(subdivs[j].tag);
    }
  }

  /** One step of `section_hierarchy`, for the `k`-th provision. */
  method HierarchyStep(d: Doc, subdivs: seq<Provision>, k: nat, parent: Option<nat>,
                       ghost sep: bool, ghost k0: seq<seq<nat>>, ghost det: bool)
    returns (step: Result<Option<nat>>)
    requires d.Valid() && 1 <= k < |subdivs|
    requires forall i :: 0 <= i < |subdivs| && subdivs[i].xml.Some? ==> subdivs[i].xml.value < |d.tag|
    requires parent == CurrentParent(subdivs, k)
    requires sep ==> DistinctElements(subdivs) && NoContentElement(d.tag, subdivs)
    requires sep ==> forall i :: 1 <= i < k ==> Settled(d.tag, d.parent, subdivs, i)
    requires sep && det ==> Placing(d.tag, d.parent, d.rank, d.top, d.kids, k0, subdivs, k)
    modifies d
    ensures d.Valid() && |d.tag| >= old(|d.tag|)
    ensures step.Success? ==> step.value == CurrentParent(subdivs, k + 1) && subdivs[k].xml.Some?
    ensures sep && step.Success? ==>
      NoContentElement(d.tag, subdivs) && forall i :: 1 <= i <= k ==> Settled(d.tag, d.parent, subdivs, i)
    ensures sep && det && step.Success? ==> Placing(d.tag, d.parent, d.rank, d.top, d.kids, k0, subdivs, k + 1)
  {
    var s := subdivs[k];
    if parent.Some? {
      assert parent.value < |d.tag| by { CurrentParentBound(subdivs, k, |d.tag|); }
    }
    ghost var t0, p0, r0, o0, c0 := d.tag, d.parent, d.rank, d.top, d.kids;
    if s.tag in ContentTags {
      step := PlaceContent(d, parent, s);
      if step.Success? {
        ContentStepped(t0, p0, r0, o0, c0, d.tag, d.parent, d.kids, subdivs, k);
      }
    } else {
      step := PlaceStructural(d, subdivs[0].xml, parent, s);
      if step.Success? {
        StructuralStepped(t0, p0, r0, o0, c0, d.tag, d.parent, d.kids, subdivs, k);
      }
    }
    if step.Success? && sep {
      StepSettles(t0, p0, d.tag, d.parent, subdivs, k);
      if det {
        StepPlaces(t0, p0, r0, o0, c0, d.tag, d.parent, d.rank, d.top, d.kids, k0, subdivs, k);
      }
    }
  }

  /** The `k`-th provision placed by its step is `Settled`, and the
      earlier ones stay so. */
  lemma StepSettles(t1: seq<string>, p1: seq<int>, t2: seq<string>, p2: seq<int>, subdivs: seq<Provision>, k: nat)
    requires |p1| == |t1| <= |t2| == |p2| && 1 <= k < |subdivs|
    requires DistinctElements(subdivs) && NoContentElement(t1, subdivs)
    requires forall i :: 1 <= i < k ==> Settled(t1, p1, subdivs, i)
    requires forall n :: 0 <= n < |t1| ==> Retagged(t1[n], t2[n])
    requires forall n :: 0 <= n < |t1| && subdivs[k].xml != Some(n) ==> p2[n] == p1[n]
    requires subdivs[k].xml.Some? && 0 <= p2[subdivs[k].xml.value] < |t2|
    requires subdivs[k].tag in ContentTags ==>
      var c := p2[subdivs[k].xml.value];
      t2[c] == "content" && CurrentParent(subdivs, k).Some? && p2[c] == CurrentParent(subdivs, k).value
    requires subdivs[k].tag !in ContentTags ==>
      var c := p2[subdivs[k].xml.value];
      Some(c) == subdivs[0].xml || (c < |t1| && t1[c] in AllowedParents(subdivs[k].tag))
    ensures NoContentElement(t2, subdivs)
    ensures forall i :: 1 <= i <= k ==> Settled(t2, p2, subdivs, i)
  {
    forall i | 0 <= i < |subdivs| && subdivs[i].xml.Some?
      ensures t2[subdivs[i].xml.value] != "content"
    {
      assert Retagged(t1[subdivs[i].xml.value], t2[subdivs[i].xml.value]);
    }
    forall i | 1 <= i < k ensures Settled(t2, p2, subdivs, i) {
      SettledKept(t1, p1, t2, p2, subdivs, i, k);
    }
    var c := p2[subdivs[k].xml.value];
    if subdivs[k].tag !in ContentTags && Some(c) != subdivs[0].xml {
      assert "content" !in AllowedParents(subdivs[k].tag);
      assert Retagged(t1[c], t2[c]);
    }
  }

  /** Every provision's element starts without a parent, as the
      extractor's new elements do. */
  ghost predicate Detached(parent: seq<int>, subdivs: seq<Provision>) {
    forall i :: 0 <= i < |subdivs| && subdivs[i].xml.Some? ==>
      subdivs[i].xml.value < |parent| && parent[subdivs[i].xml.value] == -1
  }

  /** Where the `k`-th, structural, provision stands: under the nearest
      element, from its current parent up, whose tag may hold it; under the
      section when there is none, or when that element is the current parent
      and still has only the children it started with (`k0`) and those were
      none. */
  ghost predicate Located(tag: seq<string>, parent: seq<int>, rank: seq<nat>, top: nat,
                          k0: seq<seq<nat>>, subdivs: seq<Provision>, k: nat)
    requires Ranked(parent, rank, top) && |tag| == |parent| && 1 <= k < |subdivs|
  {
    var x, p, sec := subdivs[k].xml, CurrentParent(subdivs, k), subdivs[0].xml;
    x.Some? && x.value < |parent| && p.Some? && p.value < |parent| && p.value < |k0| && sec.Some?
    && var n := NearestIn(tag, parent, rank, top, p.value, AllowedParents(subdivs[k].tag));
       var bare := n == p && (k == 1 || subdivs[k - 1].tag !in ContentTags) && k0[p.value] == [];
       parent[x.value] == if n.Some? && !bare then n.value else sec.value
  }

  /** What `section_hierarchy` keeps before placing the `k`-th provision,
      starting from the children `k0`: see the four parts below. */
  ghost predicate Placing(tag: seq<string>, parent: seq<int>, rank: seq<nat>, top: nat, kids: seq<seq<nat>>,
                          k0: seq<seq<nat>>, subdivs: seq<Provision>, k: nat)
    requires Ranked(parent, rank, top) && |tag| == |parent| == |kids| && 1 <= k <= |subdivs|
  {
    Sized(parent, k0, subdivs) && Unplaced(parent, kids, k0, subdivs, k)
    && Below(parent, rank, top, subdivs, k) && AllLocated(tag, parent, rank, top, k0, subdivs, k)
  }

  /** The provisions' elements were in the arena whose children were `k0`. */
  ghost predicate Sized(parent: seq<int>, k0: seq<seq<nat>>, subdivs: seq<Provision>) {
    |k0| <= |parent| && forall i :: 0 <= i < |subdivs| && subdivs[i].xml.Some? ==> subdivs[i].xml.value < |k0|
  }

  /** The section and the provisions still to come are parentless, those to
      come keep their first children, and so does the current parent unless
      a content provision just went into it. */
  ghost predicate Unplaced(parent: seq<int>, kids: seq<seq<nat>>, k0: seq<seq<nat>>, subdivs: seq<Provision>, k: nat)
    requires |parent| == |kids| && Sized(parent, k0, subdivs) && 1 <= k <= |subdivs|
  {
    var sec := subdivs[0].xml;
    var q := if k == 1 then sec else subdivs[k - 1].xml;
    (k >= 2 ==> sec.Some?)
    && (forall i :: (i == 0 || k <= i < |subdivs|) && subdivs[i].xml.Some? ==> parent[subdivs[i].xml.value] == -1)
    && (forall i :: k <= i < |subdivs| && subdivs[i].xml.Some? ==> kids[subdivs[i].xml.value] == k0[subdivs[i].xml.value])
    && ((k == 1 || subdivs[k - 1].tag !in ContentTags) && q.Some? ==> kids[q.value] == k0[q.value])
  }

  /** Every provision placed so far hangs below the section. */
  ghost predicate Below(parent: seq<int>, rank: seq<nat>, top: nat, subdivs: seq<Provision>, k: nat)
    requires Ranked(parent, rank, top) && k <= |subdivs|
  {
    forall i :: 1 <= i < k ==>
      subdivs[i].xml.Some? && subdivs[i].xml.value < |parent| && subdivs[0].xml.Some?
      && subdivs[0].xml.value in Ancestors(parent, rank, top, subdivs[i].xml.value)
  }

  /** Every structural provision placed so far is `Located`. */
  ghost predicate AllLocated(tag: seq<string>, parent: seq<int>, rank: seq<nat>, top: nat,
                             k0: seq<seq<nat>>, subdivs: seq<Provision>, k: nat)
    requires Ranked(parent, rank, top) && |tag| == |parent| && k <= |subdivs|
  {
    forall i :: 1 <= i < k && subdivs[i].tag !in ContentTags ==> Located(tag, parent, rank, top, k0, subdivs, i)
  }

  /** What one step of `section_hierarchy` did to the arena, read off
      `PlaceContent` and `PlaceStructural`: the `k`-th provision's element
      moved (`Moved`) to where its branch puts it (`Put`). */
  ghost predicate Stepped(t1: seq<string>, p1: seq<int>, r1: seq<nat>, o1: nat, k1: seq<seq<nat>>,
                          t2: seq<string>, p2: seq<int>, k2: seq<seq<nat>>, subdivs: seq<Provision>, k: nat)
    requires Ranked(p1, r1, o1) && |t1| == |p1| == |k1| <= |t2| == |p2| == |k2| && 1 <= k < |subdivs|
  {
    var x, p := subdivs[k].xml, CurrentParent(subdivs, k);
    x.Some? && x.value < |t1| && (p.Some? ==> p.value < |t1|)
    && Moved(t1, p1, t2, p2, x.value) && Put(t1, p1, r1, o1, k1, t2, p2, k2, subdivs, k)
  }

  /** Only `x` changed parent and only `content` became `intro`. */
  ghost predicate Moved(t1: seq<string>, p1: seq<int>, t2: seq<string>, p2: seq<int>, x: nat)
    requires |t1| == |p1| <= |t2| == |p2|
  {
    (forall n :: 0 <= n < |t1| ==> Retagged(t1[n], t2[n]))
    && (forall n :: 0 <= n < |t1| && n != x ==> p2[n] == p1[n])
  }

  /** Where the `k`-th step put its provision: a content one into a child
      of the current parent, a structural one under its container; and only
      the children of the new and old parents changed. */
  ghost predicate Put(t1: seq<string>, p1: seq<int>, r1: seq<nat>, o1: nat, k1: seq<seq<nat>>,
                      t2: seq<string>, p2: seq<int>, k2: seq<seq<nat>>, subdivs: seq<Provision>, k: nat)
    requires Ranked(p1, r1, o1) && |t1| == |p1| == |k1| <= |t2| == |p2| == |k2| && 1 <= k < |subdivs|
    requires subdivs[k].xml.Some? && subdivs[k].xml.value < |t1|
    requires CurrentParent(subdivs, k).Some? ==> CurrentParent(subdivs, k).value < |t1|
  {
    var x, p, sec := subdivs[k].xml.value, CurrentParent(subdivs, k), subdivs[0].xml;
    if subdivs[k].tag in ContentTags then
      var c := p2[x];
      p.Some? && 0 <= c < |t2| && p2[c] == p.value
      && forall n :: 0 <= n < |t1| && n != p.value && n != c && n != p1[x] ==> k2[n] == k1[n]
    else
      var loc := if p.Some? then NearestIn(t1, p1, r1, o1, p.value, AllowedParents(subdivs[k].tag)) else None;
      var c := if loc.Some? && |k1[loc.value]| > 0 then loc else sec;
      c.Some? && p2[x] == c.value
      && forall n :: 0 <= n < |t1| && n != c.value && n != p1[x] ==> k2[n] == k1[n]
  }

  /** What `PlaceContent` ensures is a step. */
  lemma ContentStepped(t1: seq<string>, p1: seq<int>, r1: seq<nat>, o1: nat, k1: seq<seq<nat>>,
                       t2: seq<string>, p2: seq<int>, k2: seq<seq<nat>>, subdivs: seq<Provision>, k: nat)
    requires Ranked(p1, r1, o1) && |t1| == |p1| == |k1| <= |t2| == |p2| == |k2| && 1 <= k < |subdivs|
    requires subdivs[k].tag in ContentTags
    requires var x, p := subdivs[k].xml, CurrentParent(subdivs, k);
      x.Some? && x.value < |t1| && p.Some? && p.value < |t1|
      && (forall n :: 0 <= n < |t1| ==> t2[n] == t1[n])
      && (forall n :: 0 <= n < |t1| && x != Some(n) ==> p2[n] == p1[n])
      && 0 <= p2[x.value] < |t2| && p2[p2[x.value]] == p.value
      && forall n :: 0 <= n < |t1| && n != p.value && n != p2[x.value] && n != p1[x.value] ==> k2[n] == k1[n]
    ensures Stepped(t1, p1, r1, o1, k1, t2, p2, k2, subdivs, k)
  {
  }

  /** What `PlaceStructural` ensures is a step. */
  lemma StructuralStepped(t1: seq<string>, p1: seq<int>, r1: seq<nat>, o1: nat, k1: seq<seq<nat>>,
                          t2: seq<string>, p2: seq<int>, k2: seq<seq<nat>>, subdivs: seq<Provision>, k: nat)
    requires Ranked(p1, r1, o1) && |t1| == |p1| == |k1| == |t2| == |p2| == |k2| && 1 <= k < |subdivs|
    requires subdivs[k].tag !in ContentTags && subdivs[k].xml.Some? && subdivs[k].xml.value < |t1|
    requires CurrentParent(subdivs, k).Some? ==> CurrentParent(subdivs, k).value < |t1|
    requires var x, p, sec := subdivs[k].xml, CurrentParent(subdivs, k), subdivs[0].xml;
      var loc := if p.Some? then NearestIn(t1, p1, r1, o1, p.value, AllowedParents(subdivs[k].tag)) else None;
      var c := if loc.Some? && |k1[loc.value]| > 0 then loc else sec;
      c.Some? && p2[x.value] == c.value
      && (forall n :: 0 <= n < |t1| ==> Retagged(t1[n], t2[n]))
      && (forall n :: 0 <= n < |t1| && x != Some(n) ==> p2[n] == p1[n])
      && forall n :: 0 <= n < |t1| && n != c.value && n != p1[x.value] ==> k2[n] == k1[n]
    ensures Stepped(t1, p1, r1, o1, k1, t2, p2, k2, subdivs, k)
  {
  }

  /** A step keeps `Placing`, one provision further on. */
  lemma StepPlaces(t1: seq<string>, p1: seq<int>, r1: seq<nat>, o1: nat, k1: seq<seq<nat>>,
                   t2: seq<string>, p2: seq<int>, r2: seq<nat>, o2: nat, k2: seq<seq<nat>>,
                   k0: seq<seq<nat>>, subdivs: seq<Provision>, k: nat)
    requires Ranked(p1, r1, o1) && Ranked(p2, r2, o2) && Linked(p1, k1)
    requires |t1| == |p1| == |k1| <= |t2| == |p2| == |k2| && 1 <= k < |subdivs|
    requires DistinctElements(subdivs) && Placing(t1, p1, r1, o1, k1, k0, subdivs, k)
    requires k >= 2 && subdivs[k - 1].tag in ContentTags ==> Settled(t1, p1, subdivs, k - 1)
    requires Stepped(t1, p1, r1, o1, k1, t2, p2, k2, subdivs, k)
    ensures Placing(t2, p2, r2, o2, k2, k0, subdivs, k + 1)
  {
    assert CurrentParent(subdivs, k).Some? by {
      var j := CurrentParentFrom(subdivs, k);
    }
    PlacedRoots(t1, p1, r1, o1, k1, t2, p2, r2, o2, k2, k0, subdivs, k);
    PlacedBelow(t1, p1, r1, o1, k1, t2, p2, r2, o2, k2, k0, subdivs, k);
    PlacedLocated(t1, p1, r1, o1, k1, t2, p2, r2, o2, k2, k0, subdivs, k);
  }

  /** After the step every structural provision placed so far, the new
      one included, is located. */
  lemma PlacedLocated(t1: seq<string>, p1: seq<int>, r1: seq<nat>, o1: nat, k1: seq<seq<nat>>,
                      t2: seq<string>, p2: seq<int>, r2: seq<nat>, o2: nat, k2: seq<seq<nat>>,
                      k0: seq<seq<nat>>, subdivs: seq<Provision>, k: nat)
    requires Ranked(p1, r1, o1) && Ranked(p2, r2, o2) && Linked(p1, k1)
    requires |t1| == |p1| == |k1| <= |t2| == |p2| == |k2| && 1 <= k < |subdivs| && DistinctElements(subdivs)
    requires Sized(p1, k0, subdivs) && Unplaced(p1, k1, k0, subdivs, k) && Below(p1, r1, o1, subdivs, k)
    requires AllLocated(t1, p1, r1, o1, k0, subdivs, k)
    requires k >= 2 && subdivs[k - 1].tag in ContentTags ==> Settled(t1, p1, subdivs, k - 1)
    requires Stepped(t1, p1, r1, o1, k1, t2, p2, k2, subdivs, k) && CurrentParent(subdivs, k).Some?
    ensures AllLocated(t2, p2, r2, o2, k0, subdivs, k + 1)
  {
    AllLocatedKept(t1, p1, r1, o1, k1, t2, p2, r2, o2, k2, k0, subdivs, k);
    if subdivs[k].tag !in ContentTags {
      LocatedNew(t1, p1, r1, o1, k1, t2, p2, r2, o2, k2, k0, subdivs, k);
    }
    LocatedOneMore(t2, p2, r2, o2, k0, subdivs, k);
  }

  /** Located up to `k`, and at `k` when it is structural: located up to `k + 1`. */
  lemma LocatedOneMore(t2: seq<string>, p2: seq<int>, r2: seq<nat>, o2: nat,
                       k0: seq<seq<nat>>, subdivs: seq<Provision>, k: nat)
    requires Ranked(p2, r2, o2) && |t2| == |p2| && 1 <= k < |subdivs|
    requires AllLocated(t2, p2, r2, o2, k0, subdivs, k)
    requires subdivs[k].tag !in ContentTags ==> Located(t2, p2, r2, o2, k0, subdivs, k)
    ensures AllLocated(t2, p2, r2, o2, k0, subdivs, k + 1)
  {
  }

  /** The structural provisions located before the step stay located. */
  lemma AllLocatedKept(t1: seq<string>, p1: seq<int>, r1: seq<nat>, o1: nat, k1: seq<seq<nat>>,
                       t2: seq<string>, p2: seq<int>, r2: seq<nat>, o2: nat, k2: seq<seq<nat>>,
                       k0: seq<seq<nat>>, subdivs: seq<Provision>, k: nat)
    requires Ranked(p1, r1, o1) && Ranked(p2, r2, o2)
    requires |t1| == |p1| == |k1| <= |t2| == |p2| == |k2| && 1 <= k < |subdivs| && DistinctElements(subdivs)
    requires Sized(p1, k0, subdivs) && Unplaced(p1, k1, k0, subdivs, k) && Below(p1, r1, o1, subdivs, k)
    requires AllLocated(t1, p1, r1, o1, k0, subdivs, k)
    requires subdivs[k].xml.Some? && subdivs[k].xml.value < |t1| && Moved(t1, p1, t2, p2, subdivs[k].xml.value)
    ensures AllLocated(t2, p2, r2, o2, k0, subdivs, k)
  {
    forall i | 1 <= i < k && subdivs[i].tag !in ContentTags
      ensures Located(t2, p2, r2, o2, k0, subdivs, i)
    {
      LocatedKept(t1, p1, r1, o1, k1, t2, p2, r2, o2, k2, k0, subdivs, k, i);
    }
  }

  /** The current parent is the section or a placed structural provision. */
  lemma {:induction false} CurrentParentFrom(subdivs: seq<Provision>, k: nat) returns (j: nat)
    requires 1 <= k <= |subdivs|
    ensures j < k && CurrentParent(subdivs, k) == subdivs[j].xml && (j == 0 || subdivs[j].tag !in ContentTags)
  {
    if k == 1 {
      j := 0;
    } else if subdivs[k - 1].tag in ContentTags {
      j := CurrentParentFrom(subdivs, k - 1);
    } else {
      j := k - 1;
    }
  }

  /** Before the `k`-th step the section is above the current parent, and
      neither the section nor the provisions to come are. */
  lemma SectionAbove(p1: seq<int>, r1: seq<nat>, o1: nat, k1: seq<seq<nat>>,
                     k0: seq<seq<nat>>, subdivs: seq<Provision>, k: nat)
    requires Ranked(p1, r1, o1) && |p1| == |k1| && 1 <= k < |subdivs| && DistinctElements(subdivs)
    requires Sized(p1, k0, subdivs) && Unplaced(p1, k1, k0, subdivs, k) && Below(p1, r1, o1, subdivs, k)
    requires CurrentParent(subdivs, k).Some?
    ensures var p := CurrentParent(subdivs, k).value;
      p < |k0| <= |p1| && subdivs[0].xml.Some? && subdivs[0].xml.value in Ancestors(p1, r1, o1, p)
      && forall i :: k <= i < |subdivs| && subdivs[i].xml.Some? ==>
           subdivs[i].xml != CurrentParent(subdivs, k) && subdivs[i].xml.value !in Ancestors(p1, r1, o1, p)
  {
    var j := CurrentParentFrom(subdivs, k);
    var p := CurrentParent(subdivs, k).value;
    var sec := subdivs[0].xml.value;
    forall i | k <= i < |subdivs| && subdivs[i].xml.Some?
      ensures subdivs[i].xml != CurrentParent(subdivs, k) && subdivs[i].xml.value !in Ancestors(p1, r1, o1, p)
    {
      assert subdivs[j].xml != subdivs[i].xml;
      assert subdivs[0].xml != subdivs[i].xml;
      RootsApart(p1, r1, o1, p, sec, subdivs[i].xml.value);
    }
  }

  /** After the step the section and the provisions still to come are
      parentless and those to come keep their first children; a structural
      provision just placed keeps its own. */
  lemma PlacedRoots(t1: seq<string>, p1: seq<int>, r1: seq<nat>, o1: nat, k1: seq<seq<nat>>,
                    t2: seq<string>, p2: seq<int>, r2: seq<nat>, o2: nat, k2: seq<seq<nat>>,
                    k0: seq<seq<nat>>, subdivs: seq<Provision>, k: nat)
    requires Ranked(p1, r1, o1) && Ranked(p2, r2, o2)
    requires |t1| == |p1| == |k1| <= |t2| == |p2| == |k2| && 1 <= k < |subdivs| && DistinctElements(subdivs)
    requires Sized(p1, k0, subdivs) && Unplaced(p1, k1, k0, subdivs, k) && Below(p1, r1, o1, subdivs, k)
    requires Stepped(t1, p1, r1, o1, k1, t2, p2, k2, subdivs, k) && CurrentParent(subdivs, k).Some?
    ensures Unplaced(p2, k2, k0, subdivs, k + 1)
  {
    SectionAbove(p1, r1, o1, k1, k0, subdivs, k);
    var x := subdivs[k].xml.value;
    forall i | (i == 0 || k < i < |subdivs|) && subdivs[i].xml.Some?
      ensures p2[subdivs[i].xml.value] == -1
    {
      assert subdivs[i].xml != subdivs[k].xml;
    }
    forall i | k < i < |subdivs| && subdivs[i].xml.Some?
      ensures k2[subdivs[i].xml.value] == k1[subdivs[i].xml.value]
    {
      var y := subdivs[i].xml.value;
      assert subdivs[k].xml != subdivs[i].xml && subdivs[0].xml != subdivs[i].xml;
      assert p2[y] == -1;
    }
    if subdivs[k].tag !in ContentTags {
      assert r2[x] < r2[p2[x]];
    }
  }

  /** After the step every placed provision, the new one included, hangs
      below the section. */
  lemma PlacedBelow(t1: seq<string>, p1: seq<int>, r1: seq<nat>, o1: nat, k1: seq<seq<nat>>,
                    t2: seq<string>, p2: seq<int>, r2: seq<nat>, o2: nat, k2: seq<seq<nat>>,
                    k0: seq<seq<nat>>, subdivs: seq<Provision>, k: nat)
    requires Ranked(p1, r1, o1) && Ranked(p2, r2, o2)
    requires |t1| == |p1| == |k1| <= |t2| == |p2| == |k2| && 1 <= k < |subdivs| && DistinctElements(subdivs)
    requires Sized(p1, k0, subdivs) && Unplaced(p1, k1, k0, subdivs, k) && Below(p1, r1, o1, subdivs, k)
    requires Stepped(t1, p1, r1, o1, k1, t2, p2, k2, subdivs, k) && CurrentParent(subdivs, k).Some?
    ensures Below(p2, r2, o2, subdivs, k + 1)
  {
    OldBelow(t1, p1, r1, o1, k1, t2, p2, r2, o2, k2, k0, subdivs, k);
    NewBelow(t1, p1, r1, o1, k1, t2, p2, r2, o2, k2, k0, subdivs, k);
  }

  /** The provisions placed before the step stay below the section. */
  lemma OldBelow(t1: seq<string>, p1: seq<int>, r1: seq<nat>, o1: nat, k1: seq<seq<nat>>,
                 t2: seq<string>, p2: seq<int>, r2: seq<nat>, o2: nat, k2: seq<seq<nat>>,
                 k0: seq<seq<nat>>, subdivs: seq<Provision>, k: nat)
    requires Ranked(p1, r1, o1) && Ranked(p2, r2, o2)
    requires |t1| == |p1| == |k1| <= |t2| == |p2| == |k2| && 1 <= k < |subdivs| && DistinctElements(subdivs)
    requires Sized(p1, k0, subdivs) && Unplaced(p1, k1, k0, subdivs, k) && Below(p1, r1, o1, subdivs, k)
    requires subdivs[k].xml.Some? && subdivs[k].xml.value < |t1| && Moved(t1, p1, t2, p2, subdivs[k].xml.value)
    ensures Below(p2, r2, o2, subdivs, k)
  {
    var x := subdivs[k].xml.value;
    forall i | 1 <= i < k
      ensures subdivs[0].xml.value in Ancestors(p2, r2, o2, subdivs[i].xml.value)
    {
      assert subdivs[0].xml != subdivs[k].xml;
      KeptBelow(p1, r1, o1, p2, r2, o2, subdivs[i].xml.value, subdivs[0].xml.value, x);
    }
  }

  /** The provision a step places hangs below the section. */
  lemma NewBelow(t1: seq<string>, p1: seq<int>, r1: seq<nat>, o1: nat, k1: seq<seq<nat>>,
                 t2: seq<string>, p2: seq<int>, r2: seq<nat>, o2: nat, k2: seq<seq<nat>>,
                 k0: seq<seq<nat>>, subdivs: seq<Provision>, k: nat)
    requires Ranked(p1, r1, o1) && Ranked(p2, r2, o2)
    requires |t1| == |p1| == |k1| <= |t2| == |p2| == |k2| && 1 <= k < |subdivs| && DistinctElements(subdivs)
    requires Sized(p1, k0, subdivs) && Unplaced(p1, k1, k0, subdivs, k) && Below(p1, r1, o1, subdivs, k)
    requires Stepped(t1, p1, r1, o1, k1, t2, p2, k2, subdivs, k) && CurrentParent(subdivs, k).Some?
    ensures subdivs[0].xml.Some? && subdivs[0].xml.value in Ancestors(p2, r2, o2, subdivs[k].xml.value)
  {
    SectionAbove(p1, r1, o1, k1, k0, subdivs, k);
    var x := subdivs[k].xml.value;
    var p := CurrentParent(subdivs, k).value;
    var sec := subdivs[0].xml.value;
    assert sec != x by { assert subdivs[0].xml != subdivs[k].xml; }
    var c := p2[x];
    if subdivs[k].tag in ContentTags {
      KeptBelow(p1, r1, o1, p2, r2, o2, p, sec, x);
      assert Ancestors(p2, r2, o2, c) == {c} + Ancestors(p2, r2, o2, p);
    } else if c != sec {
      TopAbove(p1, r1, o1, p, c, sec);
      KeptBelow(p1, r1, o1, p2, r2, o2, c, sec, x);
    }
    assert Ancestors(p2, r2, o2, x) == {x} + Ancestors(p2, r2, o2, c);
  }

  /** Moving the parentless `x` keeps the ancestors of an element below the
      parentless `sec`, other than `x`. */
  lemma KeptBelow(p1: seq<int>, r1: seq<nat>, o1: nat, p2: seq<int>, r2: seq<nat>, o2: nat, y: nat, sec: nat, x: nat)
    requires Ranked(p1, r1, o1) && Ranked(p2, r2, o2) && |p1| <= |p2| && y < |p1| && x < |p1|
    requires sec in Ancestors(p1, r1, o1, y) && p1[sec] < 0 && p1[x] < 0 && x != sec
    requires forall n :: 0 <= n < |p1| && n != x ==> p2[n] == p1[n]
    ensures x !in Ancestors(p1, r1, o1, y)
    ensures Ancestors(p2, r2, o2, y) == Ancestors(p1, r1, o1, y)
  {
    RootsApart(p1, r1, o1, y, sec, x);
    AncestorsKept(p1, r1, o1, p2, r2, o2, y);
  }

  /** A provision located before the step stays located. */
  lemma LocatedKept(t1: seq<string>, p1: seq<int>, r1: seq<nat>, o1: nat, k1: seq<seq<nat>>,
                    t2: seq<string>, p2: seq<int>, r2: seq<nat>, o2: nat, k2: seq<seq<nat>>,
                    k0: seq<seq<nat>>, subdivs: seq<Provision>, k: nat, i: nat)
    requires Ranked(p1, r1, o1) && Ranked(p2, r2, o2)
    requires |t1| == |p1| == |k1| <= |t2| == |p2| == |k2| && 1 <= i < k < |subdivs| && DistinctElements(subdivs)
    requires Sized(p1, k0, subdivs) && Unplaced(p1, k1, k0, subdivs, k) && Below(p1, r1, o1, subdivs, k)
    requires Located(t1, p1, r1, o1, k0, subdivs, i)
    requires subdivs[k].xml.Some? && subdivs[k].xml.value < |t1| && Moved(t1, p1, t2, p2, subdivs[k].xml.value)
    ensures Located(t2, p2, r2, o2, k0, subdivs, i)
  {
    var x := subdivs[k].xml.value;
    var sec := subdivs[0].xml.value;
    var p := CurrentParent(subdivs, i).value;
    assert sec != x && subdivs[i].xml != subdivs[k].xml by { assert subdivs[0].xml != subdivs[k].xml; }
    var j := CurrentParentFrom(subdivs, i);
    KeptBelow(p1, r1, o1, p2, r2, o2, p, sec, x);
    RetaggedAllowed(t1, t2, subdivs[i].tag);
    NearestKept(t1, p1, r1, o1, t2, p2, r2, o2, p, AllowedParents(subdivs[i].tag));
  }

  /** The provision a structural step places is located. */
  lemma LocatedNew(t1: seq<string>, p1: seq<int>, r1: seq<nat>, o1: nat, k1: seq<seq<nat>>,
                   t2: seq<string>, p2: seq<int>, r2: seq<nat>, o2: nat, k2: seq<seq<nat>>,
                   k0: seq<seq<nat>>, subdivs: seq<Provision>, k: nat)
    requires Ranked(p1, r1, o1) && Ranked(p2, r2, o2) && Linked(p1, k1)
    requires |t1| == |p1| == |k1| <= |t2| == |p2| == |k2| && 1 <= k < |subdivs| && DistinctElements(subdivs)
    requires Sized(p1, k0, subdivs) && Unplaced(p1, k1, k0, subdivs, k) && Below(p1, r1, o1, subdivs, k)
    requires k >= 2 && subdivs[k - 1].tag in ContentTags ==> Settled(t1, p1, subdivs, k - 1)
    requires Stepped(t1, p1, r1, o1, k1, t2, p2, k2, subdivs, k) && CurrentParent(subdivs, k).Some?
    requires subdivs[k].tag !in ContentTags
    ensures Located(t2, p2, r2, o2, k0, subdivs, k)
  {
    SectionAbove(p1, r1, o1, k1, k0, subdivs, k);
    var x := subdivs[k].xml.value;
    var sec := subdivs[0].xml.value;
    var p := CurrentParent(subdivs, k).value;
    var tags := AllowedParents(subdivs[k].tag);
    assert sec != x by { assert subdivs[0].xml != subdivs[k].xml; }
    KeptBelow(p1, r1, o1, p2, r2, o2, p, sec, x);
    RetaggedAllowed(t1, t2, subdivs[k].tag);
    NearestKept(t1, p1, r1, o1, t2, p2, r2, o2, p, tags);
    var loc := NearestIn(t1, p1, r1, o1, p, tags);
    if loc.Some? && loc.value != p {
      AboveHasKid(p1, r1, o1, k1, p, loc.value);
    } else if loc.Some? && k >= 2 && subdivs[k - 1].tag in ContentTags {
      var c := p1[subdivs[k - 1].xml.value];
      assert c in k1[p1[c]];
    }
  }

  /** Renaming `content` to `intro` does not change which elements may
      hold a provision. */
  lemma RetaggedAllowed(t1: seq<string>, t2: seq<string>, t: string)
    requires |t1| <= |t2| && forall n :: 0 <= n < |t1| ==> Retagged(t1[n], t2[n])
    ensures forall n :: 0 <= n < |t1| ==> (t2[n] in AllowedParents(t) <==> t1[n] in AllowedParents(t))
  {
    assert "content" !in AllowedParents(t) && "intro" !in AllowedParents(t);
  }

  /** The current parent is one of the provisions' elements. */
  lemma {:induction false} CurrentParentBound(subdivs: seq<Provision>, k: nat, n: nat)
    requires 1 <= k <= |subdivs|
    requires forall i :: 0 <= i < |subdivs| && subdivs[i].xml.Some? ==> subdivs[i].xml.value < n
    ensures CurrentParent(subdivs, k).Some? ==> CurrentParent(subdivs, k).value < n
  {
    if k > 1 && subdivs[k - 1].tag in ContentTags {
      CurrentParentBound(subdivs, k - 1, n);
    }
  }

  /** The style `fix_headings` looks for, and the containers it looks in. */
  const CenterStyle := "text-align:center"
  const HeadingSlots: seq<string> := ["content", "intro"]

  /** `p.attrib.get('style', '')` */
  function Style(a: map<string, string>): (r: string)
    ensures "style" in a ==> r == a["style"]
    ensures "style" !in a ==> r == ""
  {
    if "style" in a then a["style"] else ""
  }

  /** The tags, children lists and attributes of a tree fit together. */
  predicate WellFormed(tag: seq<string>, kids: seq<seq<nat>>, attrs: seq<map<string, string>>) {
    |kids| == |tag| && |attrs| == |tag|
    && forall n, i :: 0 <= n < |kids| && 0 <= i < |kids[n]| ==> kids[n][i] < |tag|
  }

  /** The guard of `fix_headings` for one element `x`: its first `num`
      child is immediately followed by a `content` or `intro` element whose
      first `p` child has a centred style. */
  predicate Misplaced(tag: seq<string>, kids: seq<seq<nat>>, attrs: seq<map<string, string>>, x: nat)
    requires WellFormed(tag, kids, attrs) && x < |tag|
  {
    match FirstTagged(tag, kids[x], "num")
    case None => false
    case Some(num) =>
      var k := IndexOf(kids[x], num);
      k + 1 < |kids[x]| && tag[kids[x][k + 1]] in HeadingSlots
      && match FirstTagged(tag, kids[kids[x][k + 1]], "p")
         case None => false
         case Some(p) => Contains(Style(attrs[p]), CenterStyle)
  }

  predicate Qualifies(d: Doc, x: nat)
    reads d
    requires d.Valid() && x < |d.tag|
  {
    Misplaced(d.tag, d.kids, d.attrs, x)
  }

  /** The guard reads the children of `x`, their tags and children, and
      the tags of those: two trees that agree there agree on it. */
  lemma MisplacedFrame(tag1: seq<string>, kids1: seq<seq<nat>>, tag2: seq<string>, kids2: seq<seq<nat>>,
                       attrs: seq<map<string, string>>, x: nat)
    requires WellFormed(tag1, kids1, attrs) && WellFormed(tag2, kids2, attrs) && x < |tag1|
    requires kids2[x] == kids1[x]
    requires forall i :: 0 <= i < |kids1[x]| ==>
      tag2[kids1[x][i]] == tag1[kids1[x][i]] && kids2[kids1[x][i]] == kids1[kids1[x][i]]
    requires forall i, j :: 0 <= i < |kids1[x]| && 0 <= j < |kids1[kids1[x][i]]| ==>
      tag2[kids1[kids1[x][i]][j]] == tag1[kids1[kids1[x][i]][j]]
    ensures Misplaced(tag1, kids1, attrs, x) == Misplaced(tag2, kids2, attrs, x)
  {
    FirstTaggedAgree(tag1, tag2, kids1[x], "num");
    var num := FirstTagged(tag1, kids1[x], "num");
    if num.Some? {
      var k := IndexOf(kids1[x], num.value);
      if k + 1 < |kids1[x]| {
        FirstTaggedAgree(tag1, tag2, kids1[kids1[x][k + 1]], "p");
      }
    }
  }

  /** `n` is a child of a child of `x`. */
  predicate Grandchild(parent: seq<int>, n: nat, x: nat)
    requires n < |parent|
  {
    0 <= parent[n] < |parent| && parent[parent[n]] == x
  }

  /** The guard as `fix_headings` evaluates it: `subdiv.find("num")`, then
      `num.getnext()`, then that element's first `p`. When it holds, the
      result is the position `k` of `num`, the container `c` after it and
      the centred `p` element `h`. */
  function HeadingGuard(d: Doc, x: nat): (g: Option<(nat, nat, nat)>)
    reads d
    requires d.Valid() && x < |d.tag|
    ensures g.Some? <==> Qualifies(d, x)
    ensures g.Some? ==> var (k, c, h) := g.value;
      k + 1 < |d.kids[x]| && d.tag[d.kids[x][k]] == "num" && c == d.kids[x][k + 1]
      && (forall i :: 0 <= i < k ==> d.tag[d.kids[x][i]] != "num")
      && h < |d.tag| && d.parent[h] == c && d.tag[h] == "p" && d.tag[c] in HeadingSlots
  {
    match d.FindChild(x, "num")
    case None => None
    case Some(num) =>
      LinkedKid(d.parent, d.kids, x, num);
      match d.Next(num)
      case None => None
      case Some(c) =>
        if d.tag[c] !in HeadingSlots then None
        else
          match d.FindChild(c, "p")
          case None => None
          case Some(h) =>
            LinkedKid(d.parent, d.kids, c, h);
            if Contains(Style(d.attrs[h]), CenterStyle) then Some((IndexOf(d.kids[x], num), c, h)) else None
  }

  /** What one application of `FixHeading` to `x` may change, between the
      tree before (`t1`, `k1`, `p1`) and after (`t2`, `k2`, `p2`): the
      children of `x` and of its children, the tag of a `p` grandchild, and
      the parents of such a grandchild and of a container child. */
  predicate ChangedOnlyAt(t1: seq<string>, k1: seq<seq<nat>>, p1: seq<int>,
                          t2: seq<string>, k2: seq<seq<nat>>, p2: seq<int>, x: nat)
    requires |k1| == |t1| && |p1| == |t1| && |t2| == |t1| && |k2| == |t1| && |p2| == |t1|
  {
    (forall n :: 0 <= n < |t1| && n != x && p1[n] != x ==> k2[n] == k1[n])
    && (forall n :: 0 <= n < |t1| && t2[n] != t1[n] ==> t1[n] == "p" && t2[n] == "heading" && Grandchild(p1, n, x))
    && (forall n :: 0 <= n < |t1| && p2[n] != p1[n] ==>
          (t1[n] == "p" && Grandchild(p1, n, x) && p2[n] == x) || (t1[n] in HeadingSlots && p1[n] == x && p2[n] == -1))
  }

  /** The body of the `fix_headings` loop for one element: when the guard
      holds, the centred `p` is renamed `heading` and moved to just after
      `num`, and its container is removed if that left it without children.
      Afterwards the guard fails, so a second application changes nothing. */
  method FixHeading(d: Doc, x: nat) returns (fixed: bool)
    requires d.Valid() && x < |d.tag|
    modifies d
    ensures d.Valid() && |d.tag| == old(|d.tag|)
    ensures d.attrs == old(d.attrs) && d.text == old(d.text) && d.tail == old(d.tail)
    ensures fixed <==> old(Qualifies(d, x))
    ensures !Qualifies(d, x)
    ensures !fixed ==> unchanged(d)
    ensures ChangedOnlyAt(old(d.tag), old(d.kids), old(d.parent), d.tag, d.kids, d.parent, x)
    ensures fixed ==> var g := old(HeadingGuard(d, x)).value;
      Relocated(old(d.tag), old(d.kids), old(d.parent), d.tag, d.kids, d.parent, x, g.0, g.1, g.2)
  {
    var g := HeadingGuard(d, x);
    if g.None? { return false; }
    var (k, c, h) := g.value;
    ApplyFix(d, x, k, c, h);
    fixed := true;
  }

  /** The fix itself, once the guard has found `num` at position `k` of
      `x`, the container `c` after it and its centred `p` element `h`. */
  method ApplyFix(d: Doc, x: nat, k: nat, c: nat, h: nat)
    requires d.Valid() && x < |d.tag|
    requires k + 1 < |d.kids[x]| && d.tag[d.kids[x][k]] == "num" && c == d.kids[x][k + 1]
    requires forall i :: 0 <= i < k ==> d.tag[d.kids[x][i]] != "num"
    requires h < |d.tag| && d.parent[h] == c && d.tag[h] == "p" && d.tag[c] in HeadingSlots
    modifies d
    ensures d.Valid() && |d.tag| == old(|d.tag|)
    ensures d.attrs == old(d.attrs) && d.text == old(d.text) && d.tail == old(d.tail)
    ensures !Qualifies(d, x)
    ensures ChangedOnlyAt(old(d.tag), old(d.kids), old(d.parent), d.tag, d.kids, d.parent, x)
    ensures Relocated(old(d.tag), old(d.kids), old(d.parent), d.tag, d.kids, d.parent, x, k, c, h)
  {
    ghost var kx, t0 := d.kids[x], d.tag;
    assert c == kx[k + 1];
    LinkedKid(d.parent, d.kids, c, h);
    LinkedKid(d.parent, d.kids, x, c);
    assert h !in kx;
    ghost var p0 := d.parent;
    assert p0[h] == c && p0[c] == x && t0[h] == "p" && t0[c] in HeadingSlots;
    ghost var k0 := d.kids;
    RelocateHeading(d, x, k, h);
    assert Relocated(t0, k0, p0, d.tag, d.kids, d.parent, x, k, c, h);
    RelocatedOnlyAt(t0, k0, p0, d.tag, d.kids, d.parent, x, k, c, h);
    HeadingAfterNum(d, x, k, h, kx, t0);
  }

  /** The fix of `x` between the tree before (`t0`, `k0`, `p0`) and after
      (`t1`, `k1`, `p1`), where `k` is the position of `num`, `c` the
      container after it and `h` its centred `p`: `h` is renamed `heading`
      and becomes the child of `x` right after `num`; `c` loses `h` and, if
      that was its only child, is removed from `x`; no other element's
      children change. */
  predicate Relocated(t0: seq<string>, k0: seq<seq<nat>>, p0: seq<int>,
                      t1: seq<string>, k1: seq<seq<nat>>, p1: seq<int>, x: nat, k: nat, c: nat, h: nat)
    requires |k0| == |t0| && |p0| == |t0| && |t1| == |t0| && |k1| == |t0| && |p1| == |t0|
    requires x < |t0| && c < |t0| && h < |t0| && k < |k0[x]|
  {
    && t1 == t0[h := "heading"]
    && k + 2 <= |k1[x]| && k1[x][..k + 2] == k0[x][..k + 1] + [h]
    && (if k0[c] == [h] then
          p1 == p0[h := x][c := -1] && k1[x] == Without(InsertAt(k0[x], k + 1, h), c) && k1[c] == []
        else
          p1 == p0[h := x] && k1[x] == InsertAt(k0[x], k + 1, h) && k1[c] == Without(k0[c], h))
    && forall n :: 0 <= n < |t0| && n != x && n != c ==> k1[n] == k0[n]
  }

  /** Renaming `h` and moving it up from its container `c` to `x`, and
      perhaps detaching `c`, changes the tree only at `x`. */
  lemma RelocatedOnlyAt(t0: seq<string>, k0: seq<seq<nat>>, p0: seq<int>,
                        t1: seq<string>, k1: seq<seq<nat>>, p1: seq<int>, x: nat, k: nat, c: nat, h: nat)
    requires |k0| == |t0| && |p0| == |t0| && |t1| == |t0| && |k1| == |t0| && |p1| == |t0|
    requires h < |t0| && c < |t0| && x < |t0| && h != c && c != x && k < |k0[x]|
    requires t0[h] == "p" && p0[h] == c && p0[c] == x && t0[c] in HeadingSlots
    requires Relocated(t0, k0, p0, t1, k1, p1, x, k, c, h)
    ensures ChangedOnlyAt(t0, k0, p0, t1, k1, p1, x)
  {
    assert Grandchild(p0, h, x);
    forall n | 0 <= n < |t0| && p1[n] != p0[n]
      ensures (t0[n] == "p" && Grandchild(p0, n, x) && p1[n] == x) || (t0[n] in HeadingSlots && p0[n] == x && p1[n] == -1)
    {
      assert n == h || n == c;
    }
  }

  /** The whole change `fix_headings` makes to one element: the move below,
      then `subdiv.remove(ctr)` when the container `c` was left empty. */
  method RelocateHeading(d: Doc, x: nat, k: nat, h: nat)
    requires d.Valid() && x < |d.tag| && k + 1 < |d.kids[x]|
    requires h < |d.tag| && d.parent[h] == d.kids[x][k + 1]
    modifies d
    ensures d.Valid() && |d.tag| == old(|d.tag|)
    ensures d.tag == old(d.tag)[h := "heading"]
    ensures d.attrs == old(d.attrs) && d.text == old(d.text) && d.tail == old(d.tail)
    ensures k + 2 <= |d.kids[x]| && d.kids[x][..k + 2] == old(d.kids[x][..k + 1]) + [h]
    ensures var c := old(d.kids[x][k + 1]);
      if old(d.kids[c]) == [h] then
        d.parent == old(d.parent)[h := x][c := -1]
        && d.kids[x] == Without(InsertAt(old(d.kids[x]), k + 1, h), c) && d.kids[c] == []
      else
        d.parent == old(d.parent)[h := x]
        && d.kids[x] == InsertAt(old(d.kids[x]), k + 1, h) && d.kids[c] == Without(old(d.kids[c]), h)
    ensures forall n :: 0 <= n < |d.tag| && n != x && n != old(d.kids[x][k + 1]) ==> d.kids[n] == old(d.kids[n])
  {
    ghost var kx, kc := d.kids[x], d.kids[d.kids[x][k + 1]];
    var c := d.kids[x][k + 1];
    LinkedKid(d.parent, d.kids, x, c);
    IndexOfDistinct(kx, k + 1);
    MoveHeading(d, x, k, h);
    ghost var l := InsertAt(kx, k + 1, h);
    assert l[..k + 2] == kx[..k + 1] + [h];
    assert d.kids[c] == Without(kc, h);
    if d.kids[c] == [] {
      LinkedKid(old(d.parent), old(d.kids), c, h);
      WithoutOnly(kc, h);
      assert d.kids[x] == l && d.parent[c] == x;
      var ok := d.Remove(x, c);
      assert c !in l[..k + 2] by {
        assert c !in kx[..k + 1];
      }
      WithoutPrefix(l, c, k + 2);
    } else {
      assert kc != [h];
    }
  }

  /** `p.tag = "heading"; subdiv.insert(idx, p)`: `h`, a child of the
      element `c` at position `k + 1` of `x`, is renamed and becomes the
      child of `x` at position `k + 1`, just before `c`. */
  method MoveHeading(d: Doc, x: nat, k: nat, h: nat)
    requires d.Valid() && x < |d.tag| && k + 1 < |d.kids[x]|
    requires h < |d.tag| && d.parent[h] == d.kids[x][k + 1]
    modifies d
    ensures d.Valid() && |d.tag| == old(|d.tag|)
    ensures d.tag == old(d.tag)[h := "heading"]
    ensures d.attrs == old(d.attrs) && d.text == old(d.text) && d.tail == old(d.tail)
    ensures d.parent == old(d.parent)[h := x]
    ensures d.kids[x] == InsertAt(old(d.kids[x]), k + 1, h)
    ensures d.kids[old(d.kids[x][k + 1])] == Without(old(d.kids[d.kids[x][k + 1]]), h)
    ensures forall n :: 0 <= n < |d.tag| && n != x && n != old(d.parent[h]) ==> d.kids[n] == old(d.kids[n])
  {
    ghost var kx := d.kids[x];
    var c := d.kids[x][k + 1];
    LinkedKid(d.parent, d.kids, x, c);
    LinkedKid(d.parent, d.kids, c, h);
    assert h !in kx by {
      if h in kx { LinkedKid(d.parent, d.kids, x, h); }
    }
    assert h !in d.Chain(x) by {
      if h in d.Chain(x) {
        AncestorsRank(d.parent, d.rank, d.top, x, h);
      }
    }
    IndexOfDistinct(kx, k + 1);
    d.SetTag(h, "heading");
    var ok := d.Insert(x, k + 1, h);
    assert ok;
  }

  /** After the move the element right after the first `num` is a
      `heading`, so the guard fails. `kx` and `t0` are the children of `x`
      and the tags before the move. */
  lemma HeadingAfterNum(d: Doc, x: nat, k: nat, h: nat, kx: seq<nat>, t0: seq<string>)
    requires d.Valid() && x < |d.tag| && k + 2 <= |d.kids[x]| && k < |kx|
    requires d.kids[x][..k + 2] == kx[..k + 1] + [h] && h !in kx
    requires |t0| == |d.tag| && h < |t0| && d.tag == t0[h := "heading"]
    requires forall i :: 0 <= i <= k ==> kx[i] < |t0|
    requires t0[kx[k]] == "num" && forall i :: 0 <= i < k ==> t0[kx[i]] != "num"
    ensures !Qualifies(d, x)
  {
    var kn := d.kids[x];
    forall i | 0 <= i < k ensures d.tag[kn[i]] != "num" {
      assert kn[i] == kx[i];
    }
    assert kn[k] == kx[k] && kn[k + 1] == h;
    Unqualified(d, x, k);
  }

  /** After the move the element right after the first `num` is a
      `heading`, so the guard fails. */
  lemma Unqualified(d: Doc, x: nat, k: nat)
    requires d.Valid() && x < |d.tag| && k + 1 < |d.kids[x]|
    requires d.tag[d.kids[x][k]] == "num" && d.tag[d.kids[x][k + 1]] == "heading"
    requires forall i :: 0 <= i < k ==> d.tag[d.kids[x][i]] != "num"
    ensures !Qualifies(d, x)
  {
    var v := d.FindChild(x, "num");
    if v.None? { assert false; }
    var j := IndexOf(d.kids[x], v.value);
    if j > k { assert false; }
    if j < k { assert false; }
  }

  /** The tags of the elements `fix_headings` visits. */
  const HostTags: seq<string> := ["part", "chapter", "hcontainer"]

  /** `y` is a `part`, `chapter` or `hcontainer` directly inside a
      `quotedStructure`. */
  predicate Hosted(parent: seq<int>, tag: seq<string>, y: nat)
    requires |parent| == |tag| && y < |tag|
  {
    0 <= parent[y] < |tag| && tag[parent[y]] == "quotedStructure" && tag[y] in HostTags
  }

  /** Fixing one visited element leaves the guard of every other visited
      element as it was: the two are never parent and child, and what the
      fix changes lies within the first one's children and grandchildren. */
  lemma StaysFixed(t1: seq<string>, k1: seq<seq<nat>>, p1: seq<int>,
                   t2: seq<string>, k2: seq<seq<nat>>, p2: seq<int>,
                   attrs: seq<map<string, string>>, x: nat, y: nat)
    requires Linked(p1, k1) && |t1| == |p1| && |t2| == |p1| && |k2| == |p1| && |p2| == |p1|
    requires WellFormed(t1, k1, attrs) && WellFormed(t2, k2, attrs)
    requires x < |t1| && y < |t1| && x != y
    requires Hosted(p1, t1, x) && Hosted(p1, t1, y)
    requires ChangedOnlyAt(t1, k1, p1, t2, k2, p2, x)
    requires !Misplaced(t1, k1, attrs, y)
    ensures !Misplaced(t2, k2, attrs, y)
  {
    forall i | 0 <= i < |k1[y]|
      ensures t2[k1[y][i]] == t1[k1[y][i]] && k2[k1[y][i]] == k1[k1[y][i]]
    {
      LinkedKid(p1, k1, y, k1[y][i]);
    }
    forall i, j | 0 <= i < |k1[y]| && 0 <= j < |k1[k1[y][i]]|
      ensures t2[k1[k1[y][i]][j]] == t1[k1[k1[y][i]][j]]
    {
      var z := k1[y][i];
      LinkedKid(p1, k1, y, z);
      LinkedKid(p1, k1, z, k1[z][j]);
    }
    MisplacedFrame(t1, k1, t2, k2, attrs, y);
  }

  /** Fixing an element renames only `p` elements and moves only `p`
      elements and containers, so every visited element stays a `part`,
      `chapter` or `hcontainer` directly inside a `quotedStructure`. */
  lemma StaysHosted(t1: seq<string>, k1: seq<seq<nat>>, p1: seq<int>,
                    t2: seq<string>, k2: seq<seq<nat>>, p2: seq<int>, x: nat, y: nat)
    requires |k1| == |t1| && |p1| == |t1| && |t2| == |t1| && |k2| == |t1| && |p2| == |t1|
    requires y < |t1| && Hosted(p1, t1, y)
    requires ChangedOnlyAt(t1, k1, p1, t2, k2, p2, x)
    ensures Hosted(p2, t2, y)
  {
    assert t2[y] == t1[y] && p2[y] == p1[y];
    assert t2[p1[y]] == t1[p1[y]];
  }

  /** One turn of the `fix_headings` loop keeps its invariant: every visited
      element is still hosted, and none of the first `i + 1` has a misplaced
      heading. */
  lemma PassStep(t1: seq<string>, k1: seq<seq<nat>>, p1: seq<int>,
                 t2: seq<string>, k2: seq<seq<nat>>, p2: seq<int>,
                 attrs: seq<map<string, string>>, cands: seq<nat>, i: nat)
    requires Linked(p1, k1) && |t1| == |p1| && |t2| == |p1| && |k2| == |p1| && |p2| == |p1|
    requires WellFormed(t1, k1, attrs) && WellFormed(t2, k2, attrs)
    requires forall j :: 0 <= j < |cands| ==> cands[j] < |t1| && Hosted(p1, t1, cands[j])
    requires i < |cands| && forall j :: 0 <= j < i ==> !Misplaced(t1, k1, attrs, cands[j])
    requires ChangedOnlyAt(t1, k1, p1, t2, k2, p2, cands[i]) && !Misplaced(t2, k2, attrs, cands[i])
    ensures forall j :: 0 <= j < |cands| ==> Hosted(p2, t2, cands[j])
    ensures forall j :: 0 <= j < i + 1 ==> !Misplaced(t2, k2, attrs, cands[j])
  {
    AllStayHosted(t1, k1, p1, t2, k2, p2, cands, cands[i]);
    forall j | 0 <= j < i ensures !Misplaced(t2, k2, attrs, cands[j]) {
      if cands[j] != cands[i] {
        StaysFixed(t1, k1, p1, t2, k2, p2, attrs, cands[i], cands[j]);
      }
    }
  }


  /** Fixing `x` keeps every visited element hosted. */
  lemma AllStayHosted(t1: seq<string>, k1: seq<seq<nat>>, p1: seq<int>,
                      t2: seq<string>, k2: seq<seq<nat>>, p2: seq<int>, cands: seq<nat>, x: nat)
    requires |k1| == |t1| && |p1| == |t1| && |t2| == |t1| && |k2| == |t1| && |p2| == |t1|
    requires forall j :: 0 <= j < |cands| ==> cands[j] < |t1| && Hosted(p1, t1, cands[j])
    requires ChangedOnlyAt(t1, k1, p1, t2, k2, p2, x)
    ensures forall j :: 0 <= j < |cands| ==> Hosted(p2, t2, cands[j])
  {
    forall j | 0 <= j < |cands| ensures Hosted(p2, t2, cands[j]) {
      StaysHosted(t1, k1, p1, t2, k2, p2, x, cands[j]);
    }
  }

  /** What a run of `FixHeading` over the visited elements `vs` may change,
      between the tree before (`t0`, `k0`, `p0`) and after (`t`, `k`, `p`):
      the children of the elements of `vs` and of their children, the tag of
      a `p` grandchild, which becomes `heading`, the parent of such a
      grandchild, which becomes the grandparent, and the parent of a
      container child, which is detached. Everything else is as it was. */
  predicate FixedOnlyAt(t0: seq<string>, k0: seq<seq<nat>>, p0: seq<int>,
                        t: seq<string>, k: seq<seq<nat>>, p: seq<int>, vs: set<nat>)
    requires |k0| == |t0| && |p0| == |t0| && |t| == |t0| && |k| == |t0| && |p| == |t0|
  {
    (forall n :: 0 <= n < |t0| && n !in vs && p0[n] !in vs ==> k[n] == k0[n])
    && (forall n :: 0 <= n < |t0| && t[n] != t0[n] ==>
          t0[n] == "p" && t[n] == "heading" && 0 <= p0[n] < |t0| && p0[p0[n]] in vs)
    && (forall n :: 0 <= n < |t0| && p[n] != p0[n] ==>
          (t0[n] == "p" && 0 <= p0[n] < |t0| && p0[p0[n]] in vs && p[n] == p0[p0[n]])
          || (t0[n] in HeadingSlots && p0[n] in vs && p[n] == -1))
  }

  /** A grandchild of a visited element `x` not fixed yet was already its
      grandchild before the earlier fixes: those only moved elements up to a
      visited element, whose parent is a `quotedStructure`, or detached them. */
  lemma GrandchildBefore(t0: seq<string>, k0: seq<seq<nat>>, p0: seq<int>,
                         t1: seq<string>, k1: seq<seq<nat>>, p1: seq<int>, vs: set<nat>, x: nat, n: nat)
    requires |k0| == |t0| && |p0| == |t0| && |t1| == |t0| && |k1| == |t0| && |p1| == |t0|
    requires forall v :: v in vs ==> v < |t0| && Hosted(p1, t1, v)
    requires x < |t0| && Hosted(p1, t1, x) && x !in vs
    requires FixedOnlyAt(t0, k0, p0, t1, k1, p1, vs)
    requires n < |t0| && Grandchild(p1, n, x)
    ensures p1[n] == p0[n] && Grandchild(p0, n, x)
  {
    var c := p1[n];
    if p1[n] != p0[n] {
      assert false;
    }
    if p1[c] != p0[c] {
      assert false;
    }
  }

  /** Fixing one more visited element `x` extends the change the earlier
      fixes made by the change at `x`. */
  lemma FixComposes(t0: seq<string>, k0: seq<seq<nat>>, p0: seq<int>,
                    t1: seq<string>, k1: seq<seq<nat>>, p1: seq<int>,
                    t2: seq<string>, k2: seq<seq<nat>>, p2: seq<int>, vs: set<nat>, x: nat)
    requires |k0| == |t0| && |p0| == |t0| && |t1| == |t0| && |k1| == |t0| && |p1| == |t0|
    requires |t2| == |t0| && |k2| == |t0| && |p2| == |t0|
    requires forall v :: v in vs ==> v < |t0| && Hosted(p1, t1, v)
    requires x < |t0| && Hosted(p1, t1, x)
    requires FixedOnlyAt(t0, k0, p0, t1, k1, p1, vs)
    requires ChangedOnlyAt(t1, k1, p1, t2, k2, p2, x)
    requires x in vs ==> t2 == t1 && k2 == k1 && p2 == p1
    ensures FixedOnlyAt(t0, k0, p0, t2, k2, p2, vs + {x})
  {
    if x !in vs {
      var ws := vs + {x};
      forall n | 0 <= n < |t0| && n !in ws && p0[n] !in ws ensures k2[n] == k0[n] {
        assert p1[n] != x;
      }
      forall n | 0 <= n < |t0| && t2[n] != t0[n]
        ensures t0[n] == "p" && t2[n] == "heading" && 0 <= p0[n] < |t0| && p0[p0[n]] in ws
      {
        if t2[n] != t1[n] {
          GrandchildBefore(t0, k0, p0, t1, k1, p1, vs, x, n);
        }
      }
      forall n | 0 <= n < |t0| && p2[n] != p0[n]
        ensures (t0[n] == "p" && 0 <= p0[n] < |t0| && p0[p0[n]] in ws && p2[n] == p0[p0[n]])
                || (t0[n] in HeadingSlots && p0[n] in ws && p2[n] == -1)
      {
        if p2[n] != p1[n] {
          if t1[n] == "p" && Grandchild(p1, n, x) && p2[n] == x {
            GrandchildBefore(t0, k0, p0, t1, k1, p1, vs, x, n);
          } else {
            assert t1[n] in HeadingSlots && p1[n] == x;
            assert t0[n] == t1[n];
            assert p0[n] == x;
          }
        }
      }
    }
  }

  /** The element test of the XPath query of `fix_headings`, for an
      element `x` strictly inside the `body` element `b`: a child of a
      `quotedStructure` below `b` that is a `part`, a `chapter` or an
      `hcontainer` named `schedule`, and that has a `num` child. */
  predicate IsCandidate(d: Doc, b: nat, x: nat)
    reads d
    requires d.Valid() && x < |d.tag|
  {
    0 <= d.parent[x] && d.parent[x] != b && d.tag[d.parent[x]] == "quotedStructure"
    && (d.tag[x] == "part" || d.tag[x] == "chapter"
        || (d.tag[x] == "hcontainer" && d.Attr(x, "name") == Some("schedule")))
    && d.FindChild(x, "num").Some?
  }

  /** The candidates among `ns`, in their order. */
  function Select(d: Doc, b: nat, ns: seq<nat>): (r: seq<nat>)
    reads d
    requires d.Valid() && forall i :: 0 <= i < |ns| ==> ns[i] < |d.tag|
    ensures forall x :: x in r <==> x in ns && x < |d.tag| && IsCandidate(d, b, x)
  {
    if ns == [] then []
    else (if IsCandidate(d, b, ns[0]) then [ns[0]] else []) + Select(d, b, ns[1..])
  }

  /** The elements the path selects below the `body` children among `bs`,
      in document order. */
  function InBodies(d: Doc, bs: seq<nat>): (r: seq<nat>)
    reads d
    requires d.Valid() && forall i :: 0 <= i < |bs| ==> bs[i] < |d.tag|
    ensures forall x :: x in r ==> x < |d.tag| && Hosted(d.parent, d.tag, x)
    ensures forall j, x ::
      (0 <= j < |bs| && d.tag[bs[j]] == "body" && x in d.Preorder(bs[j])[1..] && IsCandidate(d, bs[j], x))
      ==> x in r
  {
    if bs == [] then []
    else
      var rest := InBodies(d, bs[1..]);
      assert forall j :: 1 <= j < |bs| ==> bs[j] == bs[1..][j - 1];
      if d.tag[bs[0]] == "body" then
        var below := d.Preorder(bs[0])[1..];
        assert forall i :: 0 <= i < |below| ==> below[i] in d.Preorder(bs[0]);
        Select(d, bs[0], below) + rest
      else rest
  }

  /** The elements `fix_headings` visits in `act`. */
  function Candidates(d: Doc, act: nat): (r: seq<nat>)
    reads d
    requires d.Valid() && act < |d.tag|
    ensures forall x :: x in r ==> x < |d.tag| && Hosted(d.parent, d.tag, x)
    ensures forall j, x ::
      (0 <= j < |d.kids[act]| && d.tag[d.kids[act][j]] == "body"
       && x in d.Preorder(d.kids[act][j])[1..] && IsCandidate(d, d.kids[act][j], x))
      ==> x in r
  {
    InBodies(d, d.kids[act])
  }

  /** `fix_headings(act)`: the guard and the fix for each visited element in
      turn. Afterwards no visited element has a misplaced heading, only the
      visited elements and their children and grandchildren were touched,
      and when no visited element qualified nothing changed. */
  method FixHeadings(d: Doc, act: nat)
    requires d.Valid() && act < |d.tag|
    modifies d
    ensures d.Valid() && |d.tag| == old(|d.tag|)
    ensures d.attrs == old(d.attrs) && d.text == old(d.text) && d.tail == old(d.tail)
    ensures forall x :: x in old(Candidates(d, act)) ==> x < |d.tag| && !Qualifies(d, x)
    ensures FixedOnlyAt(old(d.tag), old(d.kids), old(d.parent), d.tag, d.kids, d.parent,
                        Members(old(Candidates(d, act))))
    ensures (forall x :: x in old(Candidates(d, act)) ==> !old(Qualifies(d, x))) ==> unchanged(d)
  {
    var cands := Candidates(d, act);
    FixAll(d, cands);
  }

  /** The loop of `fix_headings` over the visited elements `cands`. */
  method FixAll(d: Doc, cands: seq<nat>)
    requires d.Valid()
    requires forall x :: x in cands ==> x < |d.tag| && Hosted(d.parent, d.tag, x)
    modifies d
    ensures d.Valid() && |d.tag| == old(|d.tag|)
    ensures d.attrs == old(d.attrs) && d.text == old(d.text) && d.tail == old(d.tail)
    ensures forall x :: x in cands ==> x < |d.tag| && !Qualifies(d, x)
    ensures FixedOnlyAt(old(d.tag), old(d.kids), old(d.parent), d.tag, d.kids, d.parent, Members(cands))
    ensures (forall x :: x in cands ==> !old(Qualifies(d, x))) ==> unchanged(d)
  {
    assert forall j :: 0 <= j < |cands| ==> cands[j] in cands;
    ghost var t0, k0, p0 := d.tag, d.kids, d.parent;
    ghost var none := forall x :: x in cands ==> !Qualifies(d, x);
    var i := 0;
    while i < |cands|
      invariant 0 <= i <= |cands|
      invariant d.Valid() && |d.tag| == old(|d.tag|)
      invariant d.attrs == old(d.attrs) && d.text == old(d.text) && d.tail == old(d.tail)
      invariant forall j :: 0 <= j < |cands| ==> cands[j] < |d.tag| && Hosted(d.parent, d.tag, cands[j])
      invariant forall j :: 0 <= j < i ==> !Qualifies(d, cands[j])
      invariant FixedOnlyAt(t0, k0, p0, d.tag, d.kids, d.parent, Members(cands[..i]))
      invariant none ==> unchanged(d)
    {
      assert none ==> !Qualifies(d, cands[i]);
      FixStep(d, cands, i, t0, k0, p0, none);
      i := i + 1;
    }
    FixedAll(t0, k0, p0, d.tag, d.kids, d.parent, cands);
    NoneQualify(d, cands);
  }

  /** Having visited every position is having visited every element. */
  lemma FixedAll(t0: seq<string>, k0: seq<seq<nat>>, p0: seq<int>,
                 t: seq<string>, k: seq<seq<nat>>, p: seq<int>, cands: seq<nat>)
    requires |k0| == |t0| && |p0| == |t0| && |t| == |t0| && |k| == |t0| && |p| == |t0|
    requires FixedOnlyAt(t0, k0, p0, t, k, p, Members(cands[..|cands|]))
    ensures FixedOnlyAt(t0, k0, p0, t, k, p, Members(cands))
  {
    assert cands[..|cands|] == cands;
  }

  /** No visited element qualifies, said of the elements instead of their
      positions. */
  lemma NoneQualify(d: Doc, cands: seq<nat>)
    requires d.Valid() && forall j :: 0 <= j < |cands| ==> cands[j] < |d.tag| && !Qualifies(d, cands[j])
    ensures forall x :: x in cands ==> x < |d.tag| && !Qualifies(d, x)
  {
    forall x | x in cands ensures x < |d.tag| && !Qualifies(d, x) {
      var j :| 0 <= j < |cands| && cands[j] == x;
    }
  }

  /** One turn of the `fix_headings` loop, on the `i`-th visited element. */
  method FixStep(d: Doc, cands: seq<nat>, i: nat, ghost t0: seq<string>, ghost k0: seq<seq<nat>>,
                 ghost p0: seq<int>, ghost none: bool)
    requires d.Valid() && i < |cands| && |t0| == |d.tag| && |k0| == |t0| && |p0| == |t0|
    requires forall j :: 0 <= j < |cands| ==> cands[j] < |d.tag| && Hosted(d.parent, d.tag, cands[j])
    requires forall j :: 0 <= j < i ==> !Qualifies(d, cands[j])
    requires FixedOnlyAt(t0, k0, p0, d.tag, d.kids, d.parent, Members(cands[..i]))
    requires none ==> !Qualifies(d, cands[i])
    modifies d
    ensures d.Valid() && |d.tag| == old(|d.tag|)
    ensures d.attrs == old(d.attrs) && d.text == old(d.text) && d.tail == old(d.tail)
    ensures forall j :: 0 <= j < |cands| ==> cands[j] < |d.tag| && Hosted(d.parent, d.tag, cands[j])
    ensures forall j :: 0 <= j < i + 1 ==> !Qualifies(d, cands[j])
    ensures FixedOnlyAt(t0, k0, p0, d.tag, d.kids, d.parent, Members(cands[..i + 1]))
    ensures none ==> unchanged(d)
  {
    var x := cands[i];
    ghost var t1, k1, p1 := d.tag, d.kids, d.parent;
    ghost var vs := Members(cands[..i]);
    assert x in vs ==> !Qualifies(d, x);
    var fixed := FixHeading(d, x);
    PassStep(t1, k1, p1, d.tag, d.kids, d.parent, d.attrs, cands, i);
    FixComposes(t0, k0, p0, t1, k1, p1, d.tag, d.kids, d.parent, vs, x);
    VisitedNext(cands, i);
  }

  /** The elements of `s`. */
  function Members(s: seq<nat>): (r: set<nat>)
    ensures forall j :: 0 <= j < |s| ==> s[j] in r
    ensures forall x :: x in r ==> x in s
  {
    set x | x in s
  }

  /** Visiting one more element adds it to the visited ones. */
  lemma VisitedNext(cands: seq<nat>, i: nat)
    requires i < |cands|
    ensures Members(cands[..i + 1]) == Members(cands[..i]) + {cands[i]}
  {
    assert cands[..i + 1] == cands[..i] + [cands[i]];
  }
}
