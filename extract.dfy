/** `extract_raw_provisions` and `make_container` of `eisb_provisions.py`:
    the first pass over a `<sect>`, which turns each `<p>` or `<table>`
    child into provisions and builds their elements. The elements are
    created in an arena (`DocTree.Doc`); the decisions are the pure
    functions of `Provisions`, and each provision is proved to be the one
    those functions describe. */
module Extraction {
  import opened Wrappers
  import opened Text
  import opened DocTree
  import opened Provisions

  /** What an arena holds at one moment, less its links upwards. */
  datatype Arena = Arena(tag: seq<string>, attrs: seq<map<string, string>>, text: seq<Option<string>>, kids: seq<seq<nat>>)

  function Snap(d: Doc): (a: Arena)
    reads d
  {
    Arena(d.tag, d.attrs, d.text, d.kids)
  }

  predicate Sized(a: Arena) {
    |a.attrs| == |a.tag| && |a.text| == |a.tag| && |a.kids| == |a.tag|
  }

  /** `b` has every element of `a`, unchanged, and possibly more. */
  predicate Grows(a: Arena, b: Arena) {
    Sized(a) && Sized(b) && |a.tag| <= |b.tag|
    && b.tag[..|a.tag|] == a.tag && b.attrs[..|a.tag|] == a.attrs
    && b.text[..|a.tag|] == a.text && b.kids[..|a.tag|] == a.kids
  }

  lemma GrowsTrans(a: Arena, b: Arena, c: Arena)
    requires Grows(a, b) && Grows(b, c)
    ensures Grows(a, c)
  {
    assert c.tag[..|a.tag|] == c.tag[..|b.tag|][..|a.tag|];
    assert c.attrs[..|a.tag|] == c.attrs[..|b.tag|][..|a.tag|];
    assert c.text[..|a.tag|] == c.text[..|b.tag|][..|a.tag|];
    assert c.kids[..|a.tag|] == c.kids[..|b.tag|][..|a.tag|];
  }

  /** Changing the text or the children of a new element keeps what grew. */
  lemma GrowsPast(a: Arena, b: Arena, c: Arena, n: nat)
    requires Grows(a, b) && |a.tag| <= n < |b.tag|
    requires c.tag == b.tag && c.attrs == b.attrs && |c.text| == |b.text| && |c.kids| == |b.kids|
    requires c.text == b.text[n := c.text[n]] && c.kids == b.kids[n := c.kids[n]]
    ensures Grows(a, c)
  {
    assert c.text[..|a.tag|] == b.text[..|a.tag|];
    assert c.kids[..|a.tag|] == b.kids[..|a.tag|];
  }

  /** The attributes `make_container` keeps: those whose value is not `None`. */
  function SafeAttribs(m: map<string, Option<string>>): (r: map<string, string>)
    ensures forall k :: k in r <==> k in m && m[k].Some?
    ensures forall k :: k in r ==> r[k] == m[k].value
  {
    map k | k in m && m[k].Some? :: m[k].value
  }

  /** The attributes of a container with the given eId. */
  function EIdAttribs(eid: Option<string>): map<string, Option<string>> {
    map[EId := eid]
  }

  /** The element `x` of `a` is what `shape` describes. */
  predicate Shows(a: Arena, x: nat, shape: XmlShape)
    requires Sized(a)
  {
    x < |a.tag| &&
    match shape
    case NoXml => false
    case PElement(body) => a.tag[x] == "p" && a.text[x] == body
    case TableElement => a.tag[x] == "table"
    case ContainerElement(t, num, eid) =>
      a.tag[x] == t && a.attrs[x] == SafeAttribs(EIdAttribs(eid)) && a.text[x] == None
      && match num
         case None => a.kids[x] == []
         case Some(s) =>
           |a.kids[x]| == 1 && a.kids[x][0] < |a.tag| && a.tag[a.kids[x][0]] == "num" && a.text[a.kids[x][0]] == Some(s)
  }

  /** Provision `p` is the row `r` with its element built in `a`. */
  predicate Realises(a: Arena, p: Provision, r: Row)
    requires Sized(a)
  {
    p.tag == r.tag && p.eid == r.eid && p.ins == r.ins && p.hang == r.hang && p.margin == r.margin
    && p.align == r.align && p.text == r.text
    && (p.xml.None? <==> r.xml.NoXml?)
    && (p.xml.Some? ==> Shows(a, p.xml.value, r.xml))
  }

  /** Every provision of `ps` realises its row, and they are numbered from `idx`. */
  predicate RealisesAll(a: Arena, ps: seq<Provision>, rows: seq<Row>, idx: int)
    requires Sized(a)
  {
    |ps| == |rows| && forall k :: 0 <= k < |ps| ==> Realises(a, ps[k], rows[k]) && ps[k].idx == idx + k
  }

  lemma RealisesGrows(a: Arena, b: Arena, p: Provision, r: Row)
    requires Grows(a, b) && Realises(a, p, r)
    ensures Realises(b, p, r)
  {
    if p.xml.Some? {
      var x := p.xml.value;
      assert b.tag[x] == a.tag[x] && b.attrs[x] == a.attrs[x] && b.text[x] == a.text[x] && b.kids[x] == a.kids[x]
      by {
        assert b.tag[..|a.tag|][x] == b.tag[x];
        assert b.attrs[..|a.tag|][x] == b.attrs[x];
        assert b.text[..|a.tag|][x] == b.text[x];
        assert b.kids[..|a.tag|][x] == b.kids[x];
      }
      if r.xml.ContainerElement? && r.xml.num.Some? {
        var n := a.kids[x][0];
        assert b.tag[..|a.tag|][n] == b.tag[n];
        assert b.text[..|a.tag|][n] == b.text[n];
      }
    }
  }

  lemma RealisesAllGrows(a: Arena, b: Arena, ps: seq<Provision>, rows: seq<Row>, idx: int)
    requires Grows(a, b) && RealisesAll(a, ps, rows, idx)
    ensures RealisesAll(b, ps, rows, idx)
  {
    forall k | 0 <= k < |ps| ensures Realises(b, ps[k], rows[k]) {
      RealisesGrows(a, b, ps[k], rows[k]);
    }
  }

  lemma RealisesAllConcat(a: Arena, ps: seq<Provision>, r1: seq<Row>, qs: seq<Provision>, r2: seq<Row>, idx: int)
    requires Sized(a) && RealisesAll(a, ps, r1, idx) && RealisesAll(a, qs, r2, idx + |ps|)
    ensures RealisesAll(a, ps + qs, r1 + r2, idx)
  {
    var s, r := ps + qs, r1 + r2;
    forall k | 0 <= k < |s| ensures Realises(a, s[k], r[k]) && s[k].idx == idx + k {
      if k >= |ps| {
        assert s[k] == qs[k - |ps|] && r[k] == r2[k - |ps|];
      }
    }
  }

  /** `parse_p(node)`: the node becomes a LegalDocML `<p>`. Only its tag
      and its text are modelled. */
  method ParseP(d: Doc, node: Para) returns (e: nat)
    requires d.Valid()
    modifies d
    ensures d.Valid() && e == old(|d.tag|) && Grows(old(Snap(d)), Snap(d))
    ensures |d.tag| == e + 1 && d.tag[e] == "p" && d.text[e] == node.text && d.parent[e] == -1
  {
    e := d.NewElement("p");
    d.SetText(e, node.text);
  }

  /** `parse_table(node)`: the node becomes a LegalDocML table. Only its
      tag is modelled. */
  method ParseTable(d: Doc, node: Para) returns (e: nat)
    requires d.Valid()
    modifies d
    ensures d.Valid() && e == old(|d.tag|) && Grows(old(Snap(d)), Snap(d))
    ensures |d.tag| == e + 1 && d.tag[e] == "table" && d.parent[e] == -1
  {
    e := d.NewElement("table");
  }

  /** What goes inside a container's `num`: a text or an element. */
  datatype NumArg = NumText(s: string) | NumElem(e: nat)

  /** `E.num(num)`: a fresh, parentless `num` holding the text or the element. */
  method MakeNum(d: Doc, num: NumArg) returns (n: nat)
    requires d.Valid()
    requires num.NumElem? ==> num.e < |d.tag|
    modifies d
    ensures d.Valid() && n == old(|d.tag|) && |d.tag| == n + 1
    ensures d.tag[n] == "num" && d.parent[n] == -1 && d.Chain(n) == {n}
    ensures d.text[n] == (if num.NumText? then Some(num.s) else None)
    ensures d.kids[n] == (if num.NumElem? then [num.e] else [])
    ensures d.tag[..n] == old(d.tag) && d.attrs[..n] == old(d.attrs) && d.text[..n] == old(d.text)
    ensures num.NumText? ==> Grows(old(Snap(d)), Snap(d))
    ensures num.NumElem? ==> forall x :: 0 <= x < n && x != old(d.parent[num.e]) ==> d.kids[x] == old(d.kids[x])
    ensures forall x :: 0 <= x < n && (num.NumText? || x != num.e) ==> d.parent[x] == old(d.parent[x])
  {
    n := d.NewElement("num");
    match num {
      case NumText(s) =>
        d.SetText(n, Some(s));
      case NumElem(e) =>
        assert e !in d.Chain(n);
        var ok := d.Append(n, e);
        assert ok;
        assert d.Chain(n) == {n};
    }
  }

  /** A fresh element with the given attributes. */
  method NewWithAttribs(d: Doc, t: string, attribs: map<string, string>) returns (c: nat)
    requires d.Valid()
    modifies d
    ensures d.Valid() && c == old(|d.tag|) && Grows(old(Snap(d)), Snap(d))
    ensures d.tag == old(d.tag) + [t] && d.attrs[c] == attribs && d.text[c] == None && d.kids[c] == []
    ensures d.parent == old(d.parent) + [-1] && d.Chain(c) == {c}
  {
    c := d.NewElement(t);
    d.attrs := d.attrs[c := attribs];
  }

  /** `make_container(tag, num, heading, attribs)`: a fresh element with
      the attributes whose value is not `None`, then the heading, if any,
      and then a `num` holding `num`, if any. */
  method MakeContainer(d: Doc, t: string, num: Option<NumArg>, heading: Option<nat>, attribs: map<string, Option<string>>)
    returns (c: nat)
    requires d.Valid()
    requires heading.Some? ==> heading.value < |d.tag|
    requires num.Some? && num.value.NumElem? ==> num.value.e < |d.tag|
    requires heading.Some? && num.Some? && num.value.NumElem? ==> heading.value != num.value.e
    modifies d
    ensures d.Valid() && c == old(|d.tag|) && |d.tag| == c + (if num.Some? then 2 else 1)
    ensures d.tag[c] == t && d.attrs[c] == SafeAttribs(attribs) && d.text[c] == None && d.parent[c] == -1
    ensures d.kids[c] == (if heading.Some? then [heading.value] else []) + (if num.Some? then [c + 1] else [])
    ensures num.Some? ==> d.tag[c + 1] == "num" && d.parent[c + 1] == c
    ensures num.Some? ==> d.text[c + 1] == (if num.value.NumText? then Some(num.value.s) else None)
    ensures num.Some? ==> d.kids[c + 1] == (if num.value.NumElem? then [num.value.e] else [])
    ensures d.tag[..c] == old(d.tag) && d.attrs[..c] == old(d.attrs) && d.text[..c] == old(d.text)
    ensures heading.None? && (num.None? || num.value.NumText?) ==> Grows(old(Snap(d)), Snap(d))
  {
    ghost var a0 := Snap(d);
    c := NewWithAttribs(d, t, SafeAttribs(attribs));
    if heading.Some? {
      AppendHeading(d, c, heading.value);
    }
    if num.Some? {
      ghost var a1 := Snap(d);
      AddNum(d, c, num.value);
      if heading.None? && num.value.NumText? {
        assert d.kids[..c] == a1.kids[..c] == a0.kids;
        assert d.tag[..c] == a0.tag && d.attrs[..c] == a0.attrs && d.text[..c] == a0.text;
      }
    }
  }

  /** `container.append(E.num(num))` on a parentless container that is
      the last element and does not hold the element `num` names. */
  method AddNum(d: Doc, c: nat, num: NumArg)
    requires d.Valid() && c + 1 == |d.tag| && d.parent[c] == -1 && d.Chain(c) == {c}
    requires num.NumElem? ==> num.e < c && num.e !in d.kids[c]
    modifies d
    ensures d.Valid() && |d.tag| == c + 2 && d.kids[c] == old(d.kids[c]) + [c + 1] && d.parent[c] == -1
    ensures d.tag[..c + 1] == old(d.tag) && d.attrs[..c + 1] == old(d.attrs) && d.text[..c + 1] == old(d.text)
    ensures d.tag[c + 1] == "num" && d.parent[c + 1] == c
    ensures d.text[c + 1] == (if num.NumText? then Some(num.s) else None)
    ensures d.kids[c + 1] == (if num.NumElem? then [num.e] else [])
    ensures num.NumText? ==> d.kids[..c] == old(d.kids[..c])
  {
    ghost var k0 := d.kids;
    var n := MakeNum(d, num);
    ghost var k1 := d.kids;
    AppendFresh(d, c, n);
    if num.NumText? {
      assert k1[..c + 1] == k0;
      assert d.kids[..c] == k1[..c];
    }
  }

  /** `c.append(h)` for a childless, parentless `c` that is not `h`. */
  method AppendHeading(d: Doc, c: nat, h: nat)
    requires d.Valid() && c < |d.tag| && h < |d.tag| && h != c
    requires d.kids[c] == [] && d.parent[c] == -1
    modifies d
    ensures d.tag == old(d.tag) && d.attrs == old(d.attrs) && d.text == old(d.text)
    ensures d.Valid() && d.kids[c] == [h] && d.parent[c] == -1 && d.Chain(c) == {c}
  {
    assert d.Chain(c) == {c};
    var ok := d.Append(c, h);
    assert ok;
  }

  /** `c.append(n)` for a parentless `n` outside the chain of `c`: only the
      children of `c` change. */
  method AppendFresh(d: Doc, c: nat, n: nat)
    requires d.Valid() && c < |d.tag| && n < |d.tag| && d.parent[n] == -1 && n !in d.Chain(c)
    modifies d
    ensures d.Valid() && d.kids == old(d.kids)[c := old(d.kids[c]) + [n]] && d.parent[n] == c
    ensures forall x :: 0 <= x < |d.tag| && x != n ==> d.parent[x] == old(d.parent[x])
    ensures d.tag == old(d.tag) && d.attrs == old(d.attrs) && d.text == old(d.text)
  {
    assert n !in d.kids[c];
    ghost var k0 := d.kids;
    var ok := d.Append(c, n);
    assert ok;
    assert |d.kids| == |k0|;
    forall x | 0 <= x < |d.kids|
      ensures d.kids[x] == k0[c := k0[c] + [n]][x]
    {
    }
  }

  // ---------------------------------------------------------------------
  // extract_raw_provisions

  /** The elements of `ps` are new since `lo`, exist below `hi`, and come
      in the order the provisions do: no two provisions share one. */
  predicate Fresh(ps: seq<Provision>, lo: nat, hi: nat) {
    (forall k :: 0 <= k < |ps| && ps[k].xml.Some? ==> lo <= ps[k].xml.value < hi)
    && (forall j, k :: 0 <= j < k < |ps| && ps[j].xml.Some? && ps[k].xml.Some? ==> ps[j].xml.value < ps[k].xml.value)
  }

  lemma FreshConcat(ps: seq<Provision>, qs: seq<Provision>, lo: nat, mid: nat, hi: nat)
    requires Fresh(ps, lo, mid) && Fresh(qs, mid, hi) && lo <= mid <= hi
    ensures Fresh(ps + qs, lo, hi)
  {
    var r := ps + qs;
    forall k | 0 <= k < |r| && r[k].xml.Some? ensures lo <= r[k].xml.value < hi {
      if k < |ps| { assert r[k] == ps[k]; } else { assert r[k] == qs[k - |ps|]; }
    }
    forall j, k | 0 <= j < k < |r| && r[j].xml.Some? && r[k].xml.Some?
      ensures r[j].xml.value < r[k].xml.value
    {
      if k >= |ps| && j < |ps| {
        assert r[j] == ps[j] && r[k] == qs[k - |ps|];
      }
    }
  }

  lemma FreshNone(ps: seq<Provision>, q: Provision, lo: nat, hi: nat)
    requires Fresh(ps, lo, hi) && q.xml.None?
    ensures Fresh(ps + [q], lo, hi)
  {
    var r := ps + [q];
    forall k | 0 <= k < |r| && r[k].xml.Some? ensures r[k] == ps[k] { }
  }

  /** Provisions realised in `a1` followed by provisions built from `a1`
      to `a2` realise the concatenated rows in `a2`. */
  lemma StepRealises(a0: Arena, a1: Arena, a2: Arena, ps: seq<Provision>, qs: seq<Provision>,
                     r1: seq<Row>, r2: seq<Row>, idx: int)
    requires Grows(a0, a1) && Grows(a1, a2)
    requires Fresh(ps, |a0.tag|, |a1.tag|) && Fresh(qs, |a1.tag|, |a2.tag|)
    requires RealisesAll(a1, ps, r1, idx) && RealisesAll(a2, qs, r2, idx + |ps|)
    ensures Grows(a0, a2) && Fresh(ps + qs, |a0.tag|, |a2.tag|)
    ensures RealisesAll(a2, ps + qs, r1 + r2, idx)
  {
    GrowsTrans(a0, a1, a2);
    FreshConcat(ps, qs, |a0.tag|, |a1.tag|, |a2.tag|);
    RealisesAllGrows(a1, a2, ps, r1, idx);
    RealisesAllConcat(a2, ps, r1, qs, r2, idx);
  }

  /** A provision without an element, such as the `quoteend`, after
      provisions that realise `rows`. */
  lemma QuoteStep(a: Arena, ps: seq<Provision>, rows: seq<Row>, q: Provision, r: Row, idx: int, lo: nat)
    requires Sized(a) && RealisesAll(a, ps, rows, idx) && Fresh(ps, lo, |a.tag|)
    requires q.xml.None? && Realises(a, q, r) && q.idx == idx + |ps|
    ensures Fresh(ps + [q], lo, |a.tag|) && RealisesAll(a, ps + [q], rows + [r], idx)
  {
    FreshNone(ps, q, lo, |a.tag|);
    RealisesOne(a, q, r, idx + |ps|);
    RealisesAllConcat(a, ps, rows, [q], [r], idx);
  }

  /** One provision that realises its row. */
  lemma RealisesOne(a: Arena, q: Provision, r: Row, k: int)
    requires Sized(a) && Realises(a, q, r) && q.idx == k
    ensures RealisesAll(a, [q], [r], k)
  {
  }

  /** The rows of one more node. */
  lemma AllRowsStep(ns: seq<Para>, i: nat)
    requires i < |ns|
    ensures AllRows(ns[..i + 1]) == AllRows(ns[..i]) + NodeRows(ns[i], false).0
  {
    assert ns[..i + 1][..i] == ns[..i];
  }

  /** The container a structural row describes. */
  method BuildContainer(d: Doc, r: Row) returns (x: nat)
    requires d.Valid() && r.xml.ContainerElement?
    modifies d
    ensures d.Valid() && Grows(old(Snap(d)), Snap(d)) && x == old(|d.tag|) && x < |d.tag|
    ensures Shows(Snap(d), x, r.xml)
  {
    var num := if r.xml.num.Some? then Some(NumText(r.xml.num.value)) else None;
    x := MakeContainer(d, r.xml.ctag, num, None, EIdAttribs(r.xml.ceid));
  }

  /** The provisions of one `<p>` or `<table>`, numbered from `idx`: a
      table or an empty paragraph is one provision; any other paragraph
      is its structural container, if it has one, the paragraph itself as
      a `tblock`, and a `quoteend` when it closes a quotation. */
  method EmitNode(d: Doc, p: Para, isHuw: bool, idx: int) returns (ps: seq<Provision>, huw: bool)
    requires d.Valid()
    modifies d
    ensures d.Valid() && Grows(old(Snap(d)), Snap(d)) && Fresh(ps, old(|d.tag|), |d.tag|)
    ensures huw == NodeRows(p, isHuw).2 && RealisesAll(Snap(d), ps, NodeRows(p, isHuw).0, idx)
  {
    if p.tag == "table" || Strip(AllText(p)) == [] {
      SingleRow(p, isHuw);
      ps := EmitSingle(d, p, GetTextLayout(p.cls), Strip(AllText(p)), idx);
      huw := isHuw;
    } else {
      var (dec, node) := Classify(p, isHuw);
      ps := EmitParagraph(d, dec, GetTextLayout(p.cls), Strip(AllText(p)), node, idx);
      huw := dec.isHuw;
    }
  }

  /** A table, or a paragraph with no text: one provision. */
  method EmitSingle(d: Doc, p: Para, l: Layout, text: string, idx: int) returns (ps: seq<Provision>)
    requires d.Valid()
    modifies d
    ensures d.Valid() && Grows(old(Snap(d)), Snap(d)) && Fresh(ps, old(|d.tag|), |d.tag|)
    ensures RealisesAll(Snap(d), ps, [SingleRowOf(p.tag == "table", l, text, p.text)], idx)
  {
    var x;
    if p.tag == "table" {
      x := ParseTable(d, p);
      ps := [Provision("table", None, false, l.hang, l.margin, l.align, Some(x), Some(text), idx)];
    } else {
      x := ParseP(d, p);
      ps := [Provision("tblock", None, false, l.hang, l.margin, l.align, Some(x), Some(text), idx)];
    }
  }

  /** The provisions of a paragraph with text, given the decision about
      it: its structural container, if any, the paragraph itself, and the
      `quoteend` when it closes a quotation. */
  method EmitParagraph(d: Doc, dec: Decision, l: Layout, text: string, node: Para, idx: int) returns (ps: seq<Provision>)
    requires d.Valid()
    requires dec.structural.Some? ==> dec.structural.value.xml.ContainerElement?
    modifies d
    ensures d.Valid() && Grows(old(Snap(d)), Snap(d)) && Fresh(ps, old(|d.tag|), |d.tag|)
    ensures RealisesAll(Snap(d), ps, ParagraphRows(dec, l, text, node.text), idx)
  {
    ghost var a0 := Snap(d);
    ps := [];
    if dec.structural.Some? {
      var r := dec.structural.value;
      var c := BuildContainer(d, r);
      ps := [Provision(r.tag, r.eid, r.ins, r.hang, r.margin, r.align, Some(c), r.text, idx)];
    }
    assert RealisesAll(Snap(d), ps, StructuralRows(dec), idx);
    ghost var a1 := Snap(d);
    var e := ParseP(d, node);
    var t := Provision("tblock", None, false, l.hang, l.margin, l.align, Some(e), Some(text), idx + |ps|);
    assert RealisesAll(Snap(d), [t], [TblockRow(l, text, node.text)], idx + |ps|);
    StepRealises(a0, a1, Snap(d), ps, [t], StructuralRows(dec), [TblockRow(l, text, node.text)], idx);
    ps := ps + [t];
    if ClosesQuote(text) {
      var q := Provision("quoteend", None, true, l.hang, l.margin, l.align, None, Some(LastTwo(text)), idx + |ps|);
      var r := Row("quoteend", None, true, l.hang, l.margin, l.align, Some(LastTwo(text)), NoXml);
      assert QuoteRows(l, text) == [r];
      QuoteStep(Snap(d), ps, StructuralRows(dec) + [TblockRow(l, text, node.text)], q, r, idx, |a0.tag|);
      ps := ps + [q];
    } else {
      assert StructuralRows(dec) + [TblockRow(l, text, node.text)] == ParagraphRows(dec, l, text, node.text);
    }
  }

  /** `sect.xpath("./p|./table")`: the `<p>` and `<table>` children, in order. */
  function PTableChildren(cs: seq<Para>): (r: seq<Para>)
    ensures forall k :: 0 <= k < |r| ==> r[k].tag == "p" || r[k].tag == "table"
    ensures forall c :: c in cs && (c.tag == "p" || c.tag == "table") ==> c in r
    ensures forall c :: c in r ==> c in cs
  {
    if cs == [] then []
    else (if cs[0].tag == "p" || cs[0].tag == "table" then [cs[0]] else []) + PTableChildren(cs[1..])
  }

  /** Each `<p>` or `<table>` child is selected as often as it occurs, and
      nothing else is. */
  lemma {:induction false} PTableChildrenCount(cs: seq<Para>, c: Para)
    ensures multiset(PTableChildren(cs))[c] == if c.tag == "p" || c.tag == "table" then multiset(cs)[c] else 0
    decreases |cs|
  {
    if cs != [] {
      PTableChildrenCount(cs[1..], c);
      CountCons(cs, PTableChildren(cs[1..]), c);
    }
  }

  /** The count step of the lemma above, for a rest already counted. */
  lemma CountCons(cs: seq<Para>, rest: seq<Para>, c: Para)
    requires cs != []
    requires multiset(rest)[c] == if c.tag == "p" || c.tag == "table" then multiset(cs[1..])[c] else 0
    ensures var h := if cs[0].tag == "p" || cs[0].tag == "table" then [cs[0]] else [];
      multiset(h + rest)[c] == if c.tag == "p" || c.tag == "table" then multiset(cs)[c] else 0
  {
    assert cs == [cs[0]] + cs[1..];
  }

  /** Selection keeps document order: the children of a concatenation are
      the children of the first part followed by those of the second. */
  lemma {:induction false} PTableChildrenAppend(a: seq<Para>, b: seq<Para>)
    ensures PTableChildren(a + b) == PTableChildren(a) + PTableChildren(b)
    decreases |a|
  {
    if a != [] {
      var h := if a[0].tag == "p" || a[0].tag == "table" then [a[0]] else [];
      assert (a + b)[0] == a[0] && (a + b)[1..] == a[1..] + b;
      assert PTableChildren(a + b) == h + PTableChildren(a[1..] + b);
      assert PTableChildren(a) == h + PTableChildren(a[1..]);
      PTableChildrenAppend(a[1..], b);
      ConcatAssoc(h, PTableChildren(a[1..]), PTableChildren(b));
    } else {
      assert a + b == b;
    }
  }

  lemma ConcatAssoc(h: seq<Para>, x: seq<Para>, y: seq<Para>)
    ensures h + (x + y) == (h + x) + y
  {
  }

  /** A run of `<p>` and `<table>` children is selected whole. */
  lemma {:induction false} PTableChildrenAll(cs: seq<Para>)
    requires forall k :: 0 <= k < |cs| ==> cs[k].tag == "p" || cs[k].tag == "table"
    ensures PTableChildren(cs) == cs
    decreases |cs|
  {
    if cs != [] {
      PTableChildrenAll(cs[1..]);
    }
  }

  /** The rows of a run of nodes, one node after the other. Because the
      `huw` flag never rises, every node is classified with it down. */
  function AllRows(ns: seq<Para>): seq<Row> {
    if ns == [] then [] else AllRows(ns[..|ns| - 1]) + NodeRows(ns[|ns| - 1], false).0
  }

  /** `extract_raw_provisions(sect, patterns)`: every `<p>` and `<table>`
      child in order, each giving the provisions its rows describe, with
      `idx` counting 0, 1, 2, ... and every element new. */
  method ExtractRawProvisions(d: Doc, children: seq<Para>) returns (ps: seq<Provision>)
    requires d.Valid()
    modifies d
    ensures d.Valid() && Grows(old(Snap(d)), Snap(d)) && Fresh(ps, old(|d.tag|), |d.tag|)
    ensures RealisesAll(Snap(d), ps, AllRows(PTableChildren(children)), 0)
  {
    ps := ExtractNodes(d, PTableChildren(children));
  }

  /** The loop of `extract_raw_provisions` over the `<p>` and `<table>`
      children. */
  method ExtractNodes(d: Doc, nodes: seq<Para>) returns (ps: seq<Provision>)
    requires d.Valid()
    modifies d
    ensures d.Valid() && Grows(old(Snap(d)), Snap(d)) && Fresh(ps, old(|d.tag|), |d.tag|)
    ensures RealisesAll(Snap(d), ps, AllRows(nodes), 0)
  {
    ghost var a0 := Snap(d);
    ps := [];
    var isHuw := false;
    var idxCounter := 0;
    var i := 0;
    while i < |nodes|
      invariant 0 <= i <= |nodes| && d.Valid() && Grows(a0, Snap(d)) && |a0.tag| <= |d.tag|
      invariant !isHuw && idxCounter == |ps| && Fresh(ps, |a0.tag|, |d.tag|)
      invariant RealisesAll(Snap(d), ps, AllRows(nodes[..i]), 0)
    {
      var out, h := ExtractOne(d, nodes, i, ps, isHuw, idxCounter, a0);
      ps := ps + out;
      isHuw := h;
      idxCounter := idxCounter + |out|;
      i := i + 1;
    }
    assert nodes[..i] == nodes;
  }

  /** One turn of the loop: the provisions of node `i`, numbered on from
      the ones before. */
  method ExtractOne(d: Doc, nodes: seq<Para>, i: nat, ps: seq<Provision>, isHuw: bool, idx: int, ghost a0: Arena)
    returns (out: seq<Provision>, huw: bool)
    requires d.Valid() && i < |nodes| && !isHuw && idx == |ps| && Grows(a0, Snap(d))
    requires Fresh(ps, |a0.tag|, |d.tag|) && RealisesAll(Snap(d), ps, AllRows(nodes[..i]), 0)
    modifies d
    ensures d.Valid() && Grows(a0, Snap(d)) && !huw
    ensures Fresh(ps + out, |a0.tag|, |d.tag|) && RealisesAll(Snap(d), ps + out, AllRows(nodes[..i + 1]), 0)
  {
    ghost var a1 := Snap(d);
    out, huw := EmitNode(d, nodes[i], isHuw, idx);
    NodeRowsKeepHuwDown(nodes[i]);
    StepRealises(a0, a1, Snap(d), ps, out, AllRows(nodes[..i]), NodeRows(nodes[i], false).0, 0);
    AllRowsStep(nodes, i);
  }
}
