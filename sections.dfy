/** `process_amendments_and_build` and `parse_section` of
    `eisb_provisions.py`: the second pass, which runs the amendment parser
    over a section's raw provisions and assembles the list the hierarchy
    builder receives, headed by the section's own container. */
module Sections {
  import opened Wrappers
  import opened Text
  import opened DocTree
  import opened Provisions
  import opened Extraction
  import opened Amendments
  import opened Patterns

  /** `Provision("mod_block", None, True, prov.hang, prov.margin,
      prov.align, data, None, prov.idx)`: a finished mod in the place of
      the provision that completed it. */
  function ModBlock(prov: Provision, e: nat): Provision {
    Provision("mod_block", None, true, prov.hang, prov.margin, prov.align, Some(e), None, prov.idx)
  }

  /** What the driver emits for one provision, given what `process`
      reported and whether an inline mod found a host. */
  function Emitted(prov: Provision, s: Status, placed: bool): seq<Provision> {
    match s
    case Consumed => []
    case Unconsumed(p) => [p]
    case CompletedBlock(b) => [ModBlock(prov, b)]
    case CompletedInline(m) => if placed then [] else [ModBlock(prov, m)]
  }

  /** What the driver emits for `raw`, in order. */
  function Output(raw: seq<Provision>, sts: seq<Status>, placed: seq<bool>): seq<Provision>
    requires |sts| == |raw| && |placed| == |raw|
  {
    if raw == [] then []
    else
      var n := |raw| - 1;
      Output(raw[..n], sts[..n], placed[..n]) + Emitted(raw[n], sts[n], placed[n])
  }

  /** The only provisions handed back are the ones given. */
  predicate Forwards(raw: seq<Provision>, sts: seq<Status>)
    requires |sts| == |raw|
  {
    forall i :: 0 <= i < |raw| && sts[i].Unconsumed? ==> sts[i].p == raw[i]
  }

  /** One more provision through the driver. */
  lemma OutputStep(raw: seq<Provision>, sts: seq<Status>, placed: seq<bool>, i: nat, st: Status, attached: bool)
    requires i < |raw| && |sts| == i && |placed| == i && Forwards(raw[..i], sts)
    requires st.Unconsumed? ==> st.p == raw[i]
    ensures Forwards(raw[..i + 1], sts + [st])
    ensures Output(raw[..i + 1], sts + [st], placed + [attached])
      == Output(raw[..i], sts, placed) + Emitted(raw[i], st, attached)
  {
    assert raw[..i + 1][..i] == raw[..i];
    assert (sts + [st])[..i] == sts;
    assert (placed + [attached])[..i] == placed;
  }

  predicate IdxIncreasing(ps: seq<Provision>) {
    forall j, k :: 0 <= j < k < |ps| ==> ps[j].idx < ps[k].idx
  }

  predicate IdxWithin(ps: seq<Provision>, lo: int, hi: int) {
    forall k :: 0 <= k < |ps| ==> lo < ps[k].idx < hi
  }

  /** Every emitted provision carries the `idx` of a raw provision, so
      bounds on those hold for the output too. */
  lemma {:induction false} OutputIdxWithin(raw: seq<Provision>, sts: seq<Status>, placed: seq<bool>, lo: int, hi: int)
    requires |sts| == |raw| && |placed| == |raw| && Forwards(raw, sts) && IdxWithin(raw, lo, hi)
    ensures IdxWithin(Output(raw, sts, placed), lo, hi)
  {
    if raw != [] {
      var n := |raw| - 1;
      OutputIdxWithin(raw[..n], sts[..n], placed[..n], lo, hi);
    }
  }

  /** The driver keeps the order of the raw provisions: when their `idx`
      increase, so do those of the provisions it emits. */
  lemma {:induction false} OutputKeepsOrder(raw: seq<Provision>, sts: seq<Status>, placed: seq<bool>)
    requires |sts| == |raw| && |placed| == |raw| && Forwards(raw, sts) && IdxIncreasing(raw)
    ensures IdxIncreasing(Output(raw, sts, placed))
  {
    if raw != [] {
      var n := |raw| - 1;
      OutputKeepsOrder(raw[..n], sts[..n], placed[..n]);
      OutputIdxWithin(raw[..n], sts[..n], placed[..n], raw[0].idx - 1, raw[n].idx);
    }
  }

  /** With nothing to parse every provision is forwarded unchanged. */
  lemma {:induction false} OutputAllIdle(raw: seq<Provision>, sts: seq<Status>, placed: seq<bool>)
    requires |sts| == |raw| && |placed| == |raw|
    requires forall i :: 0 <= i < |raw| ==> sts[i] == Unconsumed(raw[i])
    ensures Output(raw, sts, placed) == raw
  {
    if raw != [] {
      var n := |raw| - 1;
      OutputAllIdle(raw[..n], sts[..n], placed[..n]);
      assert raw == raw[..n] + [raw[n]];
    }
  }

  /** No provision is emitted twice: at most one per raw provision. */
  lemma {:induction false} OutputLength(raw: seq<Provision>, sts: seq<Status>, placed: seq<bool>)
    requires |sts| == |raw| && |placed| == |raw|
    ensures |Output(raw, sts, placed)| <= |raw|
  {
    if raw != [] {
      var n := |raw| - 1;
      OutputLength(raw[..n], sts[..n], placed[..n]);
    }
  }

  /** The position of the most recent provision of `ps` with an element. */
  function LastHost(ps: seq<Provision>): (r: Option<nat>)
    ensures r.Some? ==> r.value < |ps| && ps[r.value].xml.Some?
    ensures r.Some? ==> forall k :: r.value < k < |ps| ==> ps[k].xml.None?
    ensures r.None? ==> forall k :: 0 <= k < |ps| ==> ps[k].xml.None?
  {
    if ps == [] then None
    else if ps[|ps| - 1].xml.Some? then Some(|ps| - 1)
    else LastHost(ps[..|ps| - 1])
  }

  /** An element whose only child is a childless element made just before
      it is an ancestor of neither of them nor of any older element. */
  lemma {:induction false} NotAboveLeaf(parent: seq<int>, kids: seq<seq<nat>>, rank: seq<nat>, top: nat, m: nat, x: nat)
    requires Ranked(parent, rank, top) && Linked(parent, kids)
    requires 1 <= m < |parent| && kids[m] == [m - 1] && kids[m - 1] == []
    requires x < |parent| && x != m && x != m - 1
    ensures m !in Ancestors(parent, rank, top, x)
    decreases top - rank[x]
  {
    if parent[x] >= 0 {
      var y := parent[x];
      assert x in kids[y];
      NotAboveLeaf(parent, kids, rank, top, m, y);
    }
  }

  /** A fresh inline mod is never above the element of a processed
      provision, so appending it there always succeeds. */
  lemma FreshModNotAbove(d: Doc, m: nat, x: nat)
    requires d.Valid() && 1 <= m < |d.tag| && d.kids[m] == [m - 1] && d.kids[m - 1] == [] && x < m - 1
    ensures m !in d.Chain(x)
  {
    NotAboveLeaf(d.parent, d.kids, d.rank, d.top, m, x);
  }

  /** `m` is a mod made after every element of `processed`: its only
      child is a childless element made just before it, and the processed
      elements are older than both. */
  predicate FreshMod(kids: seq<seq<nat>>, m: nat, processed: seq<Provision>) {
    1 <= m < |kids| && kids[m] == [m - 1] && kids[m - 1] == []
    && forall k :: 0 <= k < |processed| && processed[k].xml.Some? ==> processed[k].xml.value < m - 1
  }

  /** Attaches the inline mod `m` to the element of the most recent
      provision of `processed` that takes it: lxml refuses an element that
      is an ancestor of its new parent, and the search then goes on. */
  method AttachInline(d: Doc, processed: seq<Provision>, m: nat) returns (placed: bool, ghost host: int)
    requires d.Valid() && m < |d.tag|
    requires forall k :: 0 <= k < |processed| && processed[k].xml.Some? ==> processed[k].xml.value < |d.tag|
    modifies d
    ensures d.Valid() && d.tag == old(d.tag) && d.attrs == old(d.attrs) && d.text == old(d.text)
    ensures placed ==>
      0 <= host < |processed| && processed[host].xml.Some? && d.parent[m] == processed[host].xml.value
      && d.kids[processed[host].xml.value] == Without(old(d.kids[processed[host].xml.value]), m) + [m]
    ensures forall k :: (if placed then host else -1) < k < |processed| && processed[k].xml.Some? ==>
      m in old(d.Chain(processed[k].xml.value))
    ensures !placed ==> unchanged(d)
    ensures FreshMod(old(d.kids), m, processed) ==>
      (placed <==> LastHost(processed).Some?) && (placed ==> host == LastHost(processed).value)
  {
    ghost var young := FreshMod(d.kids, m, processed);
    var j := |processed|;
    while j > 0
      invariant 0 <= j <= |processed| && unchanged(d)
      invariant forall k :: j <= k < |processed| && processed[k].xml.Some? ==> m in d.Chain(processed[k].xml.value)
      invariant young ==> forall k :: j <= k < |processed| ==> processed[k].xml.None?
    {
      j := j - 1;
      if processed[j].xml.Some? {
        var x := processed[j].xml.value;
        if young {
          FreshModNotAbove(d, m, x);
        }
        var ok := d.Append(x, m);
        if ok {
          return true, j;
        }
      }
    }
    return false, -1;
  }

  /** One turn of the driver's loop: `process` the provision, then drop,
      forward or splice what it reports. */
  method DriveOne(parser: AmendmentParser, d: Doc, processed: seq<Provision>, prov: Provision)
    returns (r: Result<seq<Provision>>, st: Status, attached: bool)
    requires parser.Valid() && parser.InDoc(d)
    requires prov.xml.Some? ==> prov.xml.value < |d.tag|
    requires forall k :: 0 <= k < |processed| && processed[k].xml.Some? ==> processed[k].xml.value < |d.tag|
    modifies parser, d
    ensures parser.Valid() && parser.InDoc(d) && |d.tag| >= old(|d.tag|)
    ensures r.Success? ==> r.value == processed + Emitted(prov, st, attached) && (st.Unconsumed? ==> st.p == prov)
    ensures r.Success? ==> forall k :: 0 <= k < |r.value| && r.value[k].xml.Some? ==> r.value[k].xml.value < |d.tag|
    ensures r.Success? ==> Control(parser.variant, old(parser.state), prov) == (KindOf(st), parser.state)
    ensures r.Success? ==> (attached <==> st.CompletedInline? && LastHost(processed).Some?)
    ensures r.Success? && attached ==>
      st.mod < |d.tag| && d.parent[st.mod] == processed[LastHost(processed).value].xml.value
  {
    var s := parser.Process(d, prov);
    if s.Failure? {
      return Failure(s.error), Consumed, false;
    }
    st := s.value;
    if st.CompletedInline? {
      assert old(parser.state) == Idle;
      assert FreshMod(d.kids, st.mod, processed);
    }
    var out;
    out, attached := Place(d, processed, prov, st);
    r := Success(out);
  }

  /** What the driver does with the status of one provision: an inline mod
      is attached where it can be, and the provision's output joins the
      processed ones. */
  method Place(d: Doc, processed: seq<Provision>, prov: Provision, st: Status)
    returns (out: seq<Provision>, attached: bool)
    requires d.Valid() && (st.CompletedInline? ==> st.mod < |d.tag|)
    requires st.CompletedBlock? ==> st.block < |d.tag|
    requires st.Unconsumed? ==> st.p == prov
    requires prov.xml.Some? ==> prov.xml.value < |d.tag|
    requires forall k :: 0 <= k < |processed| && processed[k].xml.Some? ==> processed[k].xml.value < |d.tag|
    modifies d
    ensures d.Valid() && d.tag == old(d.tag)
    ensures out == processed + Emitted(prov, st, attached)
    ensures forall k :: 0 <= k < |out| && out[k].xml.Some? ==> out[k].xml.value < |d.tag|
    ensures attached ==> st.CompletedInline?
    ensures st.CompletedInline? && FreshMod(old(d.kids), st.mod, processed) ==>
      (attached <==> LastHost(processed).Some?)
      && (attached ==> d.parent[st.mod] == processed[LastHost(processed).value].xml.value)
  {
    attached := false;
    if st.CompletedInline? {
      ghost var host;
      attached, host := AttachInline(d, processed, st.mod);
    }
    out := processed + Emitted(prov, st, attached);
  }

  /** Each inline mod was attached exactly when an earlier emitted
      provision had an element. */
  predicate PlacedByHost(raw: seq<Provision>, sts: seq<Status>, placed: seq<bool>)
    requires |sts| == |raw| && |placed| == |raw|
  {
    forall i :: 0 <= i < |raw| ==>
      (placed[i] <==> sts[i].CompletedInline? && LastHost(Output(raw[..i], sts[..i], placed[..i])).Some?)
  }

  /** The driver's run over `raw` from parser state `s0`: the parser went
      through the states `trace`, reporting `sts` as `Control` says, only
      handed back the provisions it was given, and `placed` records which
      inline mods found a host. */
  predicate Driven(v: Variant, s0: ParserState, raw: seq<Provision>, trace: seq<ParserState>,
                   sts: seq<Status>, placed: seq<bool>)
  {
    Traced(v, raw, trace, sts) && trace[0] == s0 && |placed| == |raw|
    && Forwards(raw, sts) && PlacedByHost(raw, sts, placed)
  }

  /** One more provision keeps the record of hosts. */
  lemma PlacedStep(raw: seq<Provision>, sts: seq<Status>, placed: seq<bool>, i: nat, st: Status, attached: bool)
    requires i < |raw| && |sts| == i && |placed| == i && PlacedByHost(raw[..i], sts, placed)
    requires attached <==> st.CompletedInline? && LastHost(Output(raw[..i], sts, placed)).Some?
    ensures PlacedByHost(raw[..i + 1], sts + [st], placed + [attached])
  {
    var raw', sts', placed' := raw[..i + 1], sts + [st], placed + [attached];
    forall k | 0 <= k < i + 1
      ensures placed'[k] <==> sts'[k].CompletedInline? && LastHost(Output(raw'[..k], sts'[..k], placed'[..k])).Some?
    {
      if k < i {
        assert raw'[..k] == raw[..i][..k] && sts'[..k] == sts[..k] && placed'[..k] == placed[..k];
      } else {
        assert raw'[..k] == raw[..i] && sts'[..k] == sts && placed'[..k] == placed;
      }
    }
  }

  /** With no instruction in any text, a parser that starts IDLE lets the
      driver hand back `raw` unchanged. */
  lemma NothingToParse(v: Variant, raw: seq<Provision>, trace: seq<ParserState>, sts: seq<Status>, placed: seq<bool>)
    requires Driven(v, Idle, raw, trace, sts, placed)
    requires forall i :: 0 <= i < |raw| ==> MatchAmendmentInstruction(v, OrEmpty(raw[i].text)).None?
    ensures Output(raw, sts, placed) == raw
  {
    TracedIdle(v, raw, trace, sts);
    forall i | 0 <= i < |raw| ensures sts[i] == Unconsumed(raw[i]) {
      assert KindOf(sts[i]) == Forwarded;
    }
    OutputAllIdle(raw, sts, placed);
  }

  /** `process_amendments_and_build(processor, raw_provisions)`: drops
      what the parser consumed, forwards what it handed back, puts each
      completed block in a `mod_block`, and attaches each inline mod to the
      latest emitted provision with an element, or else, when there is
      none, emits it as a `mod_block`. */
  method ProcessAmendmentsAndBuild(parser: AmendmentParser, d: Doc, raw: seq<Provision>)
    returns (r: Result<(seq<Provision>, seq<AmendmentMetadata>)>,
             ghost trace: seq<ParserState>, ghost sts: seq<Status>, ghost placed: seq<bool>)
    requires parser.Valid() && parser.InDoc(d)
    requires forall k :: 0 <= k < |raw| && raw[k].xml.Some? ==> raw[k].xml.value < |d.tag|
    modifies parser, d
    ensures parser.Valid() && parser.InDoc(d) && |d.tag| >= old(|d.tag|)
    ensures r.Success? ==>
      Driven(parser.variant, old(parser.state), raw, trace, sts, placed) && trace[|raw|] == parser.state
      && r.value.0 == Output(raw, sts, placed) && r.value.1 == parser.activeModInfo
  {
    var processed: seq<Provision> := [];
    trace, sts, placed := [parser.state], [], [];
    var i := 0;
    while i < |raw|
      invariant 0 <= i <= |raw| && |sts| == i && |placed| == i
      invariant parser.Valid() && parser.InDoc(d) && |d.tag| >= old(|d.tag|)
      invariant Traced(parser.variant, raw[..i], trace, sts) && trace[0] == old(parser.state) && trace[i] == parser.state
      invariant Forwards(raw[..i], sts) && PlacedByHost(raw[..i], sts, placed)
      invariant processed == Output(raw[..i], sts, placed)
      invariant forall k :: 0 <= k < |processed| && processed[k].xml.Some? ==> processed[k].xml.value < |d.tag|
    {
      ghost var s := parser.state;
      var next, st, attached := DriveOne(parser, d, processed, raw[i]);
      if next.Failure? {
        return Failure(next.error), trace, sts, placed;
      }
      OutputStep(raw, sts, placed, i, st, attached);
      TracedStep(parser.variant, raw, trace, sts, i, st, parser.state);
      PlacedStep(raw, sts, placed, i, st, attached);
      processed := next.value;
      trace, sts, placed := trace + [parser.state], sts + [st], placed + [attached];
      i := i + 1;
    }
    assert raw[..i] == raw;
    r := Success((processed, parser.activeModInfo));
  }

  // ---------------------------------------------------------------------
  // parse_section

  /** What `parse_section` reads of a `<sect>`: the text of `number`
      (`None` when the element or its text is missing), the `title/p`
      paragraph, if any, and the children. */
  datatype Sect = Sect(number: Option<string>, title: Option<Para>, children: seq<Para>)

  /** The provision that heads a section's list. */
  function SectionProvision(eid: string, x: nat): Provision {
    Provision("section", Some(eid), false, -3, 11, "left", Some(x), None, -1)
  }

  /** `x` is the section container: made after its heading `x - 2` and
      the `b` element `x - 1` inside its `num`, `x + 1`. */
  predicate SectionShape(a: Arena, x: nat, eid: string, snumber: string, title: Para)
    requires Sized(a)
  {
    2 <= x && x + 1 < |a.tag|
    && a.tag[x] == "section" && a.attrs[x] == map[EId := eid] && a.text[x] == None && a.kids[x] == [x - 2, x + 1]
    && a.tag[x - 2] == "heading" && a.text[x - 2] == title.text
    && a.tag[x - 1] == "b" && a.text[x - 1] == Some(snumber)
    && a.tag[x + 1] == "num" && a.kids[x + 1] == [x - 1]
  }

  lemma SectionShapeGrows(a: Arena, b: Arena, x: nat, eid: string, snumber: string, title: Para)
    requires Sized(a) && SectionShape(a, x, eid, snumber, title) && Grows(a, b)
    ensures SectionShape(b, x, eid, snumber, title)
  {
    var n := |a.tag|;
    assert b.tag[..n][x] == b.tag[x] && b.tag[..n][x - 2] == b.tag[x - 2];
    assert b.tag[..n][x - 1] == b.tag[x - 1] && b.tag[..n][x + 1] == b.tag[x + 1];
    assert b.attrs[..n][x] == b.attrs[x];
    assert b.text[..n][x] == b.text[x] && b.text[..n][x - 2] == b.text[x - 2] && b.text[..n][x - 1] == b.text[x - 1];
    assert b.kids[..n][x] == b.kids[x] && b.kids[..n][x + 1] == b.kids[x + 1];
  }

  /** `sheading = parse_p(title_p)`, retagged `heading`. */
  method MakeHeading(d: Doc, title: Para) returns (h: nat)
    requires d.Valid()
    modifies d
    ensures d.Valid() && h == old(|d.tag|) && |d.tag| == h + 1
    ensures d.tag[h] == "heading" && d.text[h] == title.text && d.parent[h] == -1
  {
    h := ParseP(d, title);
    d.SetTag(h, "heading");
  }

  /** `E.b(snumber)` */
  method MakeBold(d: Doc, snumber: string) returns (b: nat)
    requires d.Valid()
    modifies d
    ensures d.Valid() && b == old(|d.tag|) && |d.tag| == b + 1
    ensures d.tag[b] == "b" && d.text[b] == Some(snumber) && d.parent[b] == -1
    ensures d.tag[..b] == old(d.tag) && d.text[..b] == old(d.text)
  {
    b := NewWithAttribs(d, "b", map[]);
    d.SetText(b, Some(snumber));
  }

  /** The heading, then `make_container("section", num=E.b(snumber),
      heading=sheading, attribs={"eId": eid})`. */
  method MakeSection(d: Doc, title: Para, snumber: string, eid: string) returns (x: nat)
    requires d.Valid()
    modifies d
    ensures d.Valid() && x == old(|d.tag|) + 2 && SectionShape(Snap(d), x, eid, snumber, title)
  {
    var h := MakeHeading(d, title);
    var b := MakeBold(d, snumber);
    assert d.tag[..b][h] == d.tag[h] && d.text[..b][h] == d.text[h];
    ghost var tags, texts := d.tag, d.text;
    x := MakeContainer(d, "section", Some(NumElem(b)), Some(h), map[EId := Some(eid)]);
    assert SafeAttribs(map[EId := Some(eid)]) == map[EId := eid];
    assert d.tag[..x][h] == tags[h] && d.tag[..x][b] == tags[b];
    assert d.text[..x][h] == texts[h] && d.text[..x][b] == texts[b];
  }

  /** `parse_section(sect)`: a missing `number` or `title/p` is a
      ValueError. Otherwise the section's container heads the list, and the
      raw provisions extracted from the children follow as the driver
      emits them, in `idx` order; the records' sources are distinct. */
  method ParseSection(d: Doc, sect: Sect)
    returns (r: Result<(seq<Provision>, seq<AmendmentMetadata>)>,
             ghost raw: seq<Provision>, ghost a: Arena,
             ghost trace: seq<ParserState>, ghost sts: seq<Status>, ghost placed: seq<bool>)
    requires d.Valid()
    modifies d
    ensures d.Valid()
    ensures sect.number.None? || sect.title.None? ==> r.Failure? && unchanged(d)
    ensures r.Success? ==>
      sect.number.Some? && sect.title.Some?
      && var eid := MakeEIdSnippet("sect", Strip(sect.number.value));
      var x := old(|d.tag|) + 2;
      Sized(a) && SectionShape(a, x, eid, Strip(sect.number.value), sect.title.value)
      && RealisesAll(a, raw, AllRows(PTableChildren(sect.children)), 0)
      && Driven(Current, Idle, raw, trace, sts, placed)
      && r.value.0 == [SectionProvision(eid, x)] + Output(raw, sts, placed)
      && IdxIncreasing(r.value.0)
      && forall j, k :: 0 <= j < k < |r.value.1| ==> r.value.1[j].sourceEId != r.value.1[k].sourceEId
  {
    raw, a, trace, sts, placed := [], Snap(d), [], [], [];
    if sect.number.None? {
      return Failure("ValueError: Section element missing <number>"), raw, a, trace, sts, placed;
    }
    var snumber := Strip(sect.number.value);
    if sect.title.None? {
      return Failure("ValueError: Section element missing title/p"), raw, a, trace, sts, placed;
    }
    var eid := MakeEIdSnippet("sect", snumber);
    var x := MakeSection(d, sect.title.value, snumber, eid);
    ghost var a0 := Snap(d);
    var parser := new AmendmentParser(eid, DefaultPrincipalActUri, Current);
    var ps := ExtractRawProvisions(d, sect.children);
    raw, a := ps, Snap(d);
    SectionShapeGrows(a0, a, x, eid, snumber, sect.title.value);
    var built;
    built, trace, sts, placed := ProcessAmendmentsAndBuild(parser, d, ps);
    if built.Failure? {
      return Failure(built.error), raw, a, trace, sts, placed;
    }
    parser.SourcesDistinct();
    OrderOfSection(raw, a, AllRows(PTableChildren(sect.children)), sts, placed);
    r := Success(([SectionProvision(eid, x)] + built.value.0, built.value.1));
  }

  /** Raw provisions numbered from 0 give an output whose `idx` increase
      after the section's -1. */
  lemma OrderOfSection(raw: seq<Provision>, a: Arena, rows: seq<Row>, sts: seq<Status>, placed: seq<bool>)
    requires Sized(a) && RealisesAll(a, raw, rows, 0)
    requires |sts| == |raw| && |placed| == |raw| && Forwards(raw, sts)
    ensures forall eid, x :: IdxIncreasing([SectionProvision(eid, x)] + Output(raw, sts, placed))
  {
    assert IdxIncreasing(raw);
    OutputKeepsOrder(raw, sts, placed);
    OutputIdxWithin(raw, sts, placed, -1, |raw|);
  }
}
