/** `AmendmentParser` of `eisb_provisions.py` (and its older copy in
    `eisb.py`): the state machine that recognises amendment instructions
    among a section's provisions, wraps what they insert or substitute in
    `mod` elements and records each one as an active modification. */
module Amendments {
  import opened Wrappers
  import opened Text
  import opened Patterns
  import opened DocTree
  import opened Provisions
  import opened Extraction
  import Structure

  /** `IDLE`, `PARSING_INSTRUCTION`, `CONSUMING_CONTENT` */
  datatype ParserState = Idle | ParsingInstruction | ConsumingContent

  /** What `process` reports, with its data: `CONSUMED`, `COMPLETED_BLOCK`
      with the `block` element, `COMPLETED_INLINE` with the `mod` element,
      or `IDLE` with the provision handed back. */
  datatype Status = Consumed | CompletedBlock(block: nat) | CompletedInline(mod: nat) | Unconsumed(p: Provision)

  /** A status without its data: what the driver is told to do with the
      provision. */
  datatype Kind = Dropped | Forwarded | BlockMod | InlineMod

  function KindOf(s: Status): Kind {
    match s
    case Consumed => Dropped
    case Unconsumed(_) => Forwarded
    case CompletedBlock(_) => BlockMod
    case CompletedInline(_) => InlineMod
  }

  /** The control of `process`, independent of the tree: from state `s`, a
      provision `prov` that is processed without error gets this kind of
      status and leaves the parser in this state. IDLE looks for an
      instruction in the text; PARSING_INSTRUCTION waits for a text that
      opens a quotation; CONSUMING_CONTENT waits for the `quoteend`. */
  function Control(v: Variant, s: ParserState, prov: Provision): (Kind, ParserState) {
    match s
    case Idle =>
      (match MatchAmendmentInstruction(v, OrEmpty(prov.text))
       case None => (Forwarded, Idle)
       case Some(ins) => if ins.IsInline() then (InlineMod, Idle) else (Dropped, ParsingInstruction))
    case ParsingInstruction =>
      if Opens(OrEmpty(prov.text)) then (Dropped, ConsumingContent) else (Dropped, ParsingInstruction)
    case ConsumingContent =>
      if prov.tag == "quoteend" then (BlockMod, Idle) else (Dropped, ConsumingContent)
  }

  /** The parser walked through `raw` by `Control`: `trace[i]` is its state
      before `raw[i]` and `sts[i]` what it reported for it. */
  predicate Traced(v: Variant, raw: seq<Provision>, trace: seq<ParserState>, sts: seq<Status>) {
    |trace| == |raw| + 1 && |sts| == |raw|
    && forall i :: 0 <= i < |raw| ==> Control(v, trace[i], raw[i]) == (KindOf(sts[i]), trace[i + 1])
  }

  /** One more step of a trace. */
  lemma TracedStep(v: Variant, raw: seq<Provision>, trace: seq<ParserState>, sts: seq<Status>,
                   i: nat, st: Status, s: ParserState)
    requires i < |raw| && Traced(v, raw[..i], trace, sts)
    requires Control(v, trace[i], raw[i]) == (KindOf(st), s)
    ensures Traced(v, raw[..i + 1], trace + [s], sts + [st])
  {
    forall j | 0 <= j < i + 1
      ensures Control(v, (trace + [s])[j], raw[..i + 1][j]) == (KindOf((sts + [st])[j]), (trace + [s])[j + 1])
    {
      if j < i {
        assert raw[..i + 1][j] == raw[..i][j];
      }
    }
  }

  /** A parser that starts IDLE and meets no instruction forwards every
      provision and stays IDLE. */
  lemma {:induction false} TracedIdle(v: Variant, raw: seq<Provision>, trace: seq<ParserState>, sts: seq<Status>)
    requires Traced(v, raw, trace, sts) && trace[0] == Idle
    requires forall i :: 0 <= i < |raw| ==> MatchAmendmentInstruction(v, OrEmpty(raw[i].text)).None?
    ensures forall i :: 0 <= i <= |raw| ==> trace[i] == Idle
    ensures forall i :: 0 <= i < |raw| ==> KindOf(sts[i]) == Forwarded
  {
    if raw != [] {
      var n := |raw| - 1;
      assert Traced(v, raw[..n], trace[..n + 1], sts[..n]) by {
        forall i | 0 <= i < n
          ensures Control(v, trace[..n + 1][i], raw[..n][i]) == (KindOf(sts[..n][i]), trace[..n + 1][i + 1])
        {
          assert Control(v, trace[i], raw[i]) == (KindOf(sts[i]), trace[i + 1]);
        }
      }
      TracedIdle(v, raw[..n], trace[..n + 1], sts[..n]);
      assert trace[n] == trace[..n + 1][n];
      assert Control(v, trace[n], raw[n]) == (KindOf(sts[n]), trace[n + 1]);
    }
  }

  const DefaultPrincipalActUri := "#principal_act"
  const ModSep := "_mod_"

  /** `f"{section_eid}_mod_{mod_counter}"` */
  function ModEId(sectionEId: string, n: nat): string {
    sectionEId + ModSep + NatToDecimal(n)
  }

  /** Two mods of one section share an eId only when they were made with
      the same counter. */
  lemma ModEIdInjective(sectionEId: string, m: nat, n: nat)
    requires ModEId(sectionEId, m) == ModEId(sectionEId, n)
    ensures m == n
  {
    var k := |sectionEId| + |ModSep|;
    assert ModEId(sectionEId, m)[k..] == NatToDecimal(m);
    assert ModEId(sectionEId, n)[k..] == NatToDecimal(n);
    NatToDecimalInjective(m, n);
  }

  /** In an increasing run every counter is at most the last one. */
  lemma IncreasingUpToLast(ns: seq<nat>)
    requires ns != [] && forall j, k :: 0 <= j < k < |ns| ==> ns[j] < ns[k]
    ensures forall k :: 0 <= k < |ns| ==> ns[k] <= ns[|ns| - 1]
  {
    forall k | 0 <= k < |ns| ensures ns[k] <= ns[|ns| - 1] {
      if k < |ns| - 1 {
        assert ns[k] < ns[|ns| - 1];
      }
    }
  }

  // ---------------------------------------------------------------------
  // _generate_destination_uri

  /** `[f"{p[0]}_{p[1]}" for p in parts]` */
  function UriParts(cs: seq<(string, string)>): (r: seq<string>)
    ensures |r| == |cs|
    ensures forall k :: 0 <= k < |cs| ==> r[k] == cs[k].0 + "_" + cs[k].1
  {
    if cs == [] then [] else [cs[0].0 + "_" + cs[0].1] + UriParts(cs[1..])
  }

  /** `text.lower().replace("subsection", "subsect")` */
  function DestinationKey(text: string): string {
    Replace(Lower(text), "subsection", "subsect")
  }

  /** `_generate_destination_uri(text)`: the principal act's URI, extended
      by `/kind_id__kind_id…` when the text names provisions. */
  function DestinationUri(principal: string, text: string): (r: string)
    ensures |r| >= |principal| && r[..|principal|] == principal
    ensures r == principal <==> DestinationComponents(DestinationKey(text)) == []
    ensures r != principal ==>
      r[|principal|] == '/' && r[|principal| + 1..] == Join(UriParts(DestinationComponents(DestinationKey(text))), "__")
  {
    var parts := DestinationComponents(DestinationKey(text));
    if parts == [] then principal else principal + "/" + Join(UriParts(parts), "__")
  }

  // ---------------------------------------------------------------------
  // The records and elements `process` makes

  /** The record of an inline substitution made with counter `n`. */
  function InlineRecord(sectionEId: string, n: nat, principal: string, text: string, ins: Instruction): AmendmentMetadata
    requires ins.InlineSubstitution?
  {
    AmendmentMetadata("substitution", "#" + ModEId(sectionEId, n), DestinationUri(principal, text),
      None, Some(ins.oldText), Some(ins.newText))
  }

  /** The record of a block amendment opened with counter `n`. */
  function BlockRecord(sectionEId: string, n: nat, principal: string, ins: Instruction): AmendmentMetadata {
    AmendmentMetadata(ins.Type(), "#" + ModEId(sectionEId, n), DestinationUri(principal, ins.DestinationText()),
      ins.Position(), None, None)
  }

  /** `(text.startswith(“) and “ not in text[1:]) or text == “` */
  predicate Opens(text: string) {
    (|text| > 0 && text[0] == ODQ && ODQ !in text[1..]) || text == [ODQ]
  }

  /** The text of the first quoted provision, its opening “ removed. */
  function DropOpeningQuote(s: Option<string>): (r: Option<string>)
    ensures s.Some? && s.value != [] && s.value[0] == ODQ ==> r == Some(s.value[1..])
    ensures !(s.Some? && s.value != [] && s.value[0] == ODQ) ==> r == s
  {
    if s.Some? && s.value != [] && s.value[0] == ODQ then Some(s.value[1..]) else s
  }

  /** `provision.text or '”'` */
  function EndQuoteOf(s: Option<string>): string {
    if s.Some? && s.value != [] then s.value else [CDQ]
  }

  const QuotedTextAttrs: map<string, string> := map["startQuote" := [ODQ], "endQuote" := [CDQ]]
  const QuotedStructureAttrs: map<string, string> := map["startQuote" := [ODQ]]
  const BlockAttrs: map<string, string> := map["name" := "quotedStructure"]

  /** `m` is a `mod` with eId `eid` whose only child, made just before it,
      is a childless element `t` with attributes `attrs` and text `txt`. */
  ghost predicate IsMod(d: Doc, m: nat, eid: string, t: string, attrs: map<string, string>, txt: Option<string>)
    reads d
  {
    d.Valid() && 1 <= m < |d.tag|
    && d.tag[m] == "mod" && d.attrs[m] == map[EId := eid] && d.text[m] == None && d.kids[m] == [m - 1]
    && d.tag[m - 1] == t && d.attrs[m - 1] == attrs && d.text[m - 1] == txt && d.kids[m - 1] == []
  }

  /** `b` is `E.block(m, name="quotedStructure")`. */
  ghost predicate IsBlock(d: Doc, b: nat, m: nat)
    reads d
  {
    d.Valid() && b < |d.tag|
    && d.tag[b] == "block" && d.attrs[b] == BlockAttrs && d.text[b] == None && d.kids[b] == [m]
  }

  /** `E.mod(E.<t>(txt, **attrs), eId=eid)`: two fresh elements. */
  method NewMod(d: Doc, eid: string, t: string, attrs: map<string, string>, txt: Option<string>) returns (m: nat)
    requires d.Valid()
    modifies d
    ensures d.Valid() && m == old(|d.tag|) + 1 && |d.tag| == m + 1
    ensures IsMod(d, m, eid, t, attrs, txt) && Grows(old(Snap(d)), Snap(d))
    ensures d.parent[m] == -1
  {
    ghost var a0 := Snap(d);
    var q := NewWithAttribs(d, t, attrs);
    ghost var a1 := Snap(d);
    d.SetText(q, txt);
    GrowsPast(a0, a1, Snap(d), q);
    ghost var a2 := Snap(d);
    m := NewWithAttribs(d, "mod", map[EId := eid]);
    GrowsTrans(a0, a2, Snap(d));
    ghost var a3 := Snap(d);
    AppendFresh(d, m, q);
    GrowsPast(a0, a3, Snap(d), m);
    assert d.kids[..m] == a3.kids[..m] == a2.kids;
  }

  /** `E.block(m, name="quotedStructure")` */
  method NewBlock(d: Doc, m: nat) returns (b: nat)
    requires d.Valid() && m < |d.tag|
    modifies d
    ensures d.Valid() && b == old(|d.tag|) && IsBlock(d, b, m)
    ensures d.tag[..b] == old(d.tag) && d.attrs[..b] == old(d.attrs) && d.text[..b] == old(d.text)
    ensures forall n, x :: 0 <= n < b && x in d.kids[n] ==> x in old(d.kids[n])
  {
    b := NewWithAttribs(d, "block", BlockAttrs);
    var ok := d.Append(b, m);
    assert ok;
  }

  /** `for p in buffer: temp_root.append(p.xml)`, into the parentless
      `div`; appending `None` is a TypeError. Children only leave the
      other elements. */
  method AppendAll(d: Doc, div: nat, buffer: seq<Provision>, q: nat) returns (r: Result<()>)
    requires d.Valid() && div < |d.tag| && d.parent[div] == -1 && q < |d.tag| && q != div
    requires forall k :: 0 <= k < |buffer| && buffer[k].xml.Some? ==> buffer[k].xml.value < div
    modifies d
    ensures d.Valid() && d.tag == old(d.tag) && d.attrs == old(d.attrs) && d.text == old(d.text)
    ensures r.Success? <==> forall k :: 0 <= k < |buffer| ==> buffer[k].xml.Some?
    ensures r.Success? ==> forall k :: 0 <= k < |buffer| ==> d.parent[buffer[k].xml.value] == div
    ensures forall x :: x in d.kids[q] ==> x in old(d.kids[q])
  {
    var i := 0;
    while i < |buffer|
      invariant 0 <= i <= |buffer|
      invariant d.Valid() && d.tag == old(d.tag) && d.attrs == old(d.attrs) && d.text == old(d.text)
      invariant d.parent[div] == -1
      invariant forall k :: 0 <= k < i ==> buffer[k].xml.Some? && d.parent[buffer[k].xml.value] == div
      invariant forall x :: x in d.kids[q] ==> x in old(d.kids[q])
    {
      if buffer[i].xml.None? {
        return Failure("TypeError: cannot append None");
      }
      AppendInto(d, div, buffer[i].xml.value, q);
      i := i + 1;
    }
    r := Success(());
  }

  /** One turn of the loop above: `x` becomes a child of the parentless
      `div`, which always succeeds, and no other element changes parent. */
  method AppendInto(d: Doc, div: nat, x: nat, q: nat)
    requires d.Valid() && div < |d.tag| && d.parent[div] == -1 && x < div && q < |d.tag| && q != div
    modifies d
    ensures d.Valid() && d.tag == old(d.tag) && d.attrs == old(d.attrs) && d.text == old(d.text)
    ensures d.parent[x] == div && forall n :: 0 <= n < |d.tag| && n != x ==> d.parent[n] == old(d.parent[n])
    ensures forall y :: y in d.kids[q] ==> y in old(d.kids[q])
  {
    assert d.Chain(div) == {div};
    ghost var p0 := d.parent;
    var ok := d.Append(div, x);
    assert ok;
    ParentOne(p0, d.parent, x, div);
  }

  /** `for child in src.getchildren(): dst.append(child)`: lxml refuses
      (ValueError) to append an ancestor of `dst`. */
  method MoveChildren(d: Doc, src: nat, dst: nat) returns (ok: bool)
    requires d.Valid() && src < |d.tag| && dst < |d.tag| && src != dst
    modifies d
    ensures d.Valid() && d.tag == old(d.tag) && d.attrs == old(d.attrs) && d.text == old(d.text)
    ensures old(d.kids[src]) == [] ==> ok
    ensures ok ==> d.kids[dst] == old(d.kids[dst]) + old(d.kids[src]) && d.kids[src] == []
  {
    var cs := d.kids[src];
    var i := 0;
    while i < |cs|
      invariant 0 <= i <= |cs|
      invariant d.Valid() && d.tag == old(d.tag) && d.attrs == old(d.attrs) && d.text == old(d.text)
      invariant d.kids[dst] == old(d.kids[dst]) + cs[..i] && d.kids[src] == cs[i..]
    {
      var c := cs[i];
      ok := MoveFirst(d, src, dst);
      if !ok { return; }
      assert cs[i..][1..] == cs[i + 1..];
      assert cs[..i + 1] == cs[..i] + [c];
      i := i + 1;
    }
    ok := true;
  }

  /** One turn of the loop above: the first child of `src` becomes the
      last child of `dst`. */
  method MoveFirst(d: Doc, src: nat, dst: nat) returns (ok: bool)
    requires d.Valid() && src < |d.tag| && dst < |d.tag| && src != dst && d.kids[src] != []
    modifies d
    ensures d.Valid() && d.tag == old(d.tag) && d.attrs == old(d.attrs) && d.text == old(d.text)
    ensures ok ==> d.kids[dst] == old(d.kids[dst]) + [old(d.kids[src][0])] && d.kids[src] == old(d.kids[src][1..])
  {
    var c := d.kids[src][0];
    assert c in d.kids[src];
    assert Distinct(d.kids[src]);
    assert c !in d.kids[dst];
    ghost var ks := d.kids[src];
    ok := d.Append(dst, c);
    if ok {
      WithoutAt(ks, 0);
    }
  }

  // ---------------------------------------------------------------------
  // The parser

  class AmendmentParser {
    var state: ParserState
    const sectionEId: string
    const principalActUri: string
    /** `eisb.py`'s copy recognises the older instruction phrases and
        rebuilds the quoted block with `section_hierarchy`. */
    const variant: Variant
    var modCounter: nat
    var activeModInfo: seq<AmendmentMetadata>
    var currentModBlock: Option<nat>
    /** `current_amendment_details`; the empty dict is `None`. */
    var details: Option<Instruction>
    var contentBuffer: seq<Provision>
    /** The counter each record was made with. */
    ghost var modNums: seq<nat>

    /** Each record's source is the eId of a mod made with a counter that
        has since been passed, except the open block's, which is the
        counter's present value. */
    ghost predicate Valid()
      reads this
    {
      1 <= modCounter && |modNums| == |activeModInfo|
      && (forall k :: 0 <= k < |modNums| ==> activeModInfo[k].sourceEId == "#" + ModEId(sectionEId, modNums[k]))
      && (forall j, k :: 0 <= j < k < |modNums| ==> modNums[j] < modNums[k])
      && (state != ConsumingContent ==> forall k :: 0 <= k < |modNums| ==> modNums[k] < modCounter)
      && (state == ConsumingContent ==>
            currentModBlock.Some? && modNums != [] && modNums[|modNums| - 1] == modCounter)
      && (state == ParsingInstruction ==> details.Some? && !details.value.IsInline())
    }

    /** The elements the parser holds belong to `d`. */
    ghost predicate InDoc(d: Doc)
      reads this, d
    {
      d.Valid() && (currentModBlock.Some? ==> currentModBlock.value < |d.tag|)
      && forall k :: 0 <= k < |contentBuffer| && contentBuffer[k].xml.Some? ==> contentBuffer[k].xml.value < |d.tag|
    }

    constructor (sectionEId: string, principalActUri: string, variant: Variant)
      ensures Valid() && state == Idle && modCounter == 1 && activeModInfo == []
      ensures currentModBlock == None && details == None && contentBuffer == []
      ensures this.sectionEId == sectionEId && this.principalActUri == principalActUri && this.variant == variant
    {
      state := Idle;
      this.sectionEId := sectionEId;
      this.principalActUri := principalActUri;
      this.variant := variant;
      modCounter := 1;
      activeModInfo := [];
      currentModBlock := None;
      details := None;
      contentBuffer := [];
      modNums := [];
    }

    /** The recorded sources are pairwise distinct. */
    lemma SourcesDistinct()
      requires Valid()
      ensures forall j, k :: 0 <= j < k < |activeModInfo| ==> activeModInfo[j].sourceEId != activeModInfo[k].sourceEId
    {
      forall j, k | 0 <= j < k < |activeModInfo|
        ensures activeModInfo[j].sourceEId != activeModInfo[k].sourceEId
      {
        if activeModInfo[j].sourceEId == activeModInfo[k].sourceEId {
          assert ("#" + ModEId(sectionEId, modNums[j]))[1..] == ModEId(sectionEId, modNums[j]);
          assert ("#" + ModEId(sectionEId, modNums[k]))[1..] == ModEId(sectionEId, modNums[k]);
          ModEIdInjective(sectionEId, modNums[j], modNums[k]);
        }
      }
    }

    /** IDLE: with no instruction the provision is handed back and nothing
        changes; a block instruction is remembered and the parser waits for
        the quotation; an inline substitution becomes a `mod` at once, with
        one more record and the next counter. */
    twostate predicate IdleStep(d: Doc, prov: Provision, ins: Option<Instruction>, new r: Result<Status>)
      reads this, d
    {
      r.Success? && contentBuffer == old(contentBuffer) && currentModBlock == old(currentModBlock)
      && (ins.None? ==> r.value == Unconsumed(prov) && unchanged(this) && unchanged(d))
      && (ins.Some? && !ins.value.IsInline() ==>
            r.value == Consumed && state == ParsingInstruction && details == ins
            && modCounter == old(modCounter) && activeModInfo == old(activeModInfo) && unchanged(d))
      && (ins.Some? && ins.value.IsInline() ==>
            r.value == CompletedInline(old(|d.tag|) + 1) && state == Idle && details == ins
            && modCounter == old(modCounter) + 1
            && activeModInfo == old(activeModInfo)
                 + [InlineRecord(sectionEId, old(modCounter), principalActUri, OrEmpty(prov.text), ins.value)]
            && IsMod(d, r.value.mod, ModEId(sectionEId, old(modCounter)), "quotedText", QuotedTextAttrs,
                 Some(ins.value.newText))
            && Grows(old(Snap(d)), Snap(d)))
    }

    /** PARSING_INSTRUCTION: a provision that does not open a quotation is
        consumed and nothing changes. One that does opens the block: a
        fresh `mod` holding an empty `quotedStructure`, one record with the
        remembered type and position and no old or new text; then its
        element loses its opening “ and it is buffered, or, without an
        element, the AttributeError is raised. */
    twostate predicate ParsingStep(d: Doc, prov: Provision, new r: Result<Status>)
      requires old(d.Valid()) && (prov.xml.Some? ==> prov.xml.value < old(|d.tag|))
      reads this, d
    {
      (!Opens(OrEmpty(prov.text)) ==> r == Success(Consumed) && unchanged(this) && unchanged(d))
      && (Opens(OrEmpty(prov.text)) ==>
            old(details).Some?
            && state == ConsumingContent && modCounter == old(modCounter) && details == old(details)
            && activeModInfo == old(activeModInfo)
                 + [BlockRecord(sectionEId, old(modCounter), principalActUri, old(details).value)]
            && currentModBlock == Some(old(|d.tag|) + 1)
            && IsMod(d, old(|d.tag|) + 1, ModEId(sectionEId, old(modCounter)), "quotedStructure",
                 QuotedStructureAttrs, None)
            && (prov.xml.None? ==> r.Failure? && contentBuffer == old(contentBuffer))
            && (prov.xml.Some? ==>
                  r == Success(Consumed) && contentBuffer == old(contentBuffer) + [prov]
                  && d.text[prov.xml.value] == DropOpeningQuote(old(d.text[prov.xml.value]))))
    }

    /** CONSUMING_CONTENT: every provision but the `quoteend` is buffered.
        The `quoteend` sets the closing quote of the `quotedStructure`,
        empties the buffer into the block, wraps the `mod` in a `block`,
        passes the counter and returns to IDLE. In the present copy the
        buffered elements are appended to a `div` that is thrown away (so
        a buffered provision without an element is a TypeError) and the
        `quotedStructure` gains no children. */
    twostate predicate ConsumingStep(d: Doc, prov: Provision, new r: Result<Status>)
      requires old(d.Valid()) && old(currentModBlock).Some? && old(currentModBlock.value) < old(|d.tag|)
      reads this, d
    {
      (prov.tag != "quoteend" ==>
         r == Success(Consumed) && contentBuffer == old(contentBuffer) + [prov]
         && state == old(state) && modCounter == old(modCounter) && activeModInfo == old(activeModInfo)
         && currentModBlock == old(currentModBlock) && details == old(details) && unchanged(d))
      && (prov.tag == "quoteend" && r.Success? ==>
            r.value.CompletedBlock? && IsBlock(d, r.value.block, old(currentModBlock.value))
            && state == Idle && modCounter == old(modCounter) + 1 && activeModInfo == old(activeModInfo)
            && currentModBlock == None && contentBuffer == [] && details == None)
      && (prov.tag == "quoteend" && variant == Current ==>
            var q := old(d.FindChild(currentModBlock.value, "quotedStructure"));
            (r.Success? <==> q.None? || forall k :: 0 <= k < |old(contentBuffer)| ==> old(contentBuffer)[k].xml.Some?)
            && (q.Some? ==>
                  d.Valid() && q.value < |d.tag| && q.value < old(|d.tag|) && "endQuote" in d.attrs[q.value]
                  && d.attrs[q.value]["endQuote"] == EndQuoteOf(prov.text)
                  && forall x :: x in d.kids[q.value] ==> x in old(d.kids[q.value])))
    }

    /** `process(provision)` */
    method Process(d: Doc, prov: Provision) returns (r: Result<Status>)
      requires Valid() && InDoc(d) && (prov.xml.Some? ==> prov.xml.value < |d.tag|)
      modifies this, d
      ensures Valid() && InDoc(d) && |d.tag| >= old(|d.tag|)
      ensures old(state) == Idle ==> IdleStep(d, prov, MatchAmendmentInstruction(variant, OrEmpty(prov.text)), r)
      ensures old(state) == ParsingInstruction ==> ParsingStep(d, prov, r)
      ensures old(state) == ConsumingContent ==> ConsumingStep(d, prov, r)
      ensures r.Success? && r.value.Unconsumed? ==> r.value.p == prov
      ensures r.Success? && r.value.CompletedBlock? ==> r.value.block < |d.tag|
      ensures r.Success? && r.value.CompletedInline? ==> r.value.mod < |d.tag|
      ensures r.Success? ==> Control(variant, old(state), prov) == (KindOf(r.value), state)
    {
      if state == Idle {
        r := ProcessIdle(d, prov, MatchAmendmentInstruction(variant, OrEmpty(prov.text)));
      } else if state == ParsingInstruction {
        r := ProcessParsing(d, prov);
      } else if prov.tag == "quoteend" {
        r := QuoteEnd(d, prov);
      } else {
        contentBuffer := contentBuffer + [prov];
        r := Success(Consumed);
      }
    }

    method ProcessIdle(d: Doc, prov: Provision, ins: Option<Instruction>) returns (r: Result<Status>)
      requires Valid() && InDoc(d) && state == Idle
      modifies this, d
      ensures Valid() && InDoc(d) && |d.tag| >= old(|d.tag|)
      ensures IdleStep(d, prov, ins, r)
    {
      if ins.None? {
        return Success(Unconsumed(prov));
      }
      if !ins.value.IsInline() {
        state, details := ParsingInstruction, ins;
        return Success(Consumed);
      }
      r := CompleteInline(d, OrEmpty(prov.text), ins.value);
      details := ins;
    }

    /** The inline branch: `E.mod(E.quotedText(new_text, …), eId=…)`. */
    method CompleteInline(d: Doc, text: string, ins: Instruction) returns (r: Result<Status>)
      requires Valid() && InDoc(d) && state == Idle && ins.InlineSubstitution?
      modifies this, d
      ensures Valid() && InDoc(d) && |d.tag| == old(|d.tag|) + 2 && Grows(old(Snap(d)), Snap(d))
      ensures r == Success(CompletedInline(old(|d.tag|) + 1)) && state == Idle
      ensures modCounter == old(modCounter) + 1
      ensures activeModInfo == old(activeModInfo) + [InlineRecord(sectionEId, old(modCounter), principalActUri, text, ins)]
      ensures IsMod(d, old(|d.tag|) + 1, ModEId(sectionEId, old(modCounter)), "quotedText", QuotedTextAttrs, Some(ins.newText))
      ensures contentBuffer == old(contentBuffer) && currentModBlock == old(currentModBlock) && details == old(details)
    {
      var m := NewMod(d, ModEId(sectionEId, modCounter), "quotedText", QuotedTextAttrs, Some(ins.newText));
      activeModInfo, modNums := activeModInfo + [InlineRecord(sectionEId, modCounter, principalActUri, text, ins)], modNums + [modCounter];
      modCounter := modCounter + 1;
      r := Success(CompletedInline(m));
    }

    method ProcessParsing(d: Doc, prov: Provision) returns (r: Result<Status>)
      requires Valid() && InDoc(d) && state == ParsingInstruction
      requires prov.xml.Some? ==> prov.xml.value < |d.tag|
      modifies this, d
      ensures Valid() && InDoc(d) && |d.tag| >= old(|d.tag|)
      ensures ParsingStep(d, prov, r)
    {
      if !Opens(OrEmpty(prov.text)) {
        return Success(Consumed);
      }
      r := OpenQuote(d, prov);
    }

    /** The opening branch of PARSING_INSTRUCTION. */
    method OpenQuote(d: Doc, prov: Provision) returns (r: Result<Status>)
      requires Valid() && InDoc(d) && state == ParsingInstruction
      requires prov.xml.Some? ==> prov.xml.value < |d.tag|
      modifies this, d
      ensures Valid() && InDoc(d) && |d.tag| == old(|d.tag|) + 2
      ensures state == ConsumingContent && modCounter == old(modCounter) && details == old(details)
      ensures activeModInfo == old(activeModInfo) + [BlockRecord(sectionEId, old(modCounter), principalActUri, old(details).value)]
      ensures currentModBlock == Some(old(|d.tag|) + 1)
      ensures IsMod(d, old(|d.tag|) + 1, ModEId(sectionEId, old(modCounter)), "quotedStructure", QuotedStructureAttrs, None)
      ensures prov.xml.None? ==> r.Failure? && contentBuffer == old(contentBuffer)
      ensures prov.xml.Some? ==>
        r == Success(Consumed) && contentBuffer == old(contentBuffer) + [prov]
        && d.text[prov.xml.value] == DropOpeningQuote(old(d.text[prov.xml.value]))
    {
      OpenBlock(d);
      if prov.xml.None? {
        return Failure("AttributeError: provision has no element");
      }
      BufferFirst(d, prov);
      r := Success(Consumed);
    }

    /** `E.mod(E.quotedStructure(startQuote="“"), eId=mod_eid)` and its record. */
    method OpenBlock(d: Doc)
      requires Valid() && InDoc(d) && state == ParsingInstruction
      modifies this, d
      ensures Valid() && InDoc(d) && |d.tag| == old(|d.tag|) + 2 && Grows(old(Snap(d)), Snap(d))
      ensures state == ConsumingContent && modCounter == old(modCounter) && details == old(details)
      ensures activeModInfo == old(activeModInfo) + [BlockRecord(sectionEId, old(modCounter), principalActUri, old(details).value)]
      ensures currentModBlock == Some(old(|d.tag|) + 1) && contentBuffer == old(contentBuffer)
      ensures IsMod(d, old(|d.tag|) + 1, ModEId(sectionEId, old(modCounter)), "quotedStructure", QuotedStructureAttrs, None)
    {
      var m := NewMod(d, ModEId(sectionEId, modCounter), "quotedStructure", QuotedStructureAttrs, None);
      state, currentModBlock := ConsumingContent, Some(m);
      activeModInfo, modNums := activeModInfo + [BlockRecord(sectionEId, modCounter, principalActUri, details.value)], modNums + [modCounter];
    }

    /** The opening “ leaves the element's text and the provision is buffered. */
    method BufferFirst(d: Doc, prov: Provision)
      requires Valid() && InDoc(d) && prov.xml.Some? && prov.xml.value < |d.tag|
      modifies this`contentBuffer, d`text
      ensures Valid() && InDoc(d) && contentBuffer == old(contentBuffer) + [prov]
      ensures d.text == old(d.text)[prov.xml.value := DropOpeningQuote(old(d.text[prov.xml.value]))]
    {
      var x := prov.xml.value;
      d.SetText(x, DropOpeningQuote(d.text[x]));
      contentBuffer := contentBuffer + [prov];
    }

    /** CONSUMING_CONTENT, at the `quoteend`. */
    method QuoteEnd(d: Doc, prov: Provision) returns (r: Result<Status>)
      requires Valid() && InDoc(d) && state == ConsumingContent && prov.tag == "quoteend"
      modifies this, d
      ensures Valid() && InDoc(d) && |d.tag| >= old(|d.tag|)
      ensures ConsumingStep(d, prov, r)
    {
      var m := currentModBlock.value;
      var closed := CloseBlock(d, m, prov.text);
      if closed.Failure? { return Failure(closed.error); }
      EndBlock();
      r := Success(CompletedBlock(closed.value));
    }

    /** Back to IDLE: the counter moves past the closed block's. */
    method EndBlock()
      requires Valid() && state == ConsumingContent
      modifies this
      ensures Valid() && state == Idle && modCounter == old(modCounter) + 1 && activeModInfo == old(activeModInfo)
      ensures currentModBlock == None && contentBuffer == [] && details == None
    {
      IncreasingUpToLast(modNums);
      modCounter := modCounter + 1;
      state, currentModBlock, contentBuffer, details := Idle, None, [], None;
    }

    /** The quotation of the mod `m` is closed and filled, then the mod goes
        into a fresh `block`. */
    method CloseBlock(d: Doc, m: nat, endText: Option<string>) returns (r: Result<nat>)
      requires Valid() && InDoc(d) && m < |d.tag|
      modifies d
      ensures d.Valid() && |d.tag| >= old(|d.tag|)
      ensures r.Success? ==> IsBlock(d, r.value, m)
      ensures variant == Current ==>
        var q := old(d.FindChild(m, "quotedStructure"));
        (r.Success? <==> q.None? || forall k :: 0 <= k < |contentBuffer| ==> contentBuffer[k].xml.Some?)
        && (q.Some? ==>
              q.value < |d.tag| && q.value < old(|d.tag|) && "endQuote" in d.attrs[q.value]
              && d.attrs[q.value]["endQuote"] == EndQuoteOf(endText)
              && forall x :: x in d.kids[q.value] ==> x in old(d.kids[q.value]))
    {
      ghost var q := d.FindChild(m, "quotedStructure");
      var closed := CloseQuote(d, m, endText);
      if closed.Failure? { return Failure(closed.error); }
      var b := NewBlock(d, m);
      if variant == Current && q.Some? {
        assert d.attrs[q.value] == d.attrs[..b][q.value];
      }
      r := Success(b);
    }

    /** Sets `endQuote` on the `quotedStructure` of the mod `m`, when it has
        one, and fills it from the buffer. */
    method CloseQuote(d: Doc, m: nat, endText: Option<string>) returns (r: Result<()>)
      requires Valid() && InDoc(d) && m < |d.tag|
      modifies d
      ensures d.Valid() && |d.tag| >= old(|d.tag|)
      ensures variant == Current ==>
        var q := old(d.FindChild(m, "quotedStructure"));
        (r.Success? <==> q.None? || forall k :: 0 <= k < |contentBuffer| ==> contentBuffer[k].xml.Some?)
        && (q.Some? ==>
              q.value < old(|d.tag|) && "endQuote" in d.attrs[q.value]
              && d.attrs[q.value]["endQuote"] == EndQuoteOf(endText)
              && forall x :: x in d.kids[q.value] ==> x in old(d.kids[q.value]))
    {
      var q := d.FindChild(m, "quotedStructure");
      if q.Some? {
        d.SetAttr(q.value, "endQuote", EndQuoteOf(endText));
        if contentBuffer != [] {
          r := FillQuote(d, q.value, m);
          return;
        }
      }
      r := Success(());
    }

    /** The buffered provisions go under a fresh `div`; the older copy
        then rebuilds their hierarchy there and moves the result into the
        `quotedStructure` `q`, while the present one moves in the children
        of an empty `dummy_container`. */
    method FillQuote(d: Doc, q: nat, m: nat) returns (r: Result<()>)
      requires Valid() && InDoc(d) && q < |d.tag| && m < |d.tag|
      modifies d
      ensures d.Valid() && |d.tag| >= old(|d.tag|)
      ensures variant == Current ==>
        (r.Success? <==> forall k :: 0 <= k < |contentBuffer| ==> contentBuffer[k].xml.Some?)
        && d.attrs[q] == old(d.attrs[q])
        && forall x :: x in d.kids[q] ==> x in old(d.kids[q])
    {
      var div := d.NewElement("div");
      r := AppendAll(d, div, contentBuffer, q);
      if r.Failure? { return; }
      if variant == Legacy {
        var built := Structure.SectionHierarchy(d,
          [Provision("div", None, false, 0, 0, "left", Some(div), Some(""), -1)] + contentBuffer);
        if built.Failure? { return Failure(built.error); }
        var ok := MoveChildren(d, div, q);
        if !ok { return Failure("ValueError: cannot append an ancestor"); }
      } else {
        var built := d.NewElement("dummy_container");
        var ok := MoveChildren(d, built, q);
        assert ok;
      }
    }
  }
}
