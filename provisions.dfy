/** The provision classifier of `eisb_provisions.py`: one eISB paragraph
    (its text and the layout integers in its `class`) becomes one to three
    `Provision` records, and markers become eId snippets. The lxml node is
    a value here: its own text, its `class` and its inline children (each
    with text and tail, one level deep). */
module Provisions {
  import opened Wrappers
  import opened Text
  import opened Patterns

  /** `Provision`: the intermediate record the section builder consumes.
      `xml` is the element of the document tree it carries, if any; `text`
      is `None` for the blocks the amendment driver makes. */
  datatype Provision = Provision(
    tag: string, eid: Option<string>, ins: bool, hang: int, margin: int,
    align: string, xml: Option<nat>, text: Option<string>, idx: int)

  /** `AmendmentMetadata`: one active modification. */
  datatype AmendmentMetadata = AmendmentMetadata(
    kind: string, sourceEId: string, destinationUri: string,
    position: Option<string>, oldText: Option<string>, newText: Option<string>)

  /** `INSERTED_SECTION_THRESHOLD`, `PARAGRAPH_MARGIN_THRESHOLD`,
      `SUBPARAGRAPH_MARGIN_THRESHOLD` */
  const InsertedSectionThreshold := 8
  const ParagraphMarginThreshold := 14
  const SubparagraphMarginThreshold := 17

  // ---------------------------------------------------------------------
  // Layout

  /** Hanging indent, left margin and alignment of a paragraph. */
  datatype Layout = Layout(hang: int, margin: int, align: string)

  const DefaultLayout := Layout(0, 0, "left")

  /** `node.get("class") or ""` */
  function ClassText(cls: Option<string>): string {
    if cls.Some? then cls.value else ""
  }

  /** `_get_text_layout`: the class must split into exactly six tokens
      whose first two are integers; anything else, including a failed
      `int()`, gives the defaults. */
  function GetTextLayout(cls: Option<string>): (r: Layout)
    ensures |SplitWs(ClassText(cls))| != 6 ==> r == DefaultLayout
    ensures var parts := SplitWs(ClassText(cls));
      |parts| == 6 && ParseInt(parts[0]).Some? && ParseInt(parts[1]).Some? ==>
      r == Layout(ParseInt(parts[0]).value, ParseInt(parts[1]).value, parts[3])
    ensures var parts := SplitWs(ClassText(cls));
      |parts| == 6 && (ParseInt(parts[0]).None? || ParseInt(parts[1]).None?) ==> r == DefaultLayout
    ensures r != DefaultLayout ==>
      var parts := SplitWs(ClassText(cls));
      |parts| == 6 && ParseInt(parts[0]) == Some(r.hang) && ParseInt(parts[1]) == Some(r.margin)
      && r.align == parts[3]
    ensures r.align == "left" || IsToken(r.align)
  {
    var parts := SplitWs(ClassText(cls));
    if |parts| == 6 then
      match (ParseInt(parts[0]), ParseInt(parts[1]))
      case (Some(h), Some(m)) => Layout(h, m, parts[3])
      case _ => DefaultLayout
    else DefaultLayout
  }

  /** A class written as six blank-separated tokens with two leading
      integers (signed or not) reads back as those integers and the fourth
      token. */
  lemma LayoutRoundTrip(h: int, m: int, t2: string, a: string, t4: string, t5: string)
    requires IsToken(t2) && IsToken(a) && IsToken(t4) && IsToken(t5)
    ensures GetTextLayout(Some(Join([IntToDecimal(h), IntToDecimal(m), t2, a, t4, t5], " "))) == Layout(h, m, a)
  {
    var ws := [IntToDecimal(h), IntToDecimal(m), t2, a, t4, t5];
    NoSpaceToken(h);
    NoSpaceToken(m);
    assert forall i :: 0 <= i < |ws| ==> IsToken(ws[i]);
    SplitJoin(ws);
    var parts := SplitWs(ClassText(Some(Join(ws, " "))));
    assert parts == ws && |parts| == 6;
    ParseSignedRoundTrip(h);
    ParseSignedRoundTrip(m);
    assert ParseInt(parts[0]) == Some(h) && ParseInt(parts[1]) == Some(m) && parts[3] == a;
  }

  /** `str(i)` holds no white space. */
  lemma NoSpaceToken(i: int)
    ensures IsToken(IntToDecimal(i))
  {
    var n := IntToDecimal(i);
    forall j | 0 <= j < |n| ensures !IsSpace(n[j]) {
      if n[j] != '-' { assert n[j] in NatToDecimal(if i < 0 then -i else i); }
    }
  }

  // ---------------------------------------------------------------------
  // eId snippets

  /** `_is_valid_eid_char`: ASCII letters and digits, `-` and `_`. */
  predicate IsValidEIdChar(c: char) {
    IsAlnum(c) || c == '-' || c == '_'
  }

  /** The characters the AKN naming convention allows in an eId. */
  predicate IsEIdChar(c: char) {
    IsLower(c) || IsDigit(c) || c == '-' || c == '_'
  }

  /** `''.join(d.lower() for d in num if _is_valid_eid_char(d))` */
  function EIdFilter(num: string): (r: string)
    ensures forall c :: c in r ==> IsEIdChar(c)
    ensures |r| <= |num|
  {
    if num == [] then []
    else (if IsValidEIdChar(num[0]) then [LowerChar(num[0])] else []) + EIdFilter(num[1..])
  }

  /** `make_eid_snippet(label, num)`: the kind verbatim, `_`, and the
      characters of `num` that the naming convention allows, lower-cased. */
  function MakeEIdSnippet(kind: string, num: string): (r: string)
    ensures |r| > |kind| && r[..|kind|] == kind && r[|kind|] == '_'
    ensures forall c :: c in r[|kind| + 1..] ==> IsEIdChar(c)
    ensures r[|kind| + 1..] == EIdFilter(num)
  {
    assert (kind + "_" + EIdFilter(num))[|kind| + 1..] == EIdFilter(num);
    kind + "_" + EIdFilter(num)
  }

  /** Filtering keeps exactly the allowed characters of `num`: a number
      already written in them is kept as it is, so filtering twice is
      filtering once. */
  lemma {:induction false} EIdFilterKeeps(num: string)
    requires forall c :: c in num ==> IsEIdChar(c)
    ensures EIdFilter(num) == num
  {
    if num != [] {
      assert num[0] in num;
      assert forall c :: c in num[1..] ==> c in num;
      EIdFilterKeeps(num[1..]);
      assert num == [num[0]] + num[1..];
    }
  }

  lemma EIdFilterIdempotent(num: string)
    ensures EIdFilter(EIdFilter(num)) == EIdFilter(num)
  {
    EIdFilterKeeps(EIdFilter(num));
  }

  /** A character disallowed by the convention never reaches the eId, and
      every allowed one does. */
  lemma {:induction false} EIdFilterMembers(num: string, c: char)
    ensures c in EIdFilter(num) <==> exists i :: 0 <= i < |num| && IsValidEIdChar(num[i]) && LowerChar(num[i]) == c
  {
    if num != [] {
      EIdFilterMembers(num[1..], c);
      if c in EIdFilter(num) && !(IsValidEIdChar(num[0]) && LowerChar(num[0]) == c) {
        var i :| 0 <= i < |num[1..]| && IsValidEIdChar(num[1..][i]) && LowerChar(num[1..][i]) == c;
        assert num[i + 1] == num[1..][i];
      }
      if exists i :: 0 <= i < |num| && IsValidEIdChar(num[i]) && LowerChar(num[i]) == c {
        var i :| 0 <= i < |num| && IsValidEIdChar(num[i]) && LowerChar(num[i]) == c;
        if i > 0 { assert num[1..][i - 1] == num[i]; }
      }
    }
  }

  lemma EIdExamples()
    ensures MakeEIdSnippet("subsect", "(1A)") == "subsect_1a"
    ensures MakeEIdSnippet("para", "A") == "para_a"
    ensures MakeEIdSnippet("sect", "71A") == "sect_71a"
  {
    assert EIdFilter("(1A)") == "1a" by {
      assert EIdFilter(")") == [];
      assert EIdFilter("A)") == "a";
      assert EIdFilter("1A)") == "1a";
    }
    assert EIdFilter("A") == "a";
    assert EIdFilter("71A") == "71a" by {
      assert EIdFilter("1A") == "1a";
    }
  }

  // ---------------------------------------------------------------------
  // The raw paragraph

  /** An inline child: its tag, its text and its tail. */
  datatype Inline = Inline(tag: string, text: Option<string>, tail: Option<string>)

  /** A `<p>` or `<table>` child of `<sect>`. */
  datatype Para = Para(tag: string, cls: Option<string>, text: Option<string>, inlines: seq<Inline>)

  function OrEmpty(s: Option<string>): string {
    if s.Some? then s.value else ""
  }

  /** The text and tail of one inline child. */
  function Piece(k: Inline): string {
    OrEmpty(k.text) + OrEmpty(k.tail)
  }

  /** The text and tails of the inline children, in document order. */
  function InlineText(ins: seq<Inline>): string {
    if ins == [] then "" else Piece(ins[0]) + InlineText(ins[1..])
  }

  /** `"".join(node.xpath(".//text()"))` */
  function AllText(p: Para): string {
    OrEmpty(p.text) + InlineText(p.inlines)
  }

  /** `node.find(t)`: the first inline child tagged `t`. */
  function FindInline(ins: seq<Inline>, t: string): (r: Option<nat>)
    ensures r.Some? ==> r.value < |ins| && ins[r.value].tag == t
    ensures r.Some? ==> forall i :: 0 <= i < r.value ==> ins[i].tag != t
    ensures r.None? ==> forall i :: 0 <= i < |ins| ==> ins[i].tag != t
  {
    if ins == [] then None
    else if ins[0].tag == t then Some(0)
    else match FindInline(ins[1..], t)
      case None => None
      case Some(i) => Some(i + 1)
  }

  /** The text the inline children contribute once every child tagged `t`
      has lost its own text but kept its tail. */
  function InlineTextWithout(ins: seq<Inline>, t: string): string {
    if ins == [] then ""
    else (if ins[0].tag == t then OrEmpty(ins[0].tail) else Piece(ins[0])) + InlineTextWithout(ins[1..], t)
  }

  /** Appends `extra` to an optional text; nothing to append leaves it as it is. */
  function Glue(s: Option<string>, extra: string): (r: Option<string>)
    ensures OrEmpty(r) == OrEmpty(s) + extra
  {
    if extra == [] then s else Some(OrEmpty(s) + extra)
  }

  /** `etree.strip_elements(node, t, with_tail=False)` on a run of inline
      children: each child tagged `t` goes, and its tail joins the tail of
      the kept child before it. The first component is the text that has no
      kept child before it in the run, for the caller to glue on. */
  function StripRun(ins: seq<Inline>, t: string): (r: (string, seq<Inline>))
    ensures forall i :: 0 <= i < |r.1| ==> r.1[i].tag != t
    ensures |r.1| <= |ins|
  {
    if ins == [] then ("", [])
    else
      var (pre, ks) := StripRun(ins[1..], t);
      if ins[0].tag == t then (OrEmpty(ins[0].tail) + pre, ks)
      else ("", [ins[0].(tail := Glue(ins[0].tail, pre))] + ks)
  }

  /** Stripping a run keeps its text, minus the stripped children's own text. */
  lemma {:induction false} StripRunText(ins: seq<Inline>, t: string)
    ensures StripRun(ins, t).0 + InlineText(StripRun(ins, t).1) == InlineTextWithout(ins, t)
  {
    if ins != [] {
      StripRunText(ins[1..], t);
      var (pre, ks) := StripRun(ins[1..], t);
      var k := ins[0];
      if k.tag == t {
        Assoc(OrEmpty(k.tail), pre, InlineText(ks));
      } else {
        var k' := k.(tail := Glue(k.tail, pre));
        assert ([k'] + ks)[1..] == ks;
        assert Piece(k') == OrEmpty(k.text) + (OrEmpty(k.tail) + pre);
        Assoc(OrEmpty(k.text), OrEmpty(k.tail), pre);
        Assoc(Piece(k), pre, InlineText(ks));
      }
    }
  }

  /** `etree.strip_elements(node, t, with_tail=False)` on the inline
      children: each child tagged `t` goes, and its tail joins the tail of
      the child before it or, if there is none, the node's text. */
  function StripInlines(text: Option<string>, ins: seq<Inline>, t: string): (r: (Option<string>, seq<Inline>))
    ensures forall i :: 0 <= i < |r.1| ==> r.1[i].tag != t
    ensures |r.1| <= |ins|
  {
    var (pre, ks) := StripRun(ins, t);
    (Glue(text, pre), ks)
  }

  /** The flattened text of a stripped node is its old flattened text
      without the stripped children's own text. */
  lemma StripInlinesText(text: Option<string>, ins: seq<Inline>, t: string)
    ensures OrEmpty(StripInlines(text, ins, t).0) + InlineText(StripInlines(text, ins, t).1)
      == OrEmpty(text) + InlineTextWithout(ins, t)
  {
    StripRunText(ins, t);
    var (pre, ks) := StripRun(ins, t);
    Assoc(OrEmpty(text), pre, InlineText(ks));
  }

  lemma Assoc(x: string, y: string, z: string)
    ensures (x + y) + z == x + (y + z)
  {
  }

  /** The combining of a lone `(` with an italic run `<i>a</i>)`: the
      first `<i>` child is folded into the text, tail included, and
      removed. */
  function NormaliseItalic(p: Para): (r: Para)
    ensures r.tag == p.tag && r.cls == p.cls && |r.inlines| <= |p.inlines|
    ensures r != p ==> p.text == Some("(") && FindInline(p.inlines, "i").Some?
  {
    match FindInline(p.inlines, "i")
    case Some(i) =>
      var it := p.inlines[i];
      if p.text == Some("(") && it.tail.Some? && it.tail.value != [] && StartsWith(it.tail.value, ")") then
        p.(text := Some("(" + OrEmpty(it.text) + it.tail.value), inlines := p.inlines[..i] + p.inlines[i + 1..])
      else p
    case None => p
  }

  /** When the `<i>` is the first child the flattened text is unchanged. */
  lemma ItalicFirstKeepsText(p: Para)
    requires FindInline(p.inlines, "i") == Some(0)
    ensures AllText(NormaliseItalic(p)) == AllText(p)
  {
    var r := NormaliseItalic(p);
    if r != p {
      var it := p.inlines[0];
      assert r.inlines == p.inlines[1..];
      Assoc("(", OrEmpty(it.text), OrEmpty(it.tail));
      assert r.text == Some("(" + Piece(it));
      Assoc("(", Piece(it), InlineText(p.inlines[1..]));
    }
  }


  /** What `_identify_provision` reports. */
  datatype Meta = Meta(tag: string, pnumber: Option<string>, eid: Option<string>)

  const TblockMeta := Meta("tblock", None, None)

  /** The bold marker of an inserted section: when the first `<b>` child
      has a tail, every `<b>` is stripped and the first one's text,
      stripped, is the section number. */
  function StripBold(p: Para): (r: (Meta, Para))
    ensures r.1.tag == p.tag && r.1.cls == p.cls
    ensures r.0 == TblockMeta || r.0.tag == "section"
    ensures r.0.tag == "section" ==> exists i :: 0 <= i < |p.inlines| && p.inlines[i].tag == "b"
    ensures forall i :: 0 <= i < |r.1.inlines| ==> r.1.inlines[i].tag != "b" || r.0 == TblockMeta
  {
    match FindInline(p.inlines, "b")
    case Some(i) =>
      var b := p.inlines[i];
      if b.tail.Some? then
        var (tx, ks) := StripInlines(p.text, p.inlines, "b");
        var num := Strip(OrEmpty(b.text));
        (Meta("section", Some(num), Some(MakeEIdSnippet("sect", num))), p.(text := tx, inlines := ks))
      else (TblockMeta, p)
    case None => (TblockMeta, p)
  }

  /** The tag and eId label the marker kind gives. */
  function KindTag(k: MarkerKind): string {
    match k
    case Subsection => "subsection"
    case Paragraph => "paragraph"
    case Clause => "clause"
    case Subclause => "subclause"
  }

  function KindLabel(k: MarkerKind): string {
    match k
    case Subsection => "subsect"
    case Paragraph => "para"
    case Clause => "clause"
    case Subclause => "subclause"
  }

  /** `_identify_provision(node, ...)`: the normalisations, then the
      leading marker, which overrides a bold section number. A paragraph
      marker gets its eId from the caller. The node comes back with the
      marker and the white space after it taken off its text. */
  function IdentifyProvision(node: Para): (r: (Meta, Para))
    ensures r.1.tag == node.tag && r.1.cls == node.cls
    ensures var (m0, n0) := StripBold(NormaliseItalic(node));
      match MatchProvisionType(OrEmpty(n0.text))
      case None => r == (m0, n0)
      case Some((k, mk)) =>
        r.0.tag == KindTag(k) && r.0.pnumber == Some(mk.group)
        && r.0.eid == (if k == Paragraph then m0.eid else Some(MakeEIdSnippet(KindLabel(k), mk.group)))
        && r.1 == n0.(text := Some(LStrip(OrEmpty(n0.text)[mk.end..])))
  {
    var (m0, n0) := StripBold(NormaliseItalic(node));
    var t := OrEmpty(n0.text);
    match MatchProvisionType(t)
    case None => (m0, n0)
    case Some((k, mk)) =>
      var eid := if k == Paragraph then m0.eid else Some(MakeEIdSnippet(KindLabel(k), mk.group));
      (Meta(KindTag(k), Some(mk.group), eid), n0.(text := Some(LStrip(t[mk.end..]))))
  }

  /** The text left after a marker is the text that followed the marker
      group; before the group there is at most one white-space
      character. */
  lemma MarkerSplit(t: string)
    requires MatchProvisionType(t).Some?
    ensures var mk := MatchProvisionType(t).value.1;
      var w := mk.end - |mk.group|;
      w <= 1 && mk.end <= |t| && t == t[..w] + mk.group + t[mk.end..] && (w == 1 ==> IsSpace(t[0]))
  {
    var (k, mk) := MatchProvisionType(t).value;
    var w := mk.end - |mk.group|;
    assert MarkerAt(t, k, w, mk.end);
    ThreeParts(t, w, mk.end);
  }

  lemma ThreeParts(t: string, i: nat, j: nat)
    requires i <= j <= |t|
    ensures t == t[..i] + t[i..j] + t[j..]
  {
  }


  // ---------------------------------------------------------------------
  // Paragraph or subparagraph

  /** `"".join(d for d in pnumber if d.isalnum())` */
  function AlnumOnly(s: string): (r: string)
    ensures forall c :: c in r ==> IsAlnum(c)
    ensures |r| <= |s|
  {
    if s == [] then [] else (if IsAlnum(s[0]) then [s[0]] else []) + AlnumOnly(s[1..])
  }

  predicate IsRomanStart(c: char) {
    c == 'i' || c == 'v' || c == 'x'
  }

  /** The refinement of a lower-case paragraph marker: a margin of 14
      means `paragraph`; otherwise a marker whose first alphanumeric
      character, lower-cased, is i, v or x is a `subparagraph` when the
      margin is 17 or the previous marker was not `huw`. */
  function ParagraphTag(pnumber: string, margin: int, isHuw: bool): (t: string)
    ensures t == "paragraph" || t == "subparagraph"
    ensures margin == ParagraphMarginThreshold ==> t == "paragraph"
    ensures t == "subparagraph" <==>
      margin != ParagraphMarginThreshold && AlnumOnly(pnumber) != [] && IsRomanStart(LowerChar(AlnumOnly(pnumber)[0]))
      && (margin == SubparagraphMarginThreshold || !isHuw)
  {
    var n := AlnumOnly(pnumber);
    if margin == ParagraphMarginThreshold then "paragraph"
    else if n != [] && IsRomanStart(LowerChar(n[0])) && (margin == SubparagraphMarginThreshold || !isHuw) then "subparagraph"
    else "paragraph"
  }

  /** A marker group always holds its parentheses, so it is never `huw`
      and the flag that depends on it is never raised. */
  lemma MarkerIsNotHuw(text: string)
    requires MatchProvisionType(text).Some?
    ensures MatchProvisionType(text).value.1.group != "huw"
  {
    var (k, mk) := MatchProvisionType(text).value;
    var g := mk.group;
    assert MarkerAt(text, k, mk.end - |g|, mk.end);
    assert IsMarkerText(text[mk.end - |g|..mk.end], k);
    assert g[QuoteLen(g)] == '(';
  }

  /** With the flag down, the margin of 17 no longer matters: away from a
      margin of 14 a roman first letter means `subparagraph`. */
  lemma RomanIsSubparagraph(pnumber: string, margin: int)
    requires margin != ParagraphMarginThreshold
    ensures ParagraphTag(pnumber, margin, false) == "subparagraph" <==>
      AlnumOnly(pnumber) != [] && IsRomanStart(LowerChar(AlnumOnly(pnumber)[0]))
  {
  }

  // ---------------------------------------------------------------------
  // The provisions of one paragraph

  /** The element a provision carries, as the classifier describes it:
      none, the paragraph itself with its text, the table, or a fresh
      container with its `num` and its eId. */
  datatype XmlShape =
    | NoXml
    | PElement(body: Option<string>)
    | TableElement
    | ContainerElement(ctag: string, num: Option<string>, ceid: Option<string>)

  /** A provision less its index, with its element described. */
  datatype Row = Row(tag: string, eid: Option<string>, ins: bool, hang: int, margin: int, align: string,
                     text: Option<string>, xml: XmlShape)

  /** The count of `c` in `s`: `s.count(c)`. */
  function Count(s: string, c: char): nat {
    multiset(s)[c]
  }

  /** A paragraph's text closes a quotation opened in an earlier one. */
  predicate ClosesQuote(text: string) {
    EndsWith(text, [CDQ]) && Count(text, CDQ) > Count(text, ODQ)
  }

  /** `text[-2:]` */
  function LastTwo(s: string): (r: string)
    ensures |r| == if |s| < 2 then |s| else 2
    ensures EndsWith(s, r)
  {
    if |s| < 2 then s else s[|s| - 2..]
  }

  /** What the classifier decides for a non-empty paragraph: the
      structural row, if any, with its marker number (for the `num` of its
      container), and the flag for the next paragraph. */
  datatype Decision = Decision(structural: Option<Row>, pnumber: Option<string>, isHuw: bool)

  /** The structural decision for a non-empty `<p>` with the given layout
      and flattened text, given what `_identify_provision` reported. */
  function Decide(m: Meta, l: Layout, text: string, isHuw: bool): (r: Decision)
    ensures r.structural.Some? ==> r.structural.value.tag == m.tag || (m.tag == "paragraph" && r.structural.value.tag == "subparagraph")
    ensures r.structural.None? <==> m.tag == "tblock"
    ensures r.structural.Some? && r.structural.value.ins ==> r.structural.value.tag == "section"
    ensures r.isHuw ==> isHuw || (m.tag == "paragraph" && m.pnumber == Some("huw"))
    ensures r.structural.Some? ==>
      r.structural.value.xml == ContainerElement(r.structural.value.tag, m.pnumber, r.structural.value.eid)
    ensures r.structural.Some? ==>
      var s := r.structural.value;
      s.hang == l.hang && s.margin == l.margin && s.align == l.align && s.text == Some(text)
    // A bold section number past the threshold is an inserted section, and nothing else is
    ensures (r.structural.Some? && r.structural.value.ins) <==>
      m.tag == "section" && l.hang + l.margin > InsertedSectionThreshold
    ensures m.tag == "section" && l.hang + l.margin > InsertedSectionThreshold ==>
      r.structural.Some? && r.structural.value.tag == "section"
      && r.structural.value.eid == Some(MakeEIdSnippet("sect", OrEmpty(m.pnumber))) && r.isHuw == isHuw
    // A lower-case marker is refined by the margin rule, with the matching eId
    ensures m.tag == "paragraph" && m.pnumber.Some? && m.pnumber.value != [] ==>
      r.structural.Some? && r.structural.value.tag == ParagraphTag(m.pnumber.value, l.margin, isHuw)
      && r.structural.value.eid
         == Some(MakeEIdSnippet(if r.structural.value.tag == "paragraph" then "para" else "subpara", m.pnumber.value))
      && r.isHuw == (m.pnumber.value == "huw")
    // Any other reported tag is kept with its eId
    ensures m.tag != "tblock" && !(m.tag == "section" && l.hang + l.margin > InsertedSectionThreshold)
            && !(m.tag == "paragraph" && m.pnumber.Some? && m.pnumber.value != []) ==>
      r.structural == Some(Row(m.tag, m.eid, false, l.hang, l.margin, l.align, Some(text),
                               ContainerElement(m.tag, m.pnumber, m.eid)))
      && r.isHuw == isHuw
  {
    if m.tag == "section" && l.hang + l.margin > InsertedSectionThreshold then
      var num := OrEmpty(m.pnumber);
      var eid := Some(MakeEIdSnippet("sect", num));
      Decision(Some(Row("section", eid, true, l.hang, l.margin, l.align, Some(text), ContainerElement("section", m.pnumber, eid))),
        m.pnumber, isHuw)
    else
      var refine := m.pnumber.Some? && m.pnumber.value != [] && m.tag == "paragraph";
      var tag := if refine then ParagraphTag(m.pnumber.value, l.margin, isHuw) else m.tag;
      var eid := if refine then Some(MakeEIdSnippet(if tag == "paragraph" then "para" else "subpara", m.pnumber.value)) else m.eid;
      var huw := if refine then m.pnumber.value == "huw" else isHuw;
      if m.tag != "tblock" then
        Decision(Some(Row(tag, eid, false, l.hang, l.margin, l.align, Some(text), ContainerElement(tag, m.pnumber, eid))), m.pnumber, huw)
      else Decision(None, m.pnumber, huw)
  }

  /** The structural row of a decision, as a list of zero or one row. */
  function StructuralRows(dec: Decision): (s: seq<Row>)
    ensures |s| <= 1 && (s == [] <==> dec.structural.None?)
  {
    if dec.structural.Some? then [dec.structural.value] else []
  }

  /** The `tblock` that carries the paragraph itself, whose own text is
      `body`. */
  function TblockRow(l: Layout, text: string, body: Option<string>): Row {
    Row("tblock", None, false, l.hang, l.margin, l.align, Some(text), PElement(body))
  }

  /** The `quoteend` marker, when the text closes a quotation; it carries
      the last two characters of the text and no element. */
  function QuoteRows(l: Layout, text: string): (q: seq<Row>)
    ensures q == [] <==> !ClosesQuote(text)
    ensures q != [] ==> q == [Row("quoteend", None, true, l.hang, l.margin, l.align, Some(LastTwo(text)), NoXml)]
  {
    if ClosesQuote(text) then [Row("quoteend", None, true, l.hang, l.margin, l.align, Some(LastTwo(text)), NoXml)] else []
  }

  /** The rows one `<p>` or `<table>` yields, the node as the classifier
      leaves it, and the flag for the next node. */
  function NodeRows(p: Para, isHuw: bool): (r: (seq<Row>, Para, bool))
  {
    var l := GetTextLayout(p.cls);
    var text := Strip(AllText(p));
    if p.tag == "table" then ([Row("table", None, false, l.hang, l.margin, l.align, Some(text), TableElement)], p, isHuw)
    else if text == [] then ([TblockRow(l, text, p.text)], p, isHuw)
    else
      var (m, node) := IdentifyProvision(p);
      var dec := Decide(m, l, text, isHuw);
      (ParagraphRows(dec, l, text, node.text), node, dec.isHuw)
  }

  /** The rows of a paragraph with text, given the decision about it. */
  function ParagraphRows(dec: Decision, l: Layout, text: string, body: Option<string>): seq<Row> {
    StructuralRows(dec) + [TblockRow(l, text, body)] + QuoteRows(l, text)
  }

  /** The decision about a paragraph with text and the node as the
      classifier leaves it, from which its rows follow. */
  function Classify(p: Para, isHuw: bool): (r: (Decision, Para))
    requires p.tag != "table" && Strip(AllText(p)) != []
    ensures NodeRows(p, isHuw) == (ParagraphRows(r.0, GetTextLayout(p.cls), Strip(AllText(p)), r.1.text), r.1, r.0.isHuw)
    ensures r.0.structural.Some? ==> r.0.structural.value.xml.ContainerElement?
  {
    var (m, node) := IdentifyProvision(p);
    (Decide(m, GetTextLayout(p.cls), Strip(AllText(p)), isHuw), node)
  }

  /** A table or a paragraph with no text is one provision. */
  lemma SingleRow(p: Para, isHuw: bool)
    requires p.tag == "table" || Strip(AllText(p)) == []
    ensures |NodeRows(p, isHuw).0| == 1
    ensures NodeRows(p, isHuw).0[0].tag == if p.tag == "table" then "table" else "tblock"
    ensures NodeRows(p, isHuw) == ([SingleNodeRow(p)], p, isHuw)
  {
  }

  /** The one row of a table or of a paragraph with no text. */
  function SingleNodeRow(p: Para): Row {
    SingleRowOf(p.tag == "table", GetTextLayout(p.cls), Strip(AllText(p)), p.text)
  }

  function SingleRowOf(isTable: bool, l: Layout, text: string, body: Option<string>): Row {
    if isTable then Row("table", None, false, l.hang, l.margin, l.align, Some(text), TableElement)
    else TblockRow(l, text, body)
  }

  /** Any other paragraph is at most one structural provision, exactly
      one `tblock` and a `quoteend` exactly when its text closes a
      quotation. */
  lemma NodeRowsShape(p: Para, isHuw: bool)
    requires p.tag != "table" && Strip(AllText(p)) != []
    ensures NodeRows(p, isHuw).0 ==
      StructuralRows(Decide(IdentifyProvision(p).0, GetTextLayout(p.cls), Strip(AllText(p)), isHuw))
      + [TblockRow(GetTextLayout(p.cls), Strip(AllText(p)), IdentifyProvision(p).1.text)] + QuoteRows(GetTextLayout(p.cls), Strip(AllText(p)))
    ensures NodeRows(p, isHuw).2 == Decide(IdentifyProvision(p).0, GetTextLayout(p.cls), Strip(AllText(p)), isHuw).isHuw
  {
  }

  /** The structural row is never a `tblock`, `table` or `quoteend`. */
  lemma StructuralTags(m: Meta, l: Layout, text: string, isHuw: bool)
    requires m.tag in {"tblock", "section", "subsection", "paragraph", "clause", "subclause"}
    ensures forall j :: 0 <= j < |StructuralRows(Decide(m, l, text, isHuw))| ==>
      StructuralRows(Decide(m, l, text, isHuw))[j].tag !in {"tblock", "quoteend", "table"}
  {
  }

  /** The tags `_identify_provision` reports. */
  lemma IdentifyTags(p: Para)
    ensures IdentifyProvision(p).0.tag in {"tblock", "section", "subsection", "paragraph", "clause", "subclause"}
  {
  }

  /** The classifier never raises the `huw` flag: it starts down and a
      paragraph marker can only raise it by being `huw`. */
  lemma NodeRowsKeepHuwDown(p: Para)
    ensures !NodeRows(p, false).2
  {
    if p.tag != "table" && Strip(AllText(p)) != [] {
      var m := IdentifyProvision(p).0;
      var dec := Decide(m, GetTextLayout(p.cls), Strip(AllText(p)), false);
      assert NodeRows(p, false).2 == dec.isHuw;
      var n0 := StripBold(NormaliseItalic(p)).1;
      if MatchProvisionType(OrEmpty(n0.text)).Some? {
        MarkerIsNotHuw(OrEmpty(n0.text));
      }
    }
  }

  // ---------------------------------------------------------------------
  // Official Journal references

  const EurLexPrefix := "https://eur-lex.europa.eu/legal-content/EN/TXT/?uri="

  /** `parse_ojref`: dots and blanks removed, then the OJ reference; no
      match gives the empty string, a match the EUR-Lex URI with the
      number padded to three digits and the page to four. */
  function ParseOjref(ref: string): (r: string)
    ensures ParseOjReference(Remove(Remove(ref, '.'), ' ')).None? <==> r == ""
    ensures r != "" ==> StartsWith(r, OjUriPrefix)
    ensures r != "" ==> var o := ParseOjReference(Remove(Remove(ref, '.'), ' ')).value;
      ReadOjUri(r) == Some(OjUriParts(o.series, o.year, DecimalValue(o.number), DecimalValue(o.page)))
  {
    var s := Remove(Remove(ref, '.'), ' ');
    match ParseOjReference(s)
    case None => ""
    case Some(o) =>
      var u := OjUriPrefix + Join(OjUriFields(o), ".");
      assert u[..|OjUriPrefix|] == OjUriPrefix;
      OjUriRead(o);
      u
  }

  const OjUriPrefix := EurLexPrefix + "uriserv:OJ."

  /** The dot-separated fields of `{series}_.{year}.{number:03d}.01.{page:04d}.01.ENG`. */
  function OjUriFields(o: OjRef): seq<string>
    requires Digits(o.number) && Digits(o.page)
  {
    [[o.series] + "_", o.year, ZeroPad(DecimalValue(o.number), 3), "01", ZeroPad(DecimalValue(o.page), 4), "01", "ENG"]
  }

  /** What an Official Journal URI names: the series letter, the year, the
      issue number and the page. */
  datatype OjUriParts = OjUriParts(series: char, year: string, number: nat, page: nat)

  /** Every character of `s` is a decimal digit. */
  predicate Digits(s: string) {
    forall c :: c in s ==> IsDigit(c)
  }

  /** Reads an Official Journal URI back: after the EUR-Lex prefix and
      `uriserv:OJ.` come seven dot-separated fields, the series with `_`,
      the four-digit year, the number in at least three digits, `01`, the
      page in at least four digits, `01` and `ENG`. */
  function ReadOjUri(u: string): Option<OjUriParts> {
    if !StartsWith(u, OjUriPrefix) then None
    else
      var f := SplitOn(u[|OjUriPrefix|..], '.');
      if |f| == 7 && |f[0]| == 2 && f[0][1] == '_'
        && |f[1]| == 4 && Digits(f[1])
        && |f[2]| >= 3 && Digits(f[2]) && f[3] == "01"
        && |f[4]| >= 4 && Digits(f[4]) && f[5] == "01" && f[6] == "ENG"
      then Some(OjUriParts(f[0][0], f[1], DecimalValue(f[2]), DecimalValue(f[4])))
      else None
  }

  /** No field of the URI holds a dot. */
  lemma OjFieldsUndotted(o: OjRef)
    requires Digits(o.year) && Digits(o.number) && Digits(o.page) && o.series != '.'
    ensures forall k :: 0 <= k < |OjUriFields(o)| ==> '.' !in OjUriFields(o)[k]
  {
    var ws := OjUriFields(o);
    forall k | 0 <= k < |ws| ensures '.' !in ws[k] {
      if k == 0 {
        assert ws[0] == [o.series, '_'];
      } else if k == 3 || k == 5 {
        assert ws[k] == ['0', '1'];
      } else if k == 6 {
        assert ws[k] == ['E', 'N', 'G'];
      } else {
        assert Digits(ws[k]);
      }
    }
  }

  /** The URI `parse_ojref` builds from a reference reads back as that
      reference's series, year, number and page. */
  lemma OjUriRead(o: OjRef)
    requires (o.series == 'C' || o.series == 'L') && |o.year| == 4
    requires Digits(o.year) && Digits(o.number) && Digits(o.page)
    ensures ReadOjUri(OjUriPrefix + Join(OjUriFields(o), "."))
      == Some(OjUriParts(o.series, o.year, DecimalValue(o.number), DecimalValue(o.page)))
  {
    var ws := OjUriFields(o);
    OjFieldsUndotted(o);
    SplitOnJoin(ws, '.');
    var u := OjUriPrefix + Join(ws, ".");
    assert u[..|OjUriPrefix|] == OjUriPrefix && u[|OjUriPrefix|..] == Join(ws, ".");
    OjFieldsShape(o);
  }

  /** The fields have the widths, digits and constants a reader expects,
      and the padded fields keep their numbers. */
  lemma OjFieldsShape(o: OjRef)
    requires |o.year| == 4 && Digits(o.year) && Digits(o.number) && Digits(o.page)
    ensures var f := OjUriFields(o);
      |f| == 7 && |f[0]| == 2 && f[0][0] == o.series && f[0][1] == '_'
      && |f[1]| == 4 && Digits(f[1]) && f[1] == o.year
      && |f[2]| >= 3 && Digits(f[2]) && DecimalValue(f[2]) == DecimalValue(o.number) && f[3] == "01"
      && |f[4]| >= 4 && Digits(f[4]) && DecimalValue(f[4]) == DecimalValue(o.page) && f[5] == "01" && f[6] == "ENG"
  {
    ZeroPadValue(DecimalValue(o.number), 3);
    ZeroPadValue(DecimalValue(o.page), 4);
  }
}
