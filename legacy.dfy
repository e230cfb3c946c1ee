/** The older copy of the section parser in `actsetl/parsers/eisb.py`.
    Its amendment parser is `AmendmentParser` with the `Legacy` variant,
    and its hierarchy builder, `fix_headings` and
    `build_active_modifications` are those of `eisb_structure.py`
    character for character. What differs is modelled here: eId snippets
    that keep the case of the number, a layout read by splitting on single
    blanks that raises on a bad class, a paragraph that always yields a
    container and a `tblock`, records that carry no index, and inline mods
    placed by matching text. */
module Legacy {
  import opened Wrappers
  import opened Text
  import opened Patterns
  import opened DocTree
  import opened Provisions
  import opened Extraction
  import opened Amendments
  import opened Sections

  /** The legacy `Provision` has no `idx`; its records carry this value. */
  const NoIdx := -1

  // ---------------------------------------------------------------------
  // eId snippets

  /** `make_eid_snippet(kind, num)` of `eisb.py`: the kind, `_`, and the
      ASCII letters and digits of `num`, case kept. */
  function LegacyEIdSnippet(kind: string, num: string): (r: string)
    ensures |r| > |kind| && r[..|kind|] == kind && r[|kind|] == '_'
    ensures forall c :: c in r[|kind| + 1..] ==> IsAlnum(c)
  {
    assert (kind + "_" + AlnumOnly(num))[|kind| + 1..] == AlnumOnly(num);
    kind + "_" + AlnumOnly(num)
  }

  lemma LegacyEIdExample()
    ensures LegacyEIdSnippet("subsect", "(1A)") == "subsect_1A"
  {
    assert AlnumOnly("(1A)") == "1A" by {
      assert AlnumOnly(")") == [];
      assert AlnumOnly("A)") == "A";
    }
  }

  /** On numbers without `-` and `_` the current `make_eid_snippet` is the
      legacy one with the number lower-cased. */
  lemma {:induction false} EIdFiltersAgree(num: string)
    requires '-' !in num && '_' !in num
    ensures EIdFilter(num) == Lower(AlnumOnly(num))
  {
    if num != [] {
      assert num[0] in num;
      assert forall c :: c in num[1..] ==> c in num;
      EIdFiltersAgree(num[1..]);
      var h := if IsAlnum(num[0]) then [num[0]] else [];
      assert Lower(h + AlnumOnly(num[1..])) == Lower(h) + Lower(AlnumOnly(num[1..]));
    }
  }

  lemma EIdSnippetsAgree(kind: string, num: string)
    requires '-' !in num && '_' !in num
    ensures MakeEIdSnippet(kind, num) == kind + "_" + Lower(LegacyEIdSnippet(kind, num)[|kind| + 1..])
  {
    EIdFiltersAgree(num);
    assert LegacyEIdSnippet(kind, num)[|kind| + 1..] == AlnumOnly(num);
  }

  // ---------------------------------------------------------------------
  // Layout

  /** `p.get("class").split(" ")`; six pieces give `int()` of the first
      two and the fourth as the alignment, other counts the defaults. A
      missing class is an AttributeError, a piece `int()` refuses a
      ValueError. */
  function LegacyLayout(cls: Option<string>): (r: Result<Layout>)
    ensures r.Failure? <==>
      cls.None? ||
      (|SplitOn(cls.value, ' ')| == 6
       && (ParseInt(SplitOn(cls.value, ' ')[0]).None? || ParseInt(SplitOn(cls.value, ' ')[1]).None?))
    ensures cls.Some? && |SplitOn(cls.value, ' ')| != 6 ==> r == Success(DefaultLayout)
    ensures r.Success? && cls.Some? && |SplitOn(cls.value, ' ')| == 6 ==>
      var ws := SplitOn(cls.value, ' ');
      ParseInt(ws[0]) == Some(r.value.hang) && ParseInt(ws[1]) == Some(r.value.margin) && r.value.align == ws[3]
  {
    if cls.None? then Failure("AttributeError: 'NoneType' object has no attribute 'split'")
    else
      var ws := SplitOn(cls.value, ' ');
      if |ws| == 6 then
        match (ParseInt(ws[0]), ParseInt(ws[1]))
        case (Some(h), Some(m)) => Success(Layout(h, m, ws[3]))
        case _ => Failure("ValueError: invalid literal for int()")
      else Success(DefaultLayout)
  }

  /** On a class of six blank-free tokens joined by single blanks the two
      readers agree. */
  lemma LegacyLayoutRoundTrip(h: int, m: int, t2: string, a: string, t4: string, t5: string)
    requires IsToken(t2) && IsToken(a) && IsToken(t4) && IsToken(t5)
    ensures LegacyLayout(Some(Join([IntToDecimal(h), IntToDecimal(m), t2, a, t4, t5], " "))) == Success(Layout(h, m, a))
    ensures GetTextLayout(Some(Join([IntToDecimal(h), IntToDecimal(m), t2, a, t4, t5], " "))) == Layout(h, m, a)
  {
    var ws := [IntToDecimal(h), IntToDecimal(m), t2, a, t4, t5];
    NoSpaceToken(h);
    NoSpaceToken(m);
    forall k | 0 <= k < |ws| ensures ' ' !in ws[k] {
      if ' ' in ws[k] {
        var i :| 0 <= i < |ws[k]| && ws[k][i] == ' ';
        assert IsSpace(ws[k][i]);
      }
    }
    SplitOnJoin(ws, ' ');
    var parts := SplitOn(Join(ws, " "), ' ');
    assert parts == ws && |parts| == 6;
    ParseSignedRoundTrip(h);
    ParseSignedRoundTrip(m);
    assert ParseInt(parts[0]) == Some(h) && ParseInt(parts[1]) == Some(m) && parts[3] == a;
    LayoutRoundTrip(h, m, t2, a, t4, t5);
  }

  /** Where the two readers part: the current one falls back to the
      defaults on a class it cannot read, the legacy one raises. */
  lemma LegacyLayoutRaises()
    ensures LegacyLayout(Some(LetterClass)).Failure?
    ensures GetTextLayout(Some(LetterClass)) == DefaultLayout
  {
    LetterClassPieces();
    LetterIsNotInt();
  }

  lemma LetterClassPieces()
    ensures SplitOn(LetterClass, ' ') == LetterPieces && SplitWs(LetterClass) == LetterPieces
  {
    var ws := LetterPieces;
    LetterJoin();
    assert forall k :: 0 <= k < |ws| ==> ' ' !in ws[k] && IsToken(ws[k]);
    SplitOnJoin(ws, ' ');
    SplitJoin(ws);
  }

  lemma LetterJoin()
    ensures Join(LetterPieces, " ") == LetterClass
  {
    assert Join(["f"], " ") == "f";
    assert Join(["e", "f"], " ") == "e f";
    assert Join(["d", "e", "f"], " ") == "d e f";
    assert Join(["c", "d", "e", "f"], " ") == "c d e f";
    assert Join(["b", "c", "d", "e", "f"], " ") == "b c d e f";
    assert LetterPieces[1..] == ["b", "c", "d", "e", "f"];
  }

  const LetterPieces := ["a", "b", "c", "d", "e", "f"]

  /** A class whose pieces are letters. */
  const LetterClass := "a b c d e f"

  lemma LetterIsNotInt()
    ensures ParseInt("a").None?
  {
    StripOfNoSpace("a");
    assert !IsDigitGroups("a");
  }

  // ---------------------------------------------------------------------
  // Classifying one paragraph

  /** `ProvisionMetadata`: the fields the classifier sets. */
  datatype LegacyMeta = LegacyMeta(tag: string, eid: Option<string>, inserted: bool, pnumber: Option<string>)

  const LegacyDefault := LegacyMeta("tblock", None, false, None)

  /** The bold marker: when the first `<b>` child has a tail, every `<b>`
      is stripped; only past the inserted-section threshold does the
      paragraph become an inserted section numbered by that `<b>`. */
  function LegacyBold(p: Para, l: Layout): (r: (LegacyMeta, Para))
    ensures r.1.tag == p.tag && r.1.cls == p.cls
    ensures r.0 == LegacyDefault || (r.0.tag == "section" && r.0.inserted)
    ensures r.0.inserted ==> l.hang + l.margin > InsertedSectionThreshold && FindInline(p.inlines, "b").Some?
    // A first `<b>` with a tail, past the threshold, is an inserted section numbered by it
    ensures r.0.inserted <==>
      FindInline(p.inlines, "b").Some? && p.inlines[FindInline(p.inlines, "b").value].tail.Some?
      && l.hang + l.margin > InsertedSectionThreshold
    ensures r.0.inserted ==>
      var num := Strip(OrEmpty(p.inlines[FindInline(p.inlines, "b").value].text));
      r.0 == LegacyMeta("section", Some(LegacyEIdSnippet("sect", num)), true, Some(num))
    ensures (FindInline(p.inlines, "b").Some? && p.inlines[FindInline(p.inlines, "b").value].tail.Some?) ==>
      r.1 == p.(text := StripInlines(p.text, p.inlines, "b").0, inlines := StripInlines(p.text, p.inlines, "b").1)
    ensures !(FindInline(p.inlines, "b").Some? && p.inlines[FindInline(p.inlines, "b").value].tail.Some?) ==>
      r == (LegacyDefault, p)
  {
    match FindInline(p.inlines, "b")
    case Some(i) =>
      var b := p.inlines[i];
      if b.tail.Some? then
        var (tx, ks) := StripInlines(p.text, p.inlines, "b");
        var node := p.(text := tx, inlines := ks);
        if l.hang + l.margin > InsertedSectionThreshold then
          var num := Strip(OrEmpty(b.text));
          (LegacyMeta("section", Some(LegacyEIdSnippet("sect", num)), true, Some(num)), node)
        else (LegacyDefault, node)
      else (LegacyDefault, p)
    case None => (LegacyDefault, p)
  }

  /** Both copies leave the same node after the bold step; they differ only
      in what they report about it. */
  lemma BoldStepsAgree(p: Para, l: Layout)
    ensures LegacyBold(p, l).1 == StripBold(p).1
  {
  }

  /** The paragraph-or-subparagraph rule of `eisb.py`: the first
      alphanumeric character of the marker is tested against i, v, x
      without lower-casing. */
  function LegacyParagraphTag(pnumber: string, margin: int, isHuw: bool): (t: string)
    requires AlnumOnly(pnumber) != []
    ensures t == "paragraph" || t == "subparagraph"
    ensures margin == ParagraphMarginThreshold ==> t == "paragraph"
    ensures t == "subparagraph" <==>
      margin != ParagraphMarginThreshold && IsRomanStart(AlnumOnly(pnumber)[0])
      && (margin == SubparagraphMarginThreshold || !isHuw)
  {
    var n := AlnumOnly(pnumber);
    if margin == ParagraphMarginThreshold then "paragraph"
    else if IsRomanStart(n[0]) && (margin == SubparagraphMarginThreshold || !isHuw) then "subparagraph"
    else "paragraph"
  }

  lemma {:induction false} AlnumOnlyConcat(a: string, b: string)
    ensures AlnumOnly(a + b) == AlnumOnly(a) + AlnumOnly(b)
  {
    if a != [] {
      var h := if IsAlnum(a[0]) then [a[0]] else [];
      assert (a + b)[0] == a[0] && (a + b)[1..] == a[1..] + b;
      assert AlnumOnly(a + b) == h + AlnumOnly(a[1..] + b);
      AlnumOnlyConcat(a[1..], b);
      assert AlnumOnly(a) == h + AlnumOnly(a[1..]);
    } else {
      assert a + b == b;
    }
  }

  lemma {:induction false} AlnumOnlyKeeps(s: string)
    requires forall i :: 0 <= i < |s| ==> IsAlnum(s[i])
    ensures AlnumOnly(s) == s
  {
    if s != [] {
      AlnumOnlyKeeps(s[1..]);
    }
  }

  /** The alphanumeric part of a paragraph marker is its body of lower-case
      letters. */
  lemma ParagraphGroupAlnum(g: string)
    requires IsMarkerText(g, Paragraph)
    ensures AlnumOnly(g) == g[QuoteLen(g) + 1..|g| - 1]
    ensures AlnumOnly(g) != [] && forall i :: 0 <= i < |AlnumOnly(g)| ==> IsLower(AlnumOnly(g)[i])
  {
    var q := QuoteLen(g);
    var body := g[q + 1..|g| - 1];
    assert g == g[..q] + [g[q]] + body + [g[|g| - 1]];
    AlnumOnlyConcat(g[..q] + [g[q]] + body, [g[|g| - 1]]);
    AlnumOnlyConcat(g[..q] + [g[q]], body);
    AlnumOnlyConcat(g[..q], [g[q]]);
    assert AlnumOnly(g[..q]) == [] by {
      if q == 1 { assert g[..q] == [g[0]]; }
    }
    assert AlnumOnly([g[q]]) == [];
    assert AlnumOnly([g[|g| - 1]]) == [];
    AlnumOnlyKeeps(body);
  }

  /** On the markers the paragraph pattern accepts, the legacy rule and the
      current one choose the same tag. */
  lemma ParagraphTagsAgree(pnumber: string, margin: int, isHuw: bool)
    requires IsMarkerText(pnumber, Paragraph)
    ensures AlnumOnly(pnumber) != []
    ensures LegacyParagraphTag(pnumber, margin, isHuw) == ParagraphTag(pnumber, margin, isHuw)
  {
    ParagraphGroupAlnum(pnumber);
    assert LowerChar(AlnumOnly(pnumber)[0]) == AlnumOnly(pnumber)[0];
  }

  /** `pnumber in "huw"` is a substring test, and a marker, which holds
      `(`, is never part of `"huw"`. */
  lemma MarkerNotInHuw(g: string, k: MarkerKind)
    requires IsMarkerText(g, k)
    ensures !Contains("huw", g)
  {
  }

  /** The tag, number and eId a paragraph marker gives. */
  function LegacyParagraphMeta(m: LegacyMeta, pn: string, margin: int, isHuw: bool): (r: LegacyMeta)
    requires IsMarkerText(pn, Paragraph)
    ensures r.tag in {"paragraph", "subparagraph"} && r.pnumber == Some(pn) && r.inserted == m.inserted
    ensures r.tag == ParagraphTag(pn, margin, isHuw)
    ensures r.eid == Some(LegacyEIdSnippet(if r.tag == "paragraph" then "para" else "subpara", pn))
  {
    ParagraphTagsAgree(pn, margin, isHuw);
    var tag := LegacyParagraphTag(pn, margin, isHuw);
    var kind := if tag == "paragraph" then "para" else "subpara";
    m.(tag := tag, pnumber := Some(pn), eid := Some(LegacyEIdSnippet(kind, pn)))
  }

  /** The leading marker, which overrides a bold section number: its kind
      gives the tag, its group the number and the eId, and it is taken off
      the text with the blanks after it. Only a paragraph marker moves the
      `huw` flag. The inserted flag stays as the bold step left it. */
  function LegacyMarker(m: LegacyMeta, p: Para, margin: int, isHuw: bool): (r: (LegacyMeta, Para, bool))
    ensures r.0.inserted == m.inserted && r.1.tag == p.tag && r.1.cls == p.cls && r.1.inlines == p.inlines
    ensures MatchProvisionType(OrEmpty(p.text)).None? ==> r == (m, p, isHuw)
    ensures MatchProvisionType(OrEmpty(p.text)).Some? ==>
      var (k, mk) := MatchProvisionType(OrEmpty(p.text)).value;
      r.0.pnumber == Some(mk.group) && r.1.text == Some(LStrip(OrEmpty(p.text)[mk.end..]))
      && (k != Paragraph ==> r.0.tag == KindTag(k) && r.0.eid == Some(LegacyEIdSnippet(KindLabel(k), mk.group)))
      && (k == Paragraph ==>
            r.0.tag == ParagraphTag(mk.group, margin, isHuw) && !r.2
            && r.0.eid == Some(LegacyEIdSnippet(if r.0.tag == "paragraph" then "para" else "subpara", mk.group)))
      && (k != Paragraph ==> r.2 == isHuw)
    ensures !isHuw ==> !r.2
  {
    match MatchProvisionType(OrEmpty(p.text))
    case None => (m, p, isHuw)
    case Some((k, mk)) => LegacyMarkerOf(m, p, k, mk, margin, isHuw)
  }

  /** The marker step once the marker of kind `k` is found. */
  function LegacyMarkerOf(m: LegacyMeta, p: Para, k: MarkerKind, mk: Marker, margin: int, isHuw: bool): (r: (LegacyMeta, Para, bool))
    requires MatchProvisionType(OrEmpty(p.text)) == Some((k, mk))
    ensures r.0.inserted == m.inserted && r.1 == p.(text := Some(LStrip(OrEmpty(p.text)[mk.end..])))
    ensures r.0.pnumber == Some(mk.group)
    ensures k != Paragraph ==> r.0.tag == KindTag(k) && r.0.eid == Some(LegacyEIdSnippet(KindLabel(k), mk.group))
    ensures k == Paragraph ==>
      r.0.tag == ParagraphTag(mk.group, margin, isHuw)
      && r.0.eid == Some(LegacyEIdSnippet(if r.0.tag == "paragraph" then "para" else "subpara", mk.group))
      && !r.2
    ensures k != Paragraph ==> r.2 == isHuw
    ensures !isHuw ==> !r.2
  {
    var t := OrEmpty(p.text);
    var node := p.(text := Some(LStrip(t[mk.end..])));
    var pn := mk.group;
    if k == Paragraph then
      assert MarkerAt(t, Paragraph, mk.end - |pn|, mk.end);
      MarkerNotInHuw(pn, Paragraph);
      (LegacyParagraphMeta(m, pn, margin, isHuw), node, Contains("huw", pn))
    else
      (m.(tag := KindTag(k), pnumber := Some(pn), eid := Some(LegacyEIdSnippet(KindLabel(k), pn))), node, isHuw)
  }

  /** The marker step as `eisb.py` writes it: the combining of a lone `(`
      with an italic run is tried only inside the paragraph branch, that
      is after the paragraph pattern has matched the text. */
  function LegacyMarkerAsWritten(m: LegacyMeta, p: Para, margin: int, isHuw: bool): (r: (LegacyMeta, Para, bool))
    ensures r.0.inserted == m.inserted && r.1.tag == p.tag && r.1.cls == p.cls
    ensures MatchProvisionType(OrEmpty(p.text)).None? ==> r == (m, p, isHuw)
    ensures !isHuw ==> !r.2
  {
    var t := OrEmpty(p.text);
    match MatchProvisionType(t)
    case Some((Paragraph, _)) =>
      var q := NormaliseItalic(p);
      if q == p then LegacyMarker(m, p, margin, isHuw)
      else
        (match MatchProvisionType(OrEmpty(q.text))
         case Some((Paragraph, _)) => LegacyMarker(m, q, margin, isHuw)
         case _ => (m, q, isHuw))
    case _ => LegacyMarker(m, p, margin, isHuw)
  }

  /** `_identify_provision`'s steps in `eisb.py` as written: bold, then
      the marker. It keeps the node's tag and class, and on a node the
      italic combining would leave alone it agrees with the corrected
      `LegacyIdentify`. */
  function LegacyIdentifyAsWritten(p: Para, l: Layout, isHuw: bool): (r: (LegacyMeta, Para, bool))
    ensures r.1.tag == p.tag && r.1.cls == p.cls
    ensures NormaliseItalic(p) == p ==> r == LegacyIdentify(p, l, isHuw)
  {
    var (m, node) := LegacyBold(p, l);
    ItalicStepIsDead(m, node, l.margin, isHuw);
    LegacyMarkerAsWritten(m, node, l.margin, isHuw)
  }

  /** The classification with the italic combining done first, as the
      re-check after it intends and as `eisb_provisions.py` does it. */
  function LegacyIdentify(p: Para, l: Layout, isHuw: bool): (r: (LegacyMeta, Para, bool))
    ensures r.1.tag == p.tag && r.1.cls == p.cls
  {
    var (m, node) := LegacyBold(NormaliseItalic(p), l);
    LegacyMarker(m, node, l.margin, isHuw)
  }

  /** As written, the combining never happens: a text the paragraph
      pattern matches is longer than the lone `(` it waits for. */
  lemma ItalicStepIsDead(m: LegacyMeta, p: Para, margin: int, isHuw: bool)
    ensures LegacyMarkerAsWritten(m, p, margin, isHuw) == LegacyMarker(m, p, margin, isHuw)
  {
    var t := OrEmpty(p.text);
    var r := MatchProvisionType(t);
    if r.Some? && r.value.0 == Paragraph {
      assert MatchMarker(t, Paragraph).Some?;
      assert |t| >= 2;
      assert p.text != Some("(");
      assert NormaliseItalic(p) == p;
    }
  }

  /** With the combining first, the legacy copy takes the same marker off
      the same node as the current `_identify_provision`. */
  lemma LegacyIdentifyAgrees(p: Para, l: Layout, isHuw: bool)
    ensures LegacyIdentify(p, l, isHuw).1 == IdentifyProvision(p).1
    ensures LegacyIdentify(p, l, isHuw).0.pnumber.Some? && MatchProvisionType(OrEmpty(StripBold(NormaliseItalic(p)).1.text)).Some? ==>
      LegacyIdentify(p, l, isHuw).0.pnumber == IdentifyProvision(p).0.pnumber
  {
    BoldStepsAgree(NormaliseItalic(p), l);
  }

  /** `<p class=...>(<i>a</i>) text</p>`: as written it has no marker and
      stays a `tblock`; with the combining first it is paragraph (a). */
  const ItalicExample := Para("p", Some("0 0 0 left 0 0"), Some("("), [Inline("i", Some("a"), Some(") text"))])

  lemma ItalicExampleDiffers()
    ensures LegacyIdentifyAsWritten(ItalicExample, DefaultLayout, false).0.tag == "tblock"
    ensures LegacyIdentify(ItalicExample, DefaultLayout, false).0.tag == "paragraph"
    ensures LegacyIdentify(ItalicExample, DefaultLayout, false).0.pnumber == Some("(a)")
  {
    ItalicExampleAsWritten();
    ItalicExampleCombined();
  }

  lemma ItalicExampleAsWritten()
    ensures LegacyIdentifyAsWritten(ItalicExample, DefaultLayout, false).0 == LegacyDefault
  {
    var p := ItalicExample;
    assert FindInline(p.inlines, "b") == None;
    assert LegacyBold(p, DefaultLayout) == (LegacyDefault, p);
    LoneParenHasNoMarker();
    ItalicStepIsDead(LegacyDefault, p, 0, false);
  }

  lemma ItalicExampleCombined()
    ensures LegacyIdentify(ItalicExample, DefaultLayout, false).0.tag == "paragraph"
    ensures LegacyIdentify(ItalicExample, DefaultLayout, false).0.pnumber == Some("(a)")
  {
    var p := ItalicExample;
    var q := NormaliseItalic(p);
    assert FindInline(p.inlines, "i") == Some(0);
    assert StartsWith(") text", ")");
    assert "(" + "a" + ") text" == "(a) text";
    assert q == Para("p", p.cls, Some("(a) text"), []);
    assert LegacyBold(q, DefaultLayout) == (LegacyDefault, q);
    CombinedIsParagraph(q);
  }

  lemma CombinedIsParagraph(q: Para)
    requires q.text == Some("(a) text")
    ensures LegacyMarker(LegacyDefault, q, 0, false).0.tag == "paragraph"
    ensures LegacyMarker(LegacyDefault, q, 0, false).0.pnumber == Some("(a)")
  {
    CombinedHasParagraphMarker();
    assert OrEmpty(q.text) == "(a) text";
    assert IsMarkerText("(a)", Paragraph) by {
      assert MarkerAt("(a) text", Paragraph, 0, 3);
    }
    ParenATag();
  }

  lemma ParenATag()
    requires IsMarkerText("(a)", Paragraph)
    ensures LegacyParagraphMeta(LegacyDefault, "(a)", 0, false).tag == "paragraph"
  {
    AlnumOfParenA();
    assert AlnumOnly("(a)")[0] == 'a' && !IsRomanStart('a');
    assert LegacyParagraphTag("(a)", 0, false) == "paragraph";
  }

  lemma AlnumOfParenA()
    ensures AlnumOnly("(a)") == "a"
  {
    assert AlnumOnly(")") == [];
    assert AlnumOnly("a)") == "a";
  }

  lemma LoneParenHasNoMarker()
    ensures MatchProvisionType("(").None?
  {
    assert MatchMarker("(", Subsection).None?;
    assert MatchMarker("(", Paragraph).None?;
    assert MatchMarker("(", Clause).None?;
    assert MatchMarker("(", Subclause).None?;
  }

  lemma CombinedHasParagraphMarker()
    ensures MatchProvisionType("(a) text") == Some((Paragraph, Marker("(a)", 3)))
  {
    var t := "(a) text";
    assert MarkerSpace(t) == 0 && MarkerOpen(t) == 0 && t[0] == '(' && t[2] == ')';
    assert RunEnd(t, 1, Digit) == 1;
    assert MatchMarker(t, Subsection).None?;
    assert RunEnd(t, 2, LowerRun) == 2;
    assert RunEnd(t, 1, LowerRun) == 2;
    assert BodyStarts(t, 1, Paragraph) && BodyEnd(t, 1, Paragraph) == 2;
    assert t[0..3] == "(a)";
    assert MatchMarker(t, Paragraph) == Some(Marker("(a)", 3));
  }

  // ---------------------------------------------------------------------
  // The provisions of one paragraph

  /** The rows of a paragraph with text: a container of the classified tag
      (a `tblock` when nothing was recognised) holding the text left after
      the marker, the paragraph itself as a `tblock` whose inserted flag is
      the container's, and the `quoteend` when the text closes a
      quotation. */
  function LegacyParagraphRows(m: LegacyMeta, l: Layout, text: string, node: Para): seq<Row> {
    [Row(m.tag, m.eid, m.inserted, l.hang, l.margin, l.align, Some(AllText(node)), ContainerElement(m.tag, m.pnumber, m.eid)),
     Row("tblock", None, m.inserted, l.hang, l.margin, l.align, Some(text), PElement(node.text))]
    + QuoteRows(l, text)
  }

  /** Against the current rows of the same paragraph: the legacy copy
      always leads with a container, its `tblock` is the current one with
      the container's inserted flag, and the `quoteend` rows are the
      same. */
  lemma LegacyParagraphRowsShape(m: LegacyMeta, l: Layout, text: string, node: Para, dec: Decision)
    ensures 2 <= |LegacyParagraphRows(m, l, text, node)| <= 3
    ensures |LegacyParagraphRows(m, l, text, node)| == 3 <==> ClosesQuote(text)
    ensures LegacyParagraphRows(m, l, text, node)[0].xml == ContainerElement(m.tag, m.pnumber, m.eid)
    ensures LegacyParagraphRows(m, l, text, node)[0].text == Some(AllText(node))
    ensures LegacyParagraphRows(m, l, text, node)[1] == TblockRow(l, text, node.text).(ins := m.inserted)
    ensures LegacyParagraphRows(m, l, text, node)[2..] == ParagraphRows(dec, l, text, node.text)[|StructuralRows(dec)| + 1..]
  {
    var rs := LegacyParagraphRows(m, l, text, node);
    var head := StructuralRows(dec) + [TblockRow(l, text, node.text)];
    assert ParagraphRows(dec, l, text, node.text) == head + QuoteRows(l, text);
    assert (head + QuoteRows(l, text))[|head|..] == QuoteRows(l, text);
    assert rs[2..] == QuoteRows(l, text);
  }

  /** A node whose class the legacy reader refuses: `parse_section` of
      `eisb.py` reads the class of every node first, tables included. */
  predicate Unreadable(p: Para) {
    LegacyLayout(p.cls).Failure?
  }

  /** No node of the run is unreadable. */
  predicate AllReadable(ns: seq<Para>) {
    forall k :: 0 <= k < |ns| ==> !Unreadable(ns[k])
  }

  /** The rows one `<p>` or `<table>` with layout `l` yields, the node as
      it is left, and the `huw` flag for the next node. */
  function LegacyNodeRows(p: Para, l: Layout, isHuw: bool): (r: (seq<Row>, Para, bool))
    ensures p.tag == "table" || Strip(AllText(p)) == [] ==> r == ([SingleNodeRowIn(p, l)], p, isHuw)
  {
    var text := Strip(AllText(p));
    if p.tag == "table" || text == [] then ([SingleNodeRowIn(p, l)], p, isHuw)
    else
      var (m, node, huw) := LegacyIdentify(p, l, isHuw);
      (LegacyParagraphRows(m, l, text, node), node, huw)
  }

  /** The one row of a table or of a paragraph with no text. */
  function SingleNodeRowIn(p: Para, l: Layout): Row {
    SingleRowOf(p.tag == "table", l, Strip(AllText(p)), p.text)
  }

  /** Every paragraph with text is exactly a container and a `tblock`,
      then a `quoteend` exactly when its text closes a quotation; the
      container is marked inserted only for a bold number past the
      threshold, and the `tblock` with it. */
  lemma LegacyRowsShape(p: Para, l: Layout, isHuw: bool)
    requires p.tag != "table" && Strip(AllText(p)) != []
    ensures 2 <= |LegacyNodeRows(p, l, isHuw).0| <= 3
    ensures |LegacyNodeRows(p, l, isHuw).0| == 3 <==> ClosesQuote(Strip(AllText(p)))
    ensures var rs := LegacyNodeRows(p, l, isHuw).0;
      rs[0].xml.ContainerElement? && rs[1].tag == "tblock" && rs[1].ins == rs[0].ins
    ensures LegacyNodeRows(p, l, isHuw).0[1].xml == PElement(LegacyNodeRows(p, l, isHuw).1.text)
    ensures LegacyNodeRows(p, l, isHuw).0[0].tag in {"tblock", "section", "subsection", "paragraph", "subparagraph", "clause", "subclause"}
    ensures LegacyNodeRows(p, l, isHuw).0[0].ins ==> l.hang + l.margin > InsertedSectionThreshold
  {
    var q := NormaliseItalic(p);
    var (m, node) := LegacyBold(q, l);
    var t := OrEmpty(node.text);
    if MatchProvisionType(t).Some? {
      var (k, mk) := MatchProvisionType(t).value;
      assert k != Paragraph ==> KindTag(k) in {"subsection", "clause", "subclause"};
    }
  }

  /** The flag never rises, so every node is classified with it down. */
  lemma LegacyHuwStaysDown(p: Para, l: Layout)
    ensures !LegacyNodeRows(p, l, false).2
  {
    if p.tag != "table" && Strip(AllText(p)) != [] {
      var (m, node) := LegacyBold(NormaliseItalic(p), l);
      assert !LegacyMarker(m, node, l.margin, false).2;
    }
  }

  /** The rows of a run of readable nodes. The flag never rises, so every
      node is classified with it down. */
  function LegacyAllRows(ns: seq<Para>): seq<Row>
    requires AllReadable(ns)
  {
    if ns == [] then []
    else
      var n := |ns| - 1;
      LegacyAllRows(ns[..n]) + LegacyNodeRows(ns[n], LegacyLayout(ns[n].cls).value, false).0
  }

  /** One more readable node extends the rows by its own. */
  lemma LegacyAllRowsStep(ns: seq<Para>, i: nat)
    requires i < |ns| && AllReadable(ns[..i]) && !Unreadable(ns[i])
    ensures AllReadable(ns[..i + 1])
    ensures LegacyAllRows(ns[..i + 1]) == LegacyAllRows(ns[..i]) + LegacyNodeRows(ns[i], LegacyLayout(ns[i].cls).value, false).0
  {
    var s := ns[..i + 1];
    assert s[..i] == ns[..i] && s[i] == ns[i];
    ReadableGrows(ns, i);
    LegacyAllRowsLast(s);
  }

  lemma ReadableGrows(ns: seq<Para>, i: nat)
    requires i < |ns| && AllReadable(ns[..i]) && !Unreadable(ns[i])
    ensures AllReadable(ns[..i + 1])
  {
    var s := ns[..i + 1];
    forall k | 0 <= k < |s| ensures !Unreadable(s[k]) {
      if k < i {
        assert s[k] == ns[..i][k];
      }
    }
  }

  lemma LegacyAllRowsLast(s: seq<Para>)
    requires s != [] && AllReadable(s)
    ensures LegacyAllRows(s) == LegacyAllRows(s[..|s| - 1]) + LegacyNodeRows(s[|s| - 1], LegacyLayout(s[|s| - 1].cls).value, false).0
  {
  }

  lemma UnreadableBreaks(ns: seq<Para>, i: nat)
    requires i < |ns| && Unreadable(ns[i])
    ensures !AllReadable(ns)
  {
  }

  // ---------------------------------------------------------------------
  // Building the elements

  /** Every provision of `ps` realises its row and carries no index. */
  predicate RealisesRows(a: Arena, ps: seq<Provision>, rows: seq<Row>)
    requires Sized(a)
  {
    |ps| == |rows| && forall k :: 0 <= k < |ps| ==> Realises(a, ps[k], rows[k]) && ps[k].idx == NoIdx
  }

  /** The elements of `ps` are new since `lo` and exist below `hi`. */
  predicate Within(ps: seq<Provision>, lo: nat, hi: nat) {
    forall k :: 0 <= k < |ps| && ps[k].xml.Some? ==> lo <= ps[k].xml.value < hi
  }

  lemma RealisesRowsGrows(a: Arena, b: Arena, ps: seq<Provision>, rows: seq<Row>)
    requires Grows(a, b) && RealisesRows(a, ps, rows)
    ensures RealisesRows(b, ps, rows)
  {
    forall k | 0 <= k < |ps| ensures Realises(b, ps[k], rows[k]) {
      RealisesGrows(a, b, ps[k], rows[k]);
    }
  }

  lemma RealisesRowsConcat(a: Arena, ps: seq<Provision>, r1: seq<Row>, qs: seq<Provision>, r2: seq<Row>)
    requires Sized(a) && RealisesRows(a, ps, r1) && RealisesRows(a, qs, r2)
    ensures RealisesRows(a, ps + qs, r1 + r2)
  {
    var s, r := ps + qs, r1 + r2;
    forall k | 0 <= k < |s| ensures Realises(a, s[k], r[k]) && s[k].idx == NoIdx {
      if k >= |ps| {
        assert s[k] == qs[k - |ps|] && r[k] == r2[k - |ps|];
      }
    }
  }

  /** Provisions that realise `r1` in `a1`, followed by ones built from
      `a1` to `a2` that realise `r2`, realise `r1 + r2` in `a2`. */
  lemma LegacyStep(a1: Arena, a2: Arena, ps: seq<Provision>, r1: seq<Row>, qs: seq<Provision>, r2: seq<Row>, lo: nat)
    requires Grows(a1, a2) && lo <= |a1.tag| && Within(ps, lo, |a1.tag|) && Within(qs, |a1.tag|, |a2.tag|)
    requires RealisesRows(a1, ps, r1) && RealisesRows(a2, qs, r2)
    ensures Within(ps + qs, lo, |a2.tag|) && RealisesRows(a2, ps + qs, r1 + r2)
  {
    RealisesRowsGrows(a1, a2, ps, r1);
    RealisesRowsConcat(a2, ps, r1, qs, r2);
    var s := ps + qs;
    assert |a1.tag| <= |a2.tag|;
    forall k | 0 <= k < |s| && s[k].xml.Some? ensures lo <= s[k].xml.value < |a2.tag| {
      if k < |ps| {
        assert s[k] == ps[k] && ps[k].xml.Some?;
      } else {
        assert s[k] == qs[k - |ps|] && qs[k - |ps|].xml.Some?;
      }
    }
  }

  /** `parse_p(p)`, then `make_container(meta.tag, meta.pnumber,
      attribs={"eId": meta.eid})`, then the two provisions and the
      `quoteend`. */
  method LegacyEmitParagraph(d: Doc, m: LegacyMeta, l: Layout, text: string, node: Para) returns (ps: seq<Provision>)
    requires d.Valid()
    modifies d
    ensures d.Valid() && Grows(old(Snap(d)), Snap(d)) && Within(ps, old(|d.tag|), |d.tag|)
    ensures RealisesRows(Snap(d), ps, LegacyParagraphRows(m, l, text, node))
  {
    ghost var a0 := Snap(d);
    var e := ParseP(d, node);
    ghost var a1 := Snap(d);
    var t := Provision("tblock", None, m.inserted, l.hang, l.margin, l.align, Some(e), Some(text), NoIdx);
    var cr := Row(m.tag, m.eid, m.inserted, l.hang, l.margin, l.align, Some(AllText(node)), ContainerElement(m.tag, m.pnumber, m.eid));
    var c := BuildContainer(d, cr);
    var k := Provision(cr.tag, cr.eid, cr.ins, l.hang, l.margin, l.align, Some(c), cr.text, NoIdx);
    var qs := if ClosesQuote(text) then [Provision("quoteend", None, true, l.hang, l.margin, l.align, None, Some(LastTwo(text)), NoIdx)] else [];
    ps := [k, t] + qs;
    GrowsTrans(a0, a1, Snap(d));
    LegacyParagraphRealises(a1, Snap(d), k, t, qs, m, l, text, node, |a0.tag|);
  }

  /** The container, the `tblock` and the `quoteend`, when there is one,
      realise the rows of the paragraph. */
  lemma LegacyParagraphRealises(a1: Arena, a2: Arena, k: Provision, t: Provision, qs: seq<Provision>,
                                m: LegacyMeta, l: Layout, text: string, node: Para, lo: nat)
    requires Grows(a1, a2)
    requires k.xml.Some? && Shows(a2, k.xml.value, ContainerElement(m.tag, m.pnumber, m.eid))
    requires k == Provision(m.tag, m.eid, m.inserted, l.hang, l.margin, l.align, k.xml, Some(AllText(node)), NoIdx)
    requires t.xml.Some? && t.xml.value < |a1.tag| && a1.tag[t.xml.value] == "p" && a1.text[t.xml.value] == node.text
    requires t == Provision("tblock", None, m.inserted, l.hang, l.margin, l.align, t.xml, Some(text), NoIdx)
    requires qs == if ClosesQuote(text) then [Provision("quoteend", None, true, l.hang, l.margin, l.align, None, Some(LastTwo(text)), NoIdx)] else []
    requires lo <= k.xml.value && lo <= t.xml.value
    ensures Within([k, t] + qs, lo, |a2.tag|)
    ensures RealisesRows(a2, [k, t] + qs, LegacyParagraphRows(m, l, text, node))
  {
    var cr := Row(m.tag, m.eid, m.inserted, l.hang, l.margin, l.align, Some(AllText(node)), ContainerElement(m.tag, m.pnumber, m.eid));
    var tr := Row("tblock", None, m.inserted, l.hang, l.margin, l.align, Some(text), PElement(node.text));
    LegacyHeadRealises(a1, a2, k, t, cr, tr, node.text);
    var q := Provision("quoteend", None, true, l.hang, l.margin, l.align, None, Some(LastTwo(text)), NoIdx);
    var qr := Row("quoteend", None, true, l.hang, l.margin, l.align, Some(LastTwo(text)), NoXml);
    assert QuoteRows(l, text) == if ClosesQuote(text) then [qr] else [];
    LegacyQuoteRealises(a2, qs, QuoteRows(l, text), ClosesQuote(text), q, qr);
    RealisesRowsConcat(a2, [k, t], [cr, tr], qs, QuoteRows(l, text));
    assert |a1.tag| <= |a2.tag| && k.xml.value < |a2.tag|;
    WithinTwo(k, t, lo, |a2.tag|);
    WithinConcat([k, t], qs, lo, |a2.tag|);
  }

  lemma WithinTwo(k: Provision, t: Provision, lo: nat, hi: nat)
    requires k.xml.Some? && lo <= k.xml.value < hi && t.xml.Some? && lo <= t.xml.value < hi
    ensures Within([k, t], lo, hi)
  {
  }

  lemma WithinConcat(ps: seq<Provision>, qs: seq<Provision>, lo: nat, hi: nat)
    requires Within(ps, lo, hi) && Within(qs, lo, hi)
    ensures Within(ps + qs, lo, hi)
  {
    var s := ps + qs;
    forall j | 0 <= j < |s| && s[j].xml.Some? ensures lo <= s[j].xml.value < hi {
      if j >= |ps| {
        assert s[j] == qs[j - |ps|];
      }
    }
  }

  /** The container and the `tblock` realise their two rows. */
  lemma LegacyHeadRealises(a1: Arena, a2: Arena, k: Provision, t: Provision, cr: Row, tr: Row, body: Option<string>)
    requires Grows(a1, a2)
    requires k.xml.Some? && Shows(a2, k.xml.value, cr.xml) && k.idx == NoIdx
    requires k.tag == cr.tag && k.eid == cr.eid && k.ins == cr.ins && k.hang == cr.hang && k.margin == cr.margin
             && k.align == cr.align && k.text == cr.text && !cr.xml.NoXml?
    requires t.xml.Some? && t.xml.value < |a1.tag| && a1.tag[t.xml.value] == "p" && a1.text[t.xml.value] == body && t.idx == NoIdx
    requires t.tag == tr.tag && t.eid == tr.eid && t.ins == tr.ins && t.hang == tr.hang && t.margin == tr.margin
             && t.align == tr.align && t.text == tr.text && tr.xml == PElement(body)
    ensures RealisesRows(a2, [k, t], [cr, tr])
  {
    assert Realises(a1, t, tr);
    RealisesGrows(a1, a2, t, tr);
    assert Realises(a2, k, cr);
  }

  /** The `quoteend`, when there is one, has no element and realises its row. */
  lemma LegacyQuoteRealises(a: Arena, qs: seq<Provision>, rows: seq<Row>, c: bool, p: Provision, r: Row)
    requires Sized(a) && Realises(a, p, r) && p.idx == NoIdx && p.xml.None?
    requires qs == (if c then [p] else []) && rows == (if c then [r] else [])
    ensures RealisesRows(a, qs, rows)
    ensures forall lo, hi :: Within(qs, lo, hi)
  {
  }

  /** One node of the first pass, classified with the flag `isHuw`. */
  method LegacyEmitNode(d: Doc, p: Para, isHuw: bool) returns (r: Result<seq<Provision>>, huw: bool)
    requires d.Valid()
    modifies d
    ensures d.Valid() && Grows(old(Snap(d)), Snap(d))
    ensures r.Failure? <==> Unreadable(p)
    ensures r.Failure? ==> unchanged(d)
    ensures r.Success? ==>
      var (rows, _, h) := LegacyNodeRows(p, LegacyLayout(p.cls).value, isHuw);
      Within(r.value, old(|d.tag|), |d.tag|) && huw == h && RealisesRows(Snap(d), r.value, rows)
  {
    var lr := LegacyLayout(p.cls);
    if lr.Failure? {
      return Failure(lr.error), isHuw;
    }
    var l := lr.value;
    var text := Strip(AllText(p));
    var ps;
    if p.tag == "table" || text == [] {
      ps := EmitSingle(d, p, l, text, NoIdx);
      assert Within(ps, old(|d.tag|), |d.tag|);
      huw := isHuw;
    } else {
      var (m, node, h) := LegacyIdentify(p, l, isHuw);
      ps := LegacyEmitParagraph(d, m, l, text, node);
      huw := h;
    }
    r := Success(ps);
  }

  /** One turn of the first pass: the provisions of `nodes[i]` join
      those of the nodes before it. */
  method LegacyExtractOne(d: Doc, nodes: seq<Para>, i: nat, ps: seq<Provision>, ghost lo: nat)
    returns (r: Result<seq<Provision>>)
    requires d.Valid() && i < |nodes| && AllReadable(nodes[..i]) && lo <= |d.tag|
    requires Within(ps, lo, |d.tag|) && RealisesRows(Snap(d), ps, LegacyAllRows(nodes[..i]))
    modifies d
    ensures d.Valid() && Grows(old(Snap(d)), Snap(d))
    ensures r.Failure? <==> Unreadable(nodes[i])
    ensures r.Success? ==>
      AllReadable(nodes[..i + 1]) && Within(r.value, lo, |d.tag|)
      && RealisesRows(Snap(d), r.value, LegacyAllRows(nodes[..i + 1]))
  {
    ghost var a1 := Snap(d);
    ghost var before := LegacyAllRows(nodes[..i]);
    var out, h := LegacyEmitNode(d, nodes[i], false);
    if out.Failure? {
      return Failure(out.error);
    }
    LegacyStep(a1, Snap(d), ps, before, out.value, LegacyNodeRows(nodes[i], LegacyLayout(nodes[i].cls).value, false).0, lo);
    LegacyAllRowsStep(nodes, i);
    r := Success(ps + out.value);
  }

  /** The first pass of `eisb.py`'s `parse_section`: every `<p>` and
      `<table>` child in order, each giving the provisions its rows
      describe; the first unreadable class stops it. The `huw` flag it
      threads from node to node stays down. */
  method LegacyExtract(d: Doc, children: seq<Para>) returns (r: Result<seq<Provision>>)
    requires d.Valid()
    modifies d
    ensures d.Valid() && Grows(old(Snap(d)), Snap(d))
    ensures r.Failure? <==> !AllReadable(PTableChildren(children))
    ensures r.Success? ==>
      AllReadable(PTableChildren(children)) && Within(r.value, old(|d.tag|), |d.tag|)
      && RealisesRows(Snap(d), r.value, LegacyAllRows(PTableChildren(children)))
  {
    r := LegacyExtractNodes(d, PTableChildren(children));
  }

  /** The loop of the first pass over the `<p>` and `<table>` children. */
  method LegacyExtractNodes(d: Doc, nodes: seq<Para>) returns (r: Result<seq<Provision>>)
    requires d.Valid()
    modifies d
    ensures d.Valid() && Grows(old(Snap(d)), Snap(d))
    ensures r.Failure? <==> !AllReadable(nodes)
    ensures r.Success? ==>
      AllReadable(nodes) && Within(r.value, old(|d.tag|), |d.tag|) && RealisesRows(Snap(d), r.value, LegacyAllRows(nodes))
  {
    ghost var a0 := Snap(d);
    var ps: seq<Provision> := [];
    var i := 0;
    while i < |nodes|
      invariant 0 <= i <= |nodes| && d.Valid() && Grows(a0, Snap(d)) && |a0.tag| <= |d.tag|
      invariant AllReadable(nodes[..i])
      invariant Within(ps, |a0.tag|, |d.tag|) && RealisesRows(Snap(d), ps, LegacyAllRows(nodes[..i]))
    {
      ghost var a1 := Snap(d);
      var next := LegacyExtractOne(d, nodes, i, ps, |a0.tag|);
      GrowsTrans(a0, a1, Snap(d));
      if next.Failure? {
        UnreadableBreaks(nodes, i);
        return Failure(next.error);
      }
      ps := next.value;
      i := i + 1;
    }
    assert nodes[..i] == nodes;
    r := Success(ps);
  }

  // ---------------------------------------------------------------------
  // The second pass

  /** What the legacy driver emits for one provision: an inline mod never
      takes a place of its own. */
  function LegacyEmitted(prov: Provision, s: Status): seq<Provision> {
    match s
    case Consumed => []
    case Unconsumed(p) => [p]
    case CompletedBlock(b) => [ModBlock(prov, b)]
    case CompletedInline(_) => []
  }

  function LegacyOutput(raw: seq<Provision>, sts: seq<Status>): seq<Provision>
    requires |sts| == |raw|
  {
    if raw == [] then []
    else
      var n := |raw| - 1;
      LegacyOutput(raw[..n], sts[..n]) + LegacyEmitted(raw[n], sts[n])
  }

  /** The legacy list is the current one with every inline mod counted as
      attached: the two drivers differ only in where an inline mod goes. */
  lemma {:induction false} LegacyOutputIsAllPlaced(raw: seq<Provision>, sts: seq<Status>, placed: seq<bool>)
    requires |sts| == |raw| && |placed| == |raw| && forall i :: 0 <= i < |placed| ==> placed[i]
    ensures LegacyOutput(raw, sts) == Output(raw, sts, placed)
  {
    if raw != [] {
      var n := |raw| - 1;
      LegacyOutputIsAllPlaced(raw[..n], sts[..n], placed[..n]);
    }
  }

  /** Without inline mods the two drivers emit the same list. */
  lemma {:induction false} LegacyOutputWithoutInline(raw: seq<Provision>, sts: seq<Status>, placed: seq<bool>)
    requires |sts| == |raw| && |placed| == |raw| && forall i :: 0 <= i < |sts| ==> !sts[i].CompletedInline?
    ensures LegacyOutput(raw, sts) == Output(raw, sts, placed)
  {
    if raw != [] {
      var n := |raw| - 1;
      LegacyOutputWithoutInline(raw[..n], sts[..n], placed[..n]);
    }
  }

  /** The latest provision of `ps` whose text is `t`. */
  function LastWithText(ps: seq<Provision>, t: Option<string>): (r: Option<nat>)
    ensures r.Some? ==> r.value < |ps| && ps[r.value].text == t
    ensures r.Some? ==> forall k :: r.value < k < |ps| ==> ps[k].text != t
    ensures r.None? ==> forall k :: 0 <= k < |ps| ==> ps[k].text != t
  {
    if ps == [] then None
    else if ps[|ps| - 1].text == t then Some(|ps| - 1)
    else LastWithText(ps[..|ps| - 1], t)
  }

  /** Attaches the inline mod `m` to the latest processed provision whose
      text is the instruction's; none is no error, a match without an
      element is an AttributeError, and lxml's refusal a ValueError. */
  method PlaceByText(d: Doc, processed: seq<Provision>, t: Option<string>, m: nat) returns (r: Result<()>)
    requires d.Valid() && m < |d.tag|
    requires forall k :: 0 <= k < |processed| && processed[k].xml.Some? ==> processed[k].xml.value < |d.tag|
    modifies d
    ensures d.Valid() && d.tag == old(d.tag) && d.attrs == old(d.attrs) && d.text == old(d.text)
    ensures LastWithText(processed, t).None? ==> r.Success? && unchanged(d)
    ensures LastWithText(processed, t).Some? ==>
      var x := processed[LastWithText(processed, t).value].xml;
      (r.Success? <==> x.Some? && m !in old(d.Chain(x.value)))
      && (r.Success? ==> d.parent[m] == x.value && d.kids[x.value] == Without(old(d.kids[x.value]), m) + [m])
      && (r.Failure? ==> unchanged(d))
  {
    var j := LastWithText(processed, t);
    if j.None? {
      return Success(());
    }
    var x := processed[j.value].xml;
    if x.None? {
      return Failure("AttributeError: 'NoneType' object has no attribute 'append'");
    }
    var ok := d.Append(x.value, m);
    if !ok {
      return Failure("ValueError: cannot append parent to itself");
    }
    r := Success(());
  }

  /** One turn of the legacy driver's loop. */
  method LegacyDriveOne(parser: AmendmentParser, d: Doc, processed: seq<Provision>, prov: Provision)
    returns (r: Result<seq<Provision>>, st: Status)
    requires parser.Valid() && parser.InDoc(d)
    requires prov.xml.Some? ==> prov.xml.value < |d.tag|
    requires forall k :: 0 <= k < |processed| && processed[k].xml.Some? ==> processed[k].xml.value < |d.tag|
    modifies parser, d
    ensures parser.Valid() && parser.InDoc(d) && |d.tag| >= old(|d.tag|)
    ensures r.Success? ==> r.value == processed + LegacyEmitted(prov, st) && (st.Unconsumed? ==> st.p == prov)
    ensures r.Success? ==> forall k :: 0 <= k < |r.value| && r.value[k].xml.Some? ==> r.value[k].xml.value < |d.tag|
    ensures r.Success? && st.CompletedInline? && LastWithText(processed, prov.text).Some? ==>
      st.mod < |d.tag| && processed[LastWithText(processed, prov.text).value].xml == Some(d.parent[st.mod])
    ensures r.Success? ==> Control(parser.variant, old(parser.state), prov) == (KindOf(st), parser.state)
  {
    var s := parser.Process(d, prov);
    if s.Failure? {
      return Failure(s.error), Consumed;
    }
    st := s.value;
    r := LegacyPlace(d, processed, prov, st);
  }

  /** What the driver does with the status of one provision: an inline mod
      goes into the element of the latest provision with the instruction's
      text, and the provision's output joins the processed ones. */
  method LegacyPlace(d: Doc, processed: seq<Provision>, prov: Provision, st: Status) returns (r: Result<seq<Provision>>)
    requires d.Valid() && (st.CompletedInline? ==> st.mod < |d.tag|)
    requires st.CompletedBlock? ==> st.block < |d.tag|
    requires st.Unconsumed? ==> st.p == prov
    requires prov.xml.Some? ==> prov.xml.value < |d.tag|
    requires forall k :: 0 <= k < |processed| && processed[k].xml.Some? ==> processed[k].xml.value < |d.tag|
    modifies d
    ensures d.Valid() && d.tag == old(d.tag)
    ensures r.Success? ==> r.value == processed + LegacyEmitted(prov, st)
    ensures r.Success? ==> forall k :: 0 <= k < |r.value| && r.value[k].xml.Some? ==> r.value[k].xml.value < |d.tag|
    ensures r.Success? && st.CompletedInline? && LastWithText(processed, prov.text).Some? ==>
      processed[LastWithText(processed, prov.text).value].xml == Some(d.parent[st.mod])
  {
    if st.CompletedInline? {
      var placed := PlaceByText(d, processed, prov.text, st.mod);
      if placed.Failure? {
        return Failure(placed.error);
      }
    }
    r := Success(processed + LegacyEmitted(prov, st));
  }

  /** One more provision through the legacy driver. */
  lemma LegacyOutputStep(head: Provision, raw: seq<Provision>, sts: seq<Status>, i: nat, st: Status)
    requires i < |raw| && |sts| == i && Forwards(raw[..i], sts)
    requires st.Unconsumed? ==> st.p == raw[i]
    ensures Forwards(raw[..i + 1], sts + [st])
    ensures [head] + LegacyOutput(raw[..i + 1], sts + [st]) == [head] + LegacyOutput(raw[..i], sts) + LegacyEmitted(raw[i], st)
  {
    assert raw[..i + 1][..i] == raw[..i];
    assert (sts + [st])[..i] == sts;
    assert LegacyOutput(raw[..i + 1], sts + [st]) == LegacyOutput(raw[..i], sts) + LegacyEmitted(raw[i], st);
  }

  /** In a run without error, every inline mod whose instruction text an
      earlier emitted provision shares went into that provision's element:
      the latest such provision always had one. */
  predicate LegacyHosted(head: Provision, raw: seq<Provision>, sts: seq<Status>)
    requires |sts| == |raw|
  {
    forall i :: 0 <= i < |raw| && sts[i].CompletedInline? ==>
      var out := [head] + LegacyOutput(raw[..i], sts[..i]);
      LastWithText(out, raw[i].text).Some? ==> out[LastWithText(out, raw[i].text).value].xml.Some?
  }

  /** One more provision keeps the record of hosts. */
  lemma LegacyHostedStep(head: Provision, raw: seq<Provision>, sts: seq<Status>, i: nat, st: Status)
    requires i < |raw| && |sts| == i && LegacyHosted(head, raw[..i], sts)
    requires st.CompletedInline? ==>
      var out := [head] + LegacyOutput(raw[..i], sts);
      LastWithText(out, raw[i].text).Some? ==> out[LastWithText(out, raw[i].text).value].xml.Some?
    ensures LegacyHosted(head, raw[..i + 1], sts + [st])
  {
    var raw', sts' := raw[..i + 1], sts + [st];
    forall k | 0 <= k < i + 1 && sts'[k].CompletedInline?
      ensures var out := [head] + LegacyOutput(raw'[..k], sts'[..k]);
        LastWithText(out, raw'[k].text).Some? ==> out[LastWithText(out, raw'[k].text).value].xml.Some?
    {
      if k < i {
        assert raw'[..k] == raw[..i][..k] && sts'[..k] == sts[..k] && raw'[k] == raw[..i][k];
      } else {
        assert raw'[..k] == raw[..i] && sts'[..k] == sts;
      }
    }
  }

  /** With no instruction in any text, a parser that starts IDLE lets the
      legacy driver hand back `raw` unchanged. */
  lemma LegacyNothingToParse(raw: seq<Provision>, trace: seq<ParserState>, sts: seq<Status>)
    requires Traced(Legacy, raw, trace, sts) && trace[0] == Idle && Forwards(raw, sts)
    requires forall i :: 0 <= i < |raw| ==> MatchAmendmentInstruction(Legacy, OrEmpty(raw[i].text)).None?
    ensures LegacyOutput(raw, sts) == raw
  {
    TracedIdle(Legacy, raw, trace, sts);
    var placed := seq(|raw|, i => false);
    forall i | 0 <= i < |raw| ensures sts[i] == Unconsumed(raw[i]) {
      assert KindOf(sts[i]) == Forwarded;
    }
    LegacyOutputWithoutInline(raw, sts, placed);
    OutputAllIdle(raw, sts, placed);
  }

  /** The second pass of `eisb.py`'s `parse_section`, after the section's
      own provision `head`: consumed provisions are dropped, handed-back
      ones forwarded, completed blocks become `mod_block`s, and inline mods
      go into the element of the latest provision with the instruction's
      text, or nowhere. */
  method LegacyProcessAmendments(parser: AmendmentParser, d: Doc, head: Provision, raw: seq<Provision>)
    returns (r: Result<(seq<Provision>, seq<AmendmentMetadata>)>, ghost trace: seq<ParserState>, ghost sts: seq<Status>)
    requires parser.Valid() && parser.InDoc(d)
    requires head.xml.Some? ==> head.xml.value < |d.tag|
    requires forall k :: 0 <= k < |raw| && raw[k].xml.Some? ==> raw[k].xml.value < |d.tag|
    modifies parser, d
    ensures parser.Valid() && parser.InDoc(d) && |d.tag| >= old(|d.tag|)
    ensures r.Success? ==>
      Traced(parser.variant, raw, trace, sts) && trace[0] == old(parser.state) && trace[|raw|] == parser.state
      && Forwards(raw, sts) && LegacyHosted(head, raw, sts)
      && r.value.0 == [head] + LegacyOutput(raw, sts) && r.value.1 == parser.activeModInfo
  {
    var processed: seq<Provision> := [head];
    trace, sts := [parser.state], [];
    var i := 0;
    while i < |raw|
      invariant 0 <= i <= |raw| && |sts| == i
      invariant parser.Valid() && parser.InDoc(d) && |d.tag| >= old(|d.tag|)
      invariant Traced(parser.variant, raw[..i], trace, sts) && trace[0] == old(parser.state) && trace[i] == parser.state
      invariant Forwards(raw[..i], sts) && LegacyHosted(head, raw[..i], sts)
      invariant processed == [head] + LegacyOutput(raw[..i], sts)
      invariant forall k :: 0 <= k < |processed| && processed[k].xml.Some? ==> processed[k].xml.value < |d.tag|
    {
      var next, st := LegacyDriveOne(parser, d, processed, raw[i]);
      if next.Failure? {
        return Failure(next.error), trace, sts;
      }
      LegacyOutputStep(head, raw, sts, i, st);
      TracedStep(parser.variant, raw, trace, sts, i, st, parser.state);
      LegacyHostedStep(head, raw, sts, i, st);
      processed := next.value;
      trace, sts := trace + [parser.state], sts + [st];
      i := i + 1;
    }
    assert raw[..i] == raw;
    r := Success((processed, parser.activeModInfo));
  }

  /** `parse_section` of `eisb.py`: a missing `number` or `title/p` is an
      AttributeError; otherwise the section's container, with the legacy
      eId, heads the list and the raw provisions follow as the driver
      emits them; the records' sources are distinct. */
  method LegacyParseSection(d: Doc, sect: Sect)
    returns (r: Result<(seq<Provision>, seq<AmendmentMetadata>)>, ghost raw: seq<Provision>, ghost a: Arena,
             ghost trace: seq<ParserState>, ghost sts: seq<Status>)
    requires d.Valid()
    modifies d
    ensures d.Valid()
    ensures sect.number.None? || sect.title.None? ==> r.Failure? && unchanged(d)
    ensures !AllReadable(PTableChildren(sect.children)) ==> r.Failure?
    ensures r.Success? ==>
      sect.number.Some? && sect.title.Some? && AllReadable(PTableChildren(sect.children))
      && var eid := LegacyEIdSnippet("sect", Strip(sect.number.value));
      var x := old(|d.tag|) + 2;
      Sized(a) && SectionShape(a, x, eid, Strip(sect.number.value), sect.title.value)
      && RealisesRows(a, raw, LegacyAllRows(PTableChildren(sect.children)))
      && Traced(Legacy, raw, trace, sts) && trace[0] == Idle
      && Forwards(raw, sts) && LegacyHosted(SectionProvision(eid, x), raw, sts)
      && r.value.0 == [SectionProvision(eid, x)] + LegacyOutput(raw, sts)
      && forall j, k :: 0 <= j < k < |r.value.1| ==> r.value.1[j].sourceEId != r.value.1[k].sourceEId
  {
    raw, a, trace, sts := [], Snap(d), [], [];
    if sect.number.None? {
      return Failure("AttributeError: 'NoneType' object has no attribute 'text'"), raw, a, trace, sts;
    }
    var snumber := Strip(sect.number.value);
    if sect.title.None? {
      return Failure("AttributeError: 'NoneType' object has no attribute 'tag'"), raw, a, trace, sts;
    }
    var eid := LegacyEIdSnippet("sect", snumber);
    var x := MakeSection(d, sect.title.value, snumber, eid);
    ghost var a0 := Snap(d);
    var parser := new AmendmentParser(eid, DefaultPrincipalActUri, Legacy);
    var ps := LegacyExtract(d, sect.children);
    if ps.Failure? {
      return Failure(ps.error), raw, a, trace, sts;
    }
    raw, a := ps.value, Snap(d);
    SectionShapeGrows(a0, a, x, eid, snumber, sect.title.value);
    var built;
    built, trace, sts := LegacyProcessAmendments(parser, d, SectionProvision(eid, x), ps.value);
    if built.Failure? {
      return Failure(built.error), raw, a, trace, sts;
    }
    parser.SourcesDistinct();
    r := built;
  }
}
