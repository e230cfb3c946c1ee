/** The recognisers of `RegexPatternLibrary`: each compiled regular
    expression becomes a deterministic scanner over the text, together with
    the facts that tie the scanner to the pattern it replaces. The same
    library appears in `actsetl/parsers/patterns.py` and, character for
    character, in `actsetl/parsers/common.py`; the older copy in
    `actsetl/parsers/eisb.py` differs only in its inline-substitution
    pattern, which is `LegacyInlineAt` below. */
module Patterns {
  import opened Wrappers
  import opened Text

  /** The curly quotation marks “ ” ‘ ’ */
  const ODQ: char := '\U{201C}'
  const CDQ: char := '\U{201D}'
  const OSQ: char := '\U{2018}'
  const CSQ: char := '\U{2019}'

  // ---------------------------------------------------------------------
  // Provision markers: ^\s?([“”]?\(BODY\))

  datatype MarkerKind = Subsection | Paragraph | Clause | Subclause

  /** A successful `re.match`: `group(1)` and `match.end()`. */
  datatype Marker = Marker(group: string, end: nat)

  predicate IsCurly(c: char) { c == ODQ || c == CDQ }

  /** The bracketed body of each marker pattern: `\d+[A-Z]*`, `[a-z]+`,
      `[IVX]+`, `[A-Z]+`. */
  predicate IsMarkerBody(b: string, k: MarkerKind) {
    match k
    case Subsection =>
      b != [] && IsDigit(b[0])
      && (forall i :: 0 <= i < |b| ==> IsDigit(b[i]) || IsUpper(b[i]))
      && (forall i, j :: 0 <= i < j < |b| && IsUpper(b[i]) ==> IsUpper(b[j]))
    case Paragraph => b != [] && forall i :: 0 <= i < |b| ==> IsLower(b[i])
    case Clause => b != [] && forall i :: 0 <= i < |b| ==> InClass(b[i], Roman)
    case Subclause => b != [] && forall i :: 0 <= i < |b| ==> IsUpper(b[i])
  }

  /** How many leading characters a marker group spends on its quote. */
  function QuoteLen(g: string): nat {
    if g != [] && IsCurly(g[0]) then 1 else 0
  }

  /** The text of `group(1)`: an optional curly quote, `(`, a body, `)`. */
  predicate IsMarkerText(g: string, k: MarkerKind) {
    var q := QuoteLen(g);
    |g| >= q + 3 && g[q] == '(' && g[|g| - 1] == ')' && IsMarkerBody(g[q + 1..|g| - 1], k)
  }

  /** The pattern matches `text` with `\s?` spending `w` characters and
      the group occupying `text[w..e]`. */
  predicate MarkerAt(text: string, k: MarkerKind, w: nat, e: nat) {
    w <= e <= |text| && (w == 0 || (w == 1 && IsSpace(text[0])))
    && IsMarkerText(text[w..e], k)
  }

  /** Where the longest body run starting at `i` ends. */
  function BodyEnd(text: string, i: nat, k: MarkerKind): (e: nat)
    requires i <= |text|
    ensures i <= e <= |text|
  {
    match k
    case Subsection => RunEnd(text, RunEnd(text, i, Digit), Upper)
    case Paragraph => RunEnd(text, i, LowerRun)
    case Clause => RunEnd(text, i, Roman)
    case Subclause => RunEnd(text, i, Upper)
  }

  /** The body run starting at `i` is not empty (for subsections, it
      starts with a digit). */
  predicate BodyStarts(text: string, i: nat, k: MarkerKind)
    requires i <= |text|
  {
    match k
    case Subsection => RunEnd(text, i, Digit) > i
    case Paragraph => RunEnd(text, i, LowerRun) > i
    case Clause => RunEnd(text, i, Roman) > i
    case Subclause => RunEnd(text, i, Upper) > i
  }

  lemma BodyRunIsBody(text: string, i: nat, k: MarkerKind)
    requires i <= |text| && BodyStarts(text, i, k)
    ensures IsMarkerBody(text[i..BodyEnd(text, i, k)], k)
  {
    var b := text[i..BodyEnd(text, i, k)];
    if k == Subsection {
      var d := RunEnd(text, i, Digit);
      assert forall m :: 0 <= m < |b| ==> (m < d - i ==> IsDigit(b[m])) && (m >= d - i ==> IsUpper(b[m]));
    }
  }

  /** Where `(` must stand: after the optional space and quote. */
  function MarkerOpen(text: string): (q: nat)
    ensures q <= |text|
  {
    var w := MarkerSpace(text);
    if w < |text| && IsCurly(text[w]) then w + 1 else w
  }

  /** What the first character of each kind of body is. */
  predicate FirstBodyChar(c: char, k: MarkerKind) {
    match k
    case Subsection => IsDigit(c)
    case Paragraph => IsLower(c)
    case Clause => InClass(c, Roman)
    case Subclause => IsUpper(c)
  }

  /** The optional leading space. */
  function MarkerSpace(text: string): (w: nat)
    ensures w <= 1 && w <= |text| && (w == 1 ==> IsSpace(text[0]))
  {
    if |text| > 0 && IsSpace(text[0]) then 1 else 0
  }

  /** `subsection_pattern.match(text)` and its three siblings. */
  function MatchMarker(text: string, k: MarkerKind): (r: Option<Marker>)
    ensures r.Some? ==> r.value.end >= |r.value.group|
    ensures r.Some? ==> MarkerAt(text, k, r.value.end - |r.value.group|, r.value.end)
    ensures r.Some? ==> r.value.group == text[r.value.end - |r.value.group|..r.value.end]
    ensures r.Some? ==> MarkerOpen(text) + 1 < |text| && FirstBodyChar(text[MarkerOpen(text) + 1], k)
  {
    var q := MarkerOpen(text);
    if q < |text| && text[q] == '(' && BodyStarts(text, q + 1, k) then
      var e := BodyEnd(text, q + 1, k);
      if e < |text| && text[e] == ')' then
        MarkerScanned(text, k, e);
        Some(Marker(text[MarkerSpace(text)..e + 1], e + 1))
      else None
    else None
  }

  /** What the scanner checks is what the pattern demands. */
  lemma MarkerScanned(text: string, k: MarkerKind, e: nat)
    requires MarkerOpen(text) < |text| && text[MarkerOpen(text)] == '('
    requires BodyStarts(text, MarkerOpen(text) + 1, k) && e == BodyEnd(text, MarkerOpen(text) + 1, k)
    requires e < |text| && text[e] == ')'
    ensures MarkerAt(text, k, MarkerSpace(text), e + 1)
    ensures FirstBodyChar(text[MarkerOpen(text) + 1], k)
  {
    var w := MarkerSpace(text);
    var q := MarkerOpen(text);
    BodyRunIsBody(text, q + 1, k);
    FirstBodyCharOf(text, q + 1, k);
    assert text[w..e + 1][0] == text[w];
    MarkerTextFrom(text, w, q, e, k);
  }

  /** The slice from the optional space to the closing bracket is a
      marker text when its parts are where the scanner found them. */
  lemma MarkerTextFrom(text: string, w: nat, q: nat, e: nat, k: MarkerKind)
    requires w <= q && q + 1 < e < |text| && text[q] == '(' && text[e] == ')'
    requires QuoteLen(text[w..e + 1]) == q - w && IsMarkerBody(text[q + 1..e], k)
    ensures IsMarkerText(text[w..e + 1], k)
  {
    var g := text[w..e + 1];
    assert g[q - w] == '(' && g[|g| - 1] == ')';
    SliceSlice(text, w, e + 1, q - w + 1, |g| - 1);
  }

  /** A body starts with the first character its kind allows. */
  lemma FirstBodyCharOf(text: string, i: nat, k: MarkerKind)
    requires i <= |text| && BodyStarts(text, i, k)
    ensures i < |text| && FirstBodyChar(text[i], k)
  {
  }

  /** Any way the pattern can match is the way the scanner reports, so the
      scanner answers `None` exactly when the pattern does not match. */
  lemma MarkerComplete(text: string, k: MarkerKind, w: nat, e: nat)
    requires MarkerAt(text, k, w, e)
    ensures MatchMarker(text, k) == Some(Marker(text[w..e], e))
  {
    MarkerGeometry(text, k, w, e);
    var q := MarkerOpen(text);
    BodyRunEnds(text, q + 1, k, e - 1);
    assert q < |text| && text[q] == '(' && BodyStarts(text, q + 1, k);
    assert BodyEnd(text, q + 1, k) == e - 1 && text[e - 1] == ')';
  }

  /** Where a match puts its space, quote, brackets and body. */
  lemma MarkerGeometry(text: string, k: MarkerKind, w: nat, e: nat)
    requires MarkerAt(text, k, w, e)
    ensures MarkerSpace(text) == w
    ensures MarkerOpen(text) + 2 < e && text[MarkerOpen(text)] == '(' && text[e - 1] == ')'
    ensures IsMarkerBody(text[MarkerOpen(text) + 1..e - 1], k)
    ensures MarkerOpen(text) == w + QuoteLen(text[w..e])
    ensures text[w..e][QuoteLen(text[w..e]) + 1..e - w - 1] == text[MarkerOpen(text) + 1..e - 1]
  {
    var g := text[w..e];
    var qg := QuoteLen(g);
    var b := g[qg + 1..|g| - 1];
    assert g[0] == text[w];
    if w == 0 {
      assert IsCurly(g[0]) || g[0] == '(';
    }
    var q := w + qg;
    assert text[q] == g[qg];
    assert |g| == e - w;
    SliceSlice(text, w, e, qg + 1, |g| - 1);
    assert b == text[q + 1..e - 1];
  }

  /** A body followed by `)` is exactly the run the scanner takes. */
  lemma BodyRunEnds(text: string, i: nat, k: MarkerKind, e: nat)
    requires i <= e < |text| && text[e] == ')' && IsMarkerBody(text[i..e], k)
    ensures BodyStarts(text, i, k) && BodyEnd(text, i, k) == e
  {
    var b := text[i..e];
    assert forall m :: i <= m < e ==> text[m] == b[m - i];
    match k {
      case Subsection =>
        var d := RunEnd(text, i, Digit);
        assert IsDigit(text[i]);
        assert d <= e by { assert !IsDigit(text[e]); }
        forall m | d <= m < e ensures IsUpper(text[m]) {
          assert !IsDigit(text[d]);
          assert IsUpper(b[d - i]);
          assert IsUpper(b[m - i]);
        }
        RunEndUnique(text, d, Upper, e);
      case Paragraph =>
        RunEndUnique(text, i, LowerRun, e);
      case Clause =>
        RunEndUnique(text, i, Roman, e);
      case Subclause =>
        RunEndUnique(text, i, Upper, e);
    }
  }

  /** `match_provision_type`: subsection, paragraph, clause and subclause
      are tried in that order and the first that matches wins; `None` is
      the `(None, None)` answer. */
  function MatchProvisionType(text: string): (r: Option<(MarkerKind, Marker)>)
    ensures r.None? <==>
      MatchMarker(text, Subsection).None? && MatchMarker(text, Paragraph).None?
      && MatchMarker(text, Clause).None? && MatchMarker(text, Subclause).None?
    ensures r.Some? ==> MatchMarker(text, r.value.0) == Some(r.value.1)
    ensures r.Some? ==> forall k :: Earlier(k, r.value.0) ==> MatchMarker(text, k).None?
  {
    if MatchMarker(text, Subsection).Some? then Some((Subsection, MatchMarker(text, Subsection).value))
    else if MatchMarker(text, Paragraph).Some? then Some((Paragraph, MatchMarker(text, Paragraph).value))
    else if MatchMarker(text, Clause).Some? then Some((Clause, MatchMarker(text, Clause).value))
    else if MatchMarker(text, Subclause).Some? then Some((Subclause, MatchMarker(text, Subclause).value))
    else None
  }

  /** The order in which `match_provision_type` tries the patterns. */
  predicate Earlier(a: MarkerKind, b: MarkerKind) {
    Rank(a) < Rank(b)
  }

  function Rank(k: MarkerKind): nat {
    match k
    case Subsection => 0
    case Paragraph => 1
    case Clause => 2
    case Subclause => 3
  }

  /** A marker of `I`, `V` and `X` only is a clause, never a subsection
      or a paragraph. */
  lemma RomanMarkersAreClauses(text: string)
    ensures MatchMarker(text, Clause).Some? ==>
      MatchProvisionType(text).Some? && MatchProvisionType(text).value.0 == Clause
  {
    if MatchMarker(text, Clause).Some? {
      var c := text[MarkerOpen(text) + 1];
      assert !IsDigit(c) && !IsLower(c);
      assert MatchMarker(text, Subsection).None?;
      assert MatchMarker(text, Paragraph).None?;
    }
  }

  /** A subclause marker always holds a capital letter other than `I`,
      `V` and `X`: otherwise the clause pattern would have taken it. */
  lemma SubclauseHasNonRoman(text: string)
    ensures MatchProvisionType(text).Some? && MatchProvisionType(text).value.0 == Subclause ==>
      exists i :: 0 <= i < |text| && IsUpper(text[i]) && !InClass(text[i], Roman)
  {
    var r := MatchProvisionType(text);
    if r.Some? && r.value.0 == Subclause {
      assert MatchMarker(text, Clause).None?;
      SubclauseBodyNotRoman(text, r.value.1.end - |r.value.1.group|, r.value.1.end);
    }
  }

  lemma SubclauseBodyNotRoman(text: string, w: nat, e: nat)
    requires MarkerAt(text, Subclause, w, e) && MatchMarker(text, Clause).None?
    ensures exists i :: 0 <= i < |text| && IsUpper(text[i]) && !InClass(text[i], Roman)
  {
    MarkerGeometry(text, Subclause, w, e);
    var q := MarkerOpen(text);
    var b := text[q + 1..e - 1];
    if forall m :: 0 <= m < |b| ==> InClass(b[m], Roman) {
      assert IsMarkerBody(b, Clause);
      assert MarkerAt(text, Clause, w, e);
      MarkerComplete(text, Clause, w, e);
      assert false;
    }
    var m :| 0 <= m < |b| && !InClass(b[m], Roman);
    assert text[q + 1 + m] == b[m];
  }

  // ---------------------------------------------------------------------
  // Amendment instructions

  const SubstitutionPrefix := "by the substitution of "
  const InsertionPrefix := "by the insertion of "
  const ForSep := " for "
  const AfterSep := " after "
  const DefinitionsPhrase := "by the insertion of the following definitions:"

  /** The dictionary `match_amendment_instruction` returns. */
  datatype Instruction =
    | InlineSubstitution(newText: string, oldText: string)
    | Substitution(destination: string)
    | InsertionAfter(destination: string)
    | InsertionDefinitions
  {
    /** `details['type']` */
    function Type(): string {
      if InlineSubstitution? || Substitution? then "substitution" else "insertion"
    }
    /** `details.get('position')` */
    function Position(): Option<string> {
      if InsertionAfter? then Some("after") else None
    }
    /** `details.get('destination_text', '')` */
    function DestinationText(): string {
      if Substitution? || InsertionAfter? then destination else ""
    }
    /** `details.get('inline')` */
    predicate IsInline() { InlineSubstitution? }
  }

  /** The first line break at or after `i`, or the end: how far `.` reaches. */
  function LineEnd(text: string, i: nat): nat
    requires i <= |text|
  {
    SepEnd(text, i, '\n')
  }

  /** The largest `j` at or after `lo` with `sep` (ASCII case ignored) at
      `j` and at least one more character before `hi`. */
  function LastSep(text: string, lo: nat, hi: nat, sep: string): (r: Option<nat>)
    requires lo <= hi <= |text|
    ensures r.Some? ==> lo <= r.value && r.value + |sep| < hi && AtFolded(text, r.value, sep)
    ensures r.Some? ==> forall j :: r.value < j && j + |sep| < hi ==> !AtFolded(text, j, sep)
    ensures r.None? ==> forall j :: lo <= j && j + |sep| < hi ==> !AtFolded(text, j, sep)
  {
    if hi < lo + |sep| + 1 then None else LastSepDown(text, lo, hi, sep, hi - |sep| - 1)
  }

  function LastSepDown(text: string, lo: nat, hi: nat, sep: string, j: nat): (r: Option<nat>)
    requires lo <= j && j + |sep| < hi <= |text|
    ensures r.Some? ==> lo <= r.value <= j && AtFolded(text, r.value, sep)
    ensures r.Some? ==> forall x :: r.value < x && x + |sep| < hi ==> !AtFolded(text, x, sep)
    ensures r.None? ==> forall x :: lo <= x && x + |sep| < hi ==> !AtFolded(text, x, sep)
    requires forall x :: j < x && x + |sep| < hi ==> !AtFolded(text, x, sep)
    decreases j
  {
    if AtFolded(text, j, sep) then Some(j)
    else if j == lo then None
    else LastSepDown(text, lo, hi, sep, j - 1)
  }

  /** `PREFIX.* SEP(?P<g>.+)` with IGNORECASE, matched at `i`: the raw
      group, which runs from the last usable separator to the end of the
      line. */
  function GreedyAt(text: string, i: nat, prefix: string, sep: string): (r: Option<string>)
    requires i <= |text|
    ensures r.Some? ==> AtFolded(text, i, prefix)
    ensures r.Some? ==> exists j: nat :: GreedySplit(text, i, prefix, sep, j) && r.value == GreedyGroup(text, i, prefix, sep, j)
    ensures r.None? ==> forall j: nat :: !GreedySplit(text, i, prefix, sep, j)
  {
    if AtFolded(text, i, prefix) then
      var nl := LineEnd(text, i + |prefix|);
      match LastSep(text, i + |prefix|, nl, sep)
      case None => None
      case Some(j) =>
        assert GreedySplit(text, i, prefix, sep, j);
        Some(text[j + |sep|..nl])
    else None
  }

  /** The group text once the split is at `j`. */
  function GreedyGroup(text: string, i: nat, prefix: string, sep: string, j: nat): string
    requires GreedySplit(text, i, prefix, sep, j)
  {
    text[j + |sep|..LineEnd(text, i + |prefix|)]
  }

  /** `j` is where the greedy `.*` stops: the separator at `j` is the last
      one on the line that still leaves a character for `.+`. */
  predicate GreedySplit(text: string, i: nat, prefix: string, sep: string, j: nat) {
    i + |prefix| <= |text| && AtFolded(text, i, prefix)
    && var nl := LineEnd(text, i + |prefix|);
    i + |prefix| <= j && j + |sep| < nl && AtFolded(text, j, sep)
    && forall x :: j < x && x + |sep| < nl ==> !AtFolded(text, x, sep)
  }

  /** `pattern.search(text)` for the greedy patterns: where the leftmost
      match at or after `i` starts. */
  function GreedySearchFrom(text: string, prefix: string, sep: string, i: nat): (r: Option<nat>)
    requires i <= |text|
    ensures r.Some? ==> i <= r.value <= |text| && GreedyAt(text, r.value, prefix, sep).Some?
    ensures forall y :: i <= y <= |text| && (r.None? || y < r.value) ==> GreedyAt(text, y, prefix, sep).None?
    decreases |text| - i
  {
    if GreedyAt(text, i, prefix, sep).Some? then Some(i)
    else if i == |text| then None
    else GreedySearchFrom(text, prefix, sep, i + 1)
  }

  /** The raw group of the leftmost greedy match. */
  function GreedySearch(text: string, prefix: string, sep: string): Option<string> {
    match GreedySearchFrom(text, prefix, sep, 0)
    case None => None
    case Some(x) => GreedyAt(text, x, prefix, sep)
  }

  /** The new text of the current inline pattern: `QQ?N+'Q?`, where `Q`
      is a quote character and `N` anything else. */
  function NewLiteralEnd(text: string, p: nat): (r: Option<nat>)
    requires p <= |text|
    ensures r.Some? ==> p < r.value <= |text|
  {
    LiteralEnd(text, p, false)
  }

  /** The old text of the current inline pattern: `QQ?N+'Q`. */
  function OldLiteralEnd(text: string, p: nat): (r: Option<nat>)
    requires p <= |text|
    ensures r.Some? ==> p < r.value <= |text|
  {
    LiteralEnd(text, p, true)
  }

  function LiteralEnd(text: string, p: nat, closing: bool): (r: Option<nat>)
    requires p <= |text|
    ensures r.Some? ==> p < r.value <= |text|
    ensures r.Some? ==> IsCurrentLiteral(text[p..r.value], closing)
  {
    if p < |text| && text[p] in QuoteChars then
      var b := if p + 1 < |text| && text[p + 1] in QuoteChars then p + 2 else p + 1;
      var c := RunEnd(text, b, NotQuote);
      if c > b && c < |text| && text[c] == '\'' then
        var e := if c + 1 < |text| && text[c + 1] in QuoteChars then c + 2 else c + 1;
        if closing && e == c + 1 then None
        else
          var g := text[p..e];
          assert g[1] in QuoteChars <==> b == p + 2;
          Some(e)
      else None
    else None
  }

  /** The shape of a literal of the current inline pattern: a quote, an
      optional second quote, a non-empty run of other characters, `'`,
      and a final quote that is optional for the new text (`closing`
      false) and required for the old text. */
  predicate IsCurrentLiteral(g: string, closing: bool) {
    |g| >= 3 && g[0] in QuoteChars
    && var a := if g[1] in QuoteChars then 2 else 1;
    var z := if g[|g| - 1] in QuoteChars && g[|g| - 2] == '\'' && |g| - 2 > a then |g| - 2 else |g| - 1;
    a < z && g[z] == '\''
    && (forall m :: a <= m < z ==> g[m] !in QuoteChars)
    && (closing ==> z == |g| - 2)
  }

  /** `amendment_inline_substitution.match` at `i` (patterns.py): the raw
      `new` and `old` groups. */
  function InlineAt(text: string, i: nat): (r: Option<(string, string)>)
    requires i <= |text|
    ensures r.Some? ==> At(text, i, SubstitutionPrefix)
    ensures r.Some? ==> IsCurrentLiteral(r.value.0, false) && IsCurrentLiteral(r.value.1, true)
    ensures r.Some? ==> At(text, i + |SubstitutionPrefix|, r.value.0)
    ensures r.Some? ==> At(text, i + |SubstitutionPrefix| + |r.value.0|, ForSep)
    ensures r.Some? ==> At(text, i + |SubstitutionPrefix| + |r.value.0| + |ForSep|, r.value.1)
  {
    if At(text, i, SubstitutionPrefix) then
      var p := i + |SubstitutionPrefix|;
      match NewLiteralEnd(text, p)
      case None => None
      case Some(e) =>
        if At(text, e, ForSep) then
          match OldLiteralEnd(text, e + |ForSep|)
          case None => None
          case Some(f) =>
            Some((text[p..e], text[e + |ForSep|..f]))
        else None
    else None
  }

  /** The shape of a literal of the older inline pattern in eisb.py:
      a quote, a non-empty run of other characters, a quote. */
  predicate IsLegacyLiteral(g: string) {
    |g| >= 3 && g[0] in QuoteChars && g[|g| - 1] in QuoteChars
    && forall m :: 1 <= m < |g| - 1 ==> g[m] !in QuoteChars
  }

  function LegacyLiteralEnd(text: string, p: nat): (r: Option<nat>)
    requires p <= |text|
    ensures r.Some? ==> p < r.value <= |text| && IsLegacyLiteral(text[p..r.value])
  {
    if p < |text| && text[p] in QuoteChars then
      var c := RunEnd(text, p + 1, NotQuote);
      if c > p + 1 && c < |text| then Some(c + 1) else None
    else None
  }

  /** `amendment_inline_substitution.match` at `i` (eisb.py). */
  function LegacyInlineAt(text: string, i: nat): (r: Option<(string, string)>)
    requires i <= |text|
    ensures r.Some? ==> At(text, i, SubstitutionPrefix)
    ensures r.Some? ==> IsLegacyLiteral(r.value.0) && IsLegacyLiteral(r.value.1)
    ensures r.Some? ==> At(text, i + |SubstitutionPrefix|, r.value.0)
    ensures r.Some? ==> At(text, i + |SubstitutionPrefix| + |r.value.0|, ForSep)
    ensures r.Some? ==> At(text, i + |SubstitutionPrefix| + |r.value.0| + |ForSep|, r.value.1)
  {
    if At(text, i, SubstitutionPrefix) then
      var p := i + |SubstitutionPrefix|;
      match LegacyLiteralEnd(text, p)
      case None => None
      case Some(e) =>
        if At(text, e, ForSep) then
          match LegacyLiteralEnd(text, e + |ForSep|)
          case None => None
          case Some(f) =>
            Some((text[p..e], text[e + |ForSep|..f]))
        else None
    else None
  }

  /** Every literal of the current shape is found by `LiteralEnd`, provided
      the text does not go on with a quote where the new text's final quote
      is optional (the regular expression takes that quote greedily). */
  lemma LiteralEndComplete(text: string, p: nat, g: string, closing: bool)
    requires At(text, p, g) && IsCurrentLiteral(g, closing)
    requires !closing && p + |g| < |text| ==> text[p + |g|] !in QuoteChars
    ensures LiteralEnd(text, p, closing) == Some(p + |g|)
  {
    var e := p + |g|;
    assert g[0] == text[p] && g[1] == text[p + 1];
    var a := if g[1] in QuoteChars then 2 else 1;
    var z := if g[|g| - 1] in QuoteChars && g[|g| - 2] == '\'' && |g| - 2 > a then |g| - 2 else |g| - 1;
    forall m | p + a <= m < p + z ensures InClass(text[m], NotQuote) {
      assert text[m] == g[m - p];
    }
    assert text[p + z] == g[z];
    if z == |g| - 2 {
      assert text[p + z + 1] == g[|g| - 1];
    }
    LiteralEndRun(text, p, a, z, e, closing);
  }

  /** `LiteralEnd` from its opening quotes, its run and its closing. */
  lemma LiteralEndRun(text: string, p: nat, a: nat, z: nat, e: nat, closing: bool)
    requires p + 1 < |text| && text[p] in QuoteChars && (a == 1 || a == 2)
    requires text[p + 1] in QuoteChars <==> a == 2
    requires a < z && p + z < e <= |text| && text[p + z] == '\''
    requires forall m :: p + a <= m < p + z ==> InClass(text[m], NotQuote)
    requires e == p + z + 1 || (e == p + z + 2 && text[p + z + 1] in QuoteChars)
    requires e == p + z + 1 ==> !closing && (e < |text| ==> text[e] !in QuoteChars)
    ensures LiteralEnd(text, p, closing) == Some(e)
  {
    RunEndUnique(text, p + a, NotQuote, p + z);
  }

  /** Every pair of current-shape literals in place after the prefix and
      around `" for "` is what `InlineAt` returns. */
  lemma InlineComplete(text: string, i: nat, g0: string, g1: string)
    requires At(text, i, SubstitutionPrefix)
    requires At(text, i + |SubstitutionPrefix|, g0) && IsCurrentLiteral(g0, false)
    requires At(text, i + |SubstitutionPrefix| + |g0|, ForSep)
    requires At(text, i + |SubstitutionPrefix| + |g0| + |ForSep|, g1) && IsCurrentLiteral(g1, true)
    ensures InlineAt(text, i) == Some((g0, g1))
  {
    var p := i + |SubstitutionPrefix|;
    var e := p + |g0|;
    var f := e + |ForSep| + |g1|;
    AtHead(text, e, ForSep);
    LiteralEndComplete(text, p, g0, false);
    LiteralEndComplete(text, e + |ForSep|, g1, true);
    InlineAtFrom(text, i, e, f);
    assert text[p..e] == g0 && text[e + |ForSep|..f] == g1;
  }

  lemma AtHead(text: string, i: nat, s: string)
    requires At(text, i, s) && s != []
    ensures text[i] == s[0]
  {
    assert text[i] == text[i..i + |s|][0];
  }

  /** `InlineAt` once both literals have been delimited. */
  lemma InlineAtFrom(text: string, i: nat, e: nat, f: nat)
    requires At(text, i, SubstitutionPrefix) && e + |ForSep| <= f <= |text|
    requires NewLiteralEnd(text, i + |SubstitutionPrefix|) == Some(e) && At(text, e, ForSep)
    requires OldLiteralEnd(text, e + |ForSep|) == Some(f)
    ensures InlineAt(text, i) == Some((text[i + |SubstitutionPrefix|..e], text[e + |ForSep|..f]))
  {
  }

  /** Every literal of the older shape is found by `LegacyLiteralEnd`. */
  lemma LegacyLiteralEndComplete(text: string, p: nat, e: nat)
    requires p <= e <= |text| && IsLegacyLiteral(text[p..e])
    ensures LegacyLiteralEnd(text, p) == Some(e)
  {
    var g := text[p..e];
    assert text[p] == g[0] && text[e - 1] == g[|g| - 1];
    forall m | p + 1 <= m < e - 1 ensures InClass(text[m], NotQuote) {
      assert text[m] == g[m - p];
    }
    RunEndUnique(text, p + 1, NotQuote, e - 1);
  }

  /** Every pair of older-shape literals in place is what `LegacyInlineAt`
      returns. */
  lemma LegacyInlineComplete(text: string, i: nat, g0: string, g1: string)
    requires At(text, i, SubstitutionPrefix)
    requires At(text, i + |SubstitutionPrefix|, g0) && IsLegacyLiteral(g0)
    requires At(text, i + |SubstitutionPrefix| + |g0|, ForSep)
    requires At(text, i + |SubstitutionPrefix| + |g0| + |ForSep|, g1) && IsLegacyLiteral(g1)
    ensures LegacyInlineAt(text, i) == Some((g0, g1))
  {
    var p := i + |SubstitutionPrefix|;
    var e := p + |g0|;
    LegacyLiteralEndComplete(text, p, e);
    LegacyLiteralEndComplete(text, e + |ForSep|, e + |ForSep| + |g1|);
  }

  /** Which copy of the library: patterns.py/common.py or eisb.py. */
  datatype Variant = Current | Legacy

  function InlineAtIn(v: Variant, text: string, i: nat): Option<(string, string)>
    requires i <= |text|
  {
    if v == Current then InlineAt(text, i) else LegacyInlineAt(text, i)
  }

  /** `amendment_inline_substitution.search(text)`: where the leftmost
      match at or after `i` starts. */
  function InlineSearchFrom(v: Variant, text: string, i: nat): (r: Option<nat>)
    requires i <= |text|
    ensures r.Some? ==> i <= r.value <= |text| && InlineAtIn(v, text, r.value).Some?
    ensures forall y :: i <= y <= |text| && (r.None? || y < r.value) ==> InlineAtIn(v, text, y).None?
    decreases |text| - i
  {
    if InlineAtIn(v, text, i).Some? then Some(i)
    else if i == |text| then None
    else InlineSearchFrom(v, text, i + 1)
  }

  /** The raw `new` and `old` groups of the leftmost inline match. */
  function InlineSearch(v: Variant, text: string): Option<(string, string)> {
    match InlineSearchFrom(v, text, 0)
    case None => None
    case Some(x) => InlineAtIn(v, text, x)
  }

  /** `amendment_insertion_simple.search(text)` */
  predicate HasDefinitionsPhrase(text: string) {
    exists i :: 0 <= i <= |text| && AtFolded(text, i, DefinitionsPhrase)
  }

  function FindDefinitions(text: string, i: nat): (r: bool)
    requires i <= |text|
    ensures r <==> exists x :: i <= x <= |text| && AtFolded(text, x, DefinitionsPhrase)
    decreases |text| - i
  {
    if AtFolded(text, i, DefinitionsPhrase) then true
    else if i == |text| then false
    else FindDefinitions(text, i + 1)
  }

  /** `match_amendment_instruction`: inline substitution, general
      substitution, insertion after, the definitions phrase, in that order;
      `None` when none of them matches. The inline texts come back without
      the quotes around them, the destinations without the colon before the
      quoted matter. */
  function MatchAmendmentInstruction(v: Variant, text: string): (r: Option<Instruction>)
    ensures r.Some? && r.value.InlineSubstitution? ==>
      QuotesTrimmed(r.value.newText) && QuotesTrimmed(r.value.oldText)
    ensures r.Some? && (r.value.Substitution? || r.value.InsertionAfter?) ==> NoColonEnds(r.value.destination)
    ensures r.Some? && r.value.InsertionDefinitions? ==> HasDefinitionsPhrase(text)
  {
    match InlineSearch(v, text)
    case Some((nw, od)) =>
      Some(InlineSubstitution(StripSet(nw, QuoteChars), StripSet(od, QuoteChars)))
    case None =>
      match GreedySearch(text, SubstitutionPrefix, ForSep)
      case Some(d) => Some(Substitution(StripSet(d, {':'})))
      case None =>
        match GreedySearch(text, InsertionPrefix, AfterSep)
        case Some(d) => Some(InsertionAfter(StripSet(d, {':'})))
        case None =>
          if FindDefinitions(text, 0) then Some(InsertionDefinitions) else None
  }

  /** The priority order of `match_amendment_instruction`, and what each
      alternative returns: the stripped groups of the first pattern that
      matches. */
  lemma InstructionPriority(v: Variant, text: string)
    ensures var r := MatchAmendmentInstruction(v, text);
      && (r.Some? && r.value.IsInline() <==> InlineSearch(v, text).Some?)
      && (r.Some? && r.value.Substitution? <==>
            InlineSearch(v, text).None? && GreedySearch(text, SubstitutionPrefix, ForSep).Some?)
      && (r.Some? && r.value.InsertionAfter? <==>
            InlineSearch(v, text).None? && GreedySearch(text, SubstitutionPrefix, ForSep).None?
            && GreedySearch(text, InsertionPrefix, AfterSep).Some?)
      && (r.Some? && r.value.InsertionDefinitions? <==>
            InlineSearch(v, text).None? && GreedySearch(text, SubstitutionPrefix, ForSep).None?
            && GreedySearch(text, InsertionPrefix, AfterSep).None? && HasDefinitionsPhrase(text))
      && (r.None? <==>
            InlineSearch(v, text).None? && GreedySearch(text, SubstitutionPrefix, ForSep).None?
            && GreedySearch(text, InsertionPrefix, AfterSep).None? && !HasDefinitionsPhrase(text))
    ensures InlineSearch(v, text).Some? ==>
      MatchAmendmentInstruction(v, text) == Some(InlineSubstitution(
        StripSet(InlineSearch(v, text).value.0, QuoteChars), StripSet(InlineSearch(v, text).value.1, QuoteChars)))
    ensures InlineSearch(v, text).None? && GreedySearch(text, SubstitutionPrefix, ForSep).Some? ==>
      MatchAmendmentInstruction(v, text)
        == Some(Substitution(StripSet(GreedySearch(text, SubstitutionPrefix, ForSep).value, {':'})))
    ensures (InlineSearch(v, text).None? && GreedySearch(text, SubstitutionPrefix, ForSep).None?
             && GreedySearch(text, InsertionPrefix, AfterSep).Some?) ==>
      MatchAmendmentInstruction(v, text)
        == Some(InsertionAfter(StripSet(GreedySearch(text, InsertionPrefix, AfterSep).value, {':'})))
  {
    var b := FindDefinitions(text, 0);
    assert b <==> HasDefinitionsPhrase(text);
  }

  /** No quote character at either end. */
  predicate QuotesTrimmed(t: string) {
    t == [] || (t[0] !in QuoteChars && t[|t| - 1] !in QuoteChars)
  }

  predicate NoColonEnds(d: string) {
    d == [] || (d[0] != ':' && d[|d| - 1] != ':')
  }

  // ---------------------------------------------------------------------
  // Destination components: (section|subsect|paragraph) (\w+)

  datatype DestMatch = DestMatch(kind: string, id: string, start: nat, end: nat)

  /** The three alternatives, in the order the pattern lists them. */
  function DestKindAt(text: string, i: nat): Option<string> {
    if At(text, i, "section") then Some("section")
    else if At(text, i, "subsect") then Some("subsect")
    else if At(text, i, "paragraph") then Some("paragraph")
    else None
  }

  /** `destination_components.match(text, i)` */
  function DestAt(text: string, i: nat): (r: Option<DestMatch>)
    requires i <= |text|
    ensures r.Some? ==> r.value.start == i < r.value.end <= |text|
    ensures r.Some? ==> r.value.kind in ["section", "subsect", "paragraph"]
    ensures r.Some? ==> i + |r.value.kind| + 1 < r.value.end
    ensures r.Some? ==> At(text, i, r.value.kind) && text[i + |r.value.kind|] == ' '
    ensures r.Some? ==> r.value.id == text[i + |r.value.kind| + 1..r.value.end]
    ensures r.Some? ==> r.value.id != [] && (forall c :: c in r.value.id ==> IsWordChar(c))
    ensures r.Some? ==> r.value.end == |text| || !IsWordChar(text[r.value.end])
  {
    match DestKindAt(text, i)
    case None => None
    case Some(k) =>
      var s := i + |k|;
      if s < |text| && text[s] == ' ' then
        var e := RunEnd(text, s + 1, Word);
        if e > s + 1 then
          Some(DestMatch(k, text[s + 1..e], i, e))
        else None
      else None
  }

  /** `destination_components.findall(text)` from position `i`, with the
      span of every match. */
  function DestFindAll(text: string, i: nat): (r: seq<DestMatch>)
    requires i <= |text|
    ensures forall k :: 0 <= k < |r| ==> i <= r[k].start < r[k].end <= |text|
    decreases |text| - i
  {
    match DestAt(text, i)
    case Some(m) => [m] + DestFindAll(text, m.end)
    case None => if i == |text| then [] else DestFindAll(text, i + 1)
  }

  /** Every reported match is what the pattern matches at its start. */
  lemma {:induction false} DestFindAllSound(text: string, i: nat)
    requires i <= |text|
    ensures forall k :: 0 <= k < |DestFindAll(text, i)| ==>
      DestAt(text, DestFindAll(text, i)[k].start) == Some(DestFindAll(text, i)[k])
    decreases |text| - i
  {
    match DestAt(text, i)
    case Some(m) =>
      DestFindAllSound(text, m.end);
      var rest := DestFindAll(text, m.end);
      var r := [m] + rest;
      assert DestFindAll(text, i) == r;
      forall k | 0 <= k < |r| ensures DestAt(text, r[k].start) == Some(r[k]) {
        if k > 0 { assert r[k] == rest[k - 1]; }
      }
    case None =>
      if i < |text| {
        DestFindAllSound(text, i + 1);
        assert DestFindAll(text, i) == DestFindAll(text, i + 1);
      }
  }

  /** The matches come left to right and do not overlap. */
  lemma {:induction false} DestFindAllOrdered(text: string, i: nat)
    requires i <= |text|
    ensures forall k :: 0 <= k < |DestFindAll(text, i)| - 1 ==>
      DestFindAll(text, i)[k].end <= DestFindAll(text, i)[k + 1].start
    decreases |text| - i
  {
    match DestAt(text, i)
    case Some(m) =>
      DestFindAllOrdered(text, m.end);
      var rest := DestFindAll(text, m.end);
      var r := [m] + rest;
      assert DestFindAll(text, i) == r;
      forall k | 0 <= k < |r| - 1 ensures r[k].end <= r[k + 1].start {
        if k == 0 {
          assert r[0] == m && r[1] == rest[0];
        } else {
          assert r[k] == rest[k - 1] && r[k + 1] == rest[k];
        }
      }
    case None =>
      if i < |text| {
        DestFindAllOrdered(text, i + 1);
        assert DestFindAll(text, i) == DestFindAll(text, i + 1);
      }
  }

  /** No match is missed: every position where the pattern could start
      lies inside a reported match. */
  lemma {:induction false} DestFindAllComplete(text: string, i: nat, p: nat)
    requires i <= p <= |text| && DestAt(text, p).Some?
    ensures exists m :: m in DestFindAll(text, i) && m.start <= p < m.end
    decreases |text| - i
  {
    match DestAt(text, i)
    case Some(m) =>
      if p < m.end {
        assert m in DestFindAll(text, i);
      } else {
        DestFindAllComplete(text, m.end, p);
        var x :| x in DestFindAll(text, m.end) && x.start <= p < x.end;
        assert x in DestFindAll(text, i);
      }
    case None =>
      assert i != p;
      DestFindAllComplete(text, i + 1, p);
  }

  /** `parse_destination_uri_components`: the `(kind, id)` pairs. */
  function DestinationComponents(text: string): (r: seq<(string, string)>)
    ensures |r| == |DestFindAll(text, 0)|
    ensures forall k :: 0 <= k < |r| ==> r[k] == (DestFindAll(text, 0)[k].kind, DestFindAll(text, 0)[k].id)
  {
    var ms := DestFindAll(text, 0);
    seq(|ms|, k requires 0 <= k < |ms| => (ms[k].kind, ms[k].id))
  }

  // ---------------------------------------------------------------------
  // Official Journal references:
  // OJ(No)?(?P<series>[CL])(?P<number>\d+),\d+(?P<year>\d{4}),?p(?P<page>\d+)

  datatype OjRef = OjRef(series: char, number: string, year: string, page: string)

  /** The pattern, matched at `i`. */
  function OjAt(text: string, i: nat): (r: Option<OjRef>)
    requires i <= |text|
    ensures r.Some? ==> r.value.series in {'C', 'L'}
    ensures r.Some? ==> r.value.number != [] && forall c :: c in r.value.number ==> IsDigit(c)
    ensures r.Some? ==> |r.value.year| == 4 && forall c :: c in r.value.year ==> IsDigit(c)
    ensures r.Some? ==> r.value.page != [] && forall c :: c in r.value.page ==> IsDigit(c)
  {
    if At(text, i, "OJ") then
      var j := if At(text, i + 2, "No") then i + 4 else i + 2;
      if j < |text| && (text[j] == 'C' || text[j] == 'L') then
        var ne := RunEnd(text, j + 1, Digit);
        if ne > j + 1 && ne < |text| && text[ne] == ',' then OjTail(text, j, ne) else None
      else None
    else None
  }

  /** The pattern after the comma that ends the number at `ne`. */
  function OjTail(text: string, j: nat, ne: nat): (r: Option<OjRef>)
    requires j + 1 < ne < |text|
    requires forall m :: j + 1 <= m < ne ==> IsDigit(text[m])
    ensures r.Some? ==> r.value.series == text[j] && r.value.number == text[j + 1..ne]
    ensures r.Some? ==> |r.value.year| == 4 && forall c :: c in r.value.year ==> IsDigit(c)
    ensures r.Some? ==> r.value.page != [] && forall c :: c in r.value.page ==> IsDigit(c)
  {
    var ye := RunEnd(text, ne + 1, Digit);
    if ye >= ne + 6 then
      var pp := if ye < |text| && text[ye] == ',' then ye + 1 else ye;
      if pp < |text| && text[pp] == 'p' then
        var pe := RunEnd(text, pp + 1, Digit);
        if pe > pp + 1 then
          Some(OjRef(text[j], text[j + 1..ne], text[ye - 4..ye], text[pp + 1..pe]))
        else None
      else None
    else None
  }

  /** Every match of the pattern at `i`, described by where its parts
      end, is what `OjAt` returns: `j` is the series letter (after an
      optional `No`), `ne` the comma after the number, `ye` the end of the
      digit run whose last four digits are the year, `pp` the `p` (after an
      optional comma) and `pe` the end of the page digits. */
  lemma OjComplete(text: string, i: nat, j: nat, ne: nat, ye: nat, pp: nat, pe: nat)
    requires At(text, i, "OJ")
    requires j == i + 2 || (j == i + 4 && At(text, i + 2, "No"))
    requires j < ne < ye <= pp < pe <= |text|
    requires text[j] == 'C' || text[j] == 'L'
    requires ne > j + 1 && text[ne] == ','
    requires forall m :: j + 1 <= m < ne ==> IsDigit(text[m])
    requires ye >= ne + 6 && forall m :: ne + 1 <= m < ye ==> IsDigit(text[m])
    requires pp == ye || (pp == ye + 1 && text[ye] == ',')
    requires text[pp] == 'p'
    requires pe > pp + 1 && forall m :: pp + 1 <= m < pe ==> IsDigit(text[m])
    requires pe < |text| ==> !IsDigit(text[pe])
    ensures OjAt(text, i) == Some(OjRef(text[j], text[j + 1..ne], text[ye - 4..ye], text[pp + 1..pe]))
  {
    if j == i + 2 {
      assert !At(text, i + 2, "No") by {
        if i + 4 <= |text| {
          assert text[i + 2..i + 4][0] == text[j];
        }
      }
    }
    assert !IsDigit(text[ne]);
    RunEndUnique(text, j + 1, Digit, ne);
    OjTailComplete(text, j, ne, ye, pp, pe);
  }

  /** The part of `OjComplete` after the number. */
  lemma OjTailComplete(text: string, j: nat, ne: nat, ye: nat, pp: nat, pe: nat)
    requires j + 1 < ne < ye <= pp < pe <= |text|
    requires text[ne] == ',' && forall m :: j + 1 <= m < ne ==> IsDigit(text[m])
    requires ye >= ne + 6 && forall m :: ne + 1 <= m < ye ==> IsDigit(text[m])
    requires pp == ye || (pp == ye + 1 && text[ye] == ',')
    requires text[pp] == 'p'
    requires pe > pp + 1 && forall m :: pp + 1 <= m < pe ==> IsDigit(text[m])
    requires pe < |text| ==> !IsDigit(text[pe])
    ensures OjTail(text, j, ne) == Some(OjRef(text[j], text[j + 1..ne], text[ye - 4..ye], text[pp + 1..pe]))
  {
    assert !IsDigit(text[ye]);
    RunEndUnique(text, ne + 1, Digit, ye);
    RunEndUnique(text, pp + 1, Digit, pe);
  }

  /** `oj_reference.search(text)`: where the leftmost match at or after
      `i` starts. */
  function OjSearchFrom(text: string, i: nat): (r: Option<nat>)
    requires i <= |text|
    ensures r.Some? ==> i <= r.value <= |text| && OjAt(text, r.value).Some?
    ensures forall y :: i <= y <= |text| && (r.None? || y < r.value) ==> OjAt(text, y).None?
    decreases |text| - i
  {
    if OjAt(text, i).Some? then Some(i)
    else if i == |text| then None
    else OjSearchFrom(text, i + 1)
  }

  /** `parse_oj_reference` */
  function ParseOjReference(text: string): Option<OjRef> {
    match OjSearchFrom(text, 0)
    case None => None
    case Some(x) => OjAt(text, x)
  }
}
