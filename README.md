# ActsETL structure recovery, modelled in Dafny

ActsETL turns Irish Acts published on the electronic Irish Statute Book
(eISB) into LegalDocML (Akoma Ntoso). An eISB section is a flat run of
`<p>` and `<table>` elements whose nesting is only implied by leading
markers such as `(1)`, `(a)`, `(iv)` and `(A)` and by layout integers in
their `class` attribute. This project models the part of the pipeline that
recovers the structure and proves what it does:

- `Patterns` (`patterns.dfy`): the regular expressions of
  `RegexPatternLibrary` as deterministic scanners over `seq<char>`, with
  lemmas that tie each scanner to the pattern it replaces (marker
  recognition, amendment instructions in priority order, destination
  components, Official Journal references). The library is character for
  character the same in `patterns.py` and `common.py`; the older copy in
  `eisb.py` differs only in the inline-substitution pattern
  (`LegacyInlineAt`).
- `Provisions` (`provisions.dfy`): the classifier of one eISB paragraph:
  the layout read from its `class`, the bold and italic normalisations, the
  leading marker, the paragraph-or-subparagraph rule, the eId snippets that
  follow the Akoma Ntoso naming convention, the `quoteend` rule and
  `parse_ojref`. A paragraph is a value here (its text, `class` and inline
  children one level deep).
- `Extraction` (`extract.dfy`): `extract_raw_provisions` and
  `make_container`, which build each provision's element in a document
  arena; every provision is proved to be the row the classifier describes.
- `Amendments` (`amendments.dfy`): `AmendmentParser`, a class whose fields
  are the state machine's (`IDLE`, `PARSING_INSTRUCTION`,
  `CONSUMING_CONTENT`, the `mod` counter, the records, the open block, the
  remembered instruction and the buffer), with a contract per transition of
  `process`. Its ghost invariant gives each record the counter its `mod`
  was made with, from which the recorded sources are distinct.
- `Sections` (`sections.dfy`): `process_amendments_and_build` (drop,
  forward, splice) and `parse_section`.
- `Structure` (`structure.dfy`): `locate_tag`, `append_subdiv`,
  `section_hierarchy` and `fix_headings` of `eisb_structure.py` on the
  document arena.
- `Modifications` (`activemods.dfy`): `build_active_modifications`, with a
  reader that gets the records back from the block it builds.
- `Legacy` (`legacy.dfy`): where the older copy in `eisb.py` differs: eId
  snippets that keep case, a layout reader that raises, two provisions for
  every paragraph with text, records without an index and inline mods
  placed by matching text.
- `AknUtils` and `TextMatch` (`aknutils.dfy`, `textmatch.dfy`): the
  helpers of `actsetl/akn/utils.py`: `date_suffix`, `eli_uri_fragment`,
  `pop_styles`, `active_mods` and `TextMatchWrapper`.
- Support modules: `Wrappers` (`Option`, `Result`), `Text` (the Python string
  operations the source uses: `strip`, `split`, `find`, `lower`, `int`,
  decimal printing) and `DocTree` (`DocTree.Doc`, an arena of lxml
  elements: tag, attributes, text, tail, parent and children, kept acyclic
  by a ghost rank; `append`, `insert`, `remove`, `find`, `getnext`,
  `getprevious` and `iter()` order are methods and functions on it, and
  appending an ancestor fails as lxml's ValueError does).

Python exceptions the code can raise on the inputs it accepts are modelled
as `Failure` results naming the exception: `AttributeError` for an element
that is `None`, `TypeError` for appending `None`, `ValueError` for a missing
section number or title and for lxml's refusal to make a cycle, `KeyError`
for a missing attribute, `IndexError` in `date_suffix`.

Where the system's documentation and the code disagree the model follows
the code:

- the documentation classifies `(i)` at margin 17 after paragraph `(h)` as
  a paragraph; in the code a margin of 17 always gives `subparagraph`;
- the documentation raises the "after h, u, w" flag for the identifiers
  `h`, `u` and `w`; the code compares the whole marker (`(h)`) with `huw`,
  so the flag never rises. `Provisions.MarkerIsNotHuw` and
  `Provisions.NodeRowsKeepHuwDown` prove this, and the model keeps it.

## Model

| member | source | states |
|---|---|---|
| Patterns.BodyRunIsBody | actsetl/parsers/patterns.py:43-46 | the run a scanner takes for a marker body is of the body class of that marker kind |
| Patterns.MatchMarker | actsetl/parsers/patterns.py:43-46 | a match of a marker pattern is anchored at the start after at most one blank, and `group(1)` is exactly the text between that point and `match.end()`, starting at `(` after an optional curly quote |
| Patterns.MarkerScanned | actsetl/parsers/patterns.py:43-46 | what the scanner checks is what the pattern demands: optional space, optional curly quote, `(`, a body of the right class, `)` |
| Patterns.MarkerComplete | actsetl/parsers/patterns.py:43-46 | any way the pattern can match is the match the scanner reports, so `None` comes back exactly when the pattern does not match |
| Patterns.MarkerGeometry | actsetl/parsers/patterns.py:43-46 | where a match puts its space, its quote, its brackets and its body |
| Patterns.BodyRunEnds | actsetl/parsers/patterns.py:43-46 | a body followed by `)` is exactly the maximal run the scanner takes |
| Patterns.MatchProvisionType | actsetl/parsers/patterns.py:100-121 | subsection, paragraph, clause, subclause are tried in that order: the result is the first kind whose pattern matches, every earlier kind fails, and `None` exactly when no pattern matches; the same for the identical copy at `common.py:135-156` |
| Patterns.RomanMarkersAreClauses | actsetl/parsers/patterns.py:113-119 | a marker of `I`, `V` and `X` only is classified as a clause, never as a subclause |
| Patterns.SubclauseHasNonRoman | actsetl/parsers/patterns.py:113-119 | a marker classified as subclause holds a capital letter other than `I`, `V`, `X` |
| Patterns.LastSep | actsetl/parsers/patterns.py:15-22 | the last occurrence (ASCII case ignored) of the separator that still leaves a character before the end of the line, or that there is none |
| Patterns.GreedyAt | actsetl/parsers/patterns.py:15-22 | the greedy `PREFIX .* SEP (.+)` patterns match at a position exactly when the prefix is there and a split exists, and the group runs from the last usable separator to the end of the line |
| Patterns.GreedySearchFrom | actsetl/parsers/patterns.py:67-80 | `search` finds the leftmost position where the greedy pattern matches, and no earlier one |
| Patterns.LiteralEnd | actsetl/parsers/patterns.py:27-29 | a literal of the inline pattern as written: a quote, an optional second quote, a non-empty run of other characters, `'`, and a final quote that is required only for the old text |
| Patterns.LiteralEndComplete | actsetl/parsers/patterns.py:27-29 | every literal of that shape at a position is the one the scanner finds, the optional final quote being taken whenever the text has it |
| Patterns.InlineAt | actsetl/parsers/patterns.py:27-29 | an inline-substitution match is the prefix, a new literal, ` for `, and an old literal of that shape, in that order; the same pattern as `common.py:62-64` |
| Patterns.InlineComplete | actsetl/parsers/patterns.py:27-29 | any two literals of that shape in place after the prefix and around ` for ` are exactly the groups the scanner returns, so `None` means no match |
| Patterns.LegacyInlineAt | actsetl/parsers/eisb.py:67-69 | the older inline pattern: prefix, a quote, a non-empty run of other characters, a quote, ` for `, and the same again |
| Patterns.LegacyLiteralEnd | actsetl/parsers/eisb.py:67-69 | a literal of the older pattern: quote, non-quote run, quote |
| Patterns.LegacyLiteralEndComplete | actsetl/parsers/eisb.py:67-69 | every literal of the older shape at a position is the one found |
| Patterns.LegacyInlineComplete | actsetl/parsers/eisb.py:67-69 | any two older-shape literals in place are exactly the groups the scanner returns |
| Patterns.InlineSearchFrom | actsetl/parsers/patterns.py:55 | `search` finds the leftmost inline match of the chosen copy, and no earlier one |
| Patterns.FindDefinitions | actsetl/parsers/patterns.py:23-26 | true exactly when the definitions phrase occurs (ASCII case ignored) |
| Patterns.MatchAmendmentInstruction | actsetl/parsers/patterns.py:48-90 | the new and old texts of an inline answer start and end with no straight quote, the destination of a general substitution or an insertion-after never starts or ends with `:`, and the definitions answer comes only when the phrase occurs; the same for `common.py:83-125` and `eisb.py:88-130` |
| Patterns.InstructionPriority | actsetl/parsers/patterns.py:48-90 | inline, general substitution, insertion after, definitions, in that order: each kind of answer exactly when the earlier alternatives fail and its own pattern matches, `None` exactly when all fail; the inline answer is the leftmost match's two groups stripped of straight quotes, the other two the greedy group stripped of `:`; the same for the copies at `common.py:83-125` and `eisb.py:88-130`, the latter with its own inline pattern |
| Patterns.DestAt | actsetl/parsers/patterns.py:32-34 | a destination match is `section`, `subsect` or `paragraph`, one blank and a maximal non-empty run of word characters, which is the id; the same, case-sensitive, for the copy at `common.py:67-69` |
| Patterns.DestFindAllSound | actsetl/parsers/patterns.py:92-94 | every match `findall` reports is what the pattern matches at its start |
| Patterns.DestFindAllOrdered | actsetl/parsers/patterns.py:92-94 | the matches come left to right and do not overlap |
| Patterns.DestFindAllComplete | actsetl/parsers/patterns.py:92-94 | no match is missed: every position where the pattern matches lies inside a reported match |
| Patterns.DestinationComponents | actsetl/parsers/patterns.py:92-94 | the `(kind, id)` pairs of the reported matches, in order |
| Patterns.OjAt | actsetl/parsers/patterns.py:37-39 | an Official Journal reference has series `C` or `L`, a non-empty digit number, a four-digit year and a non-empty digit page |
| Patterns.OjComplete | actsetl/parsers/patterns.py:37-39 | any way the pattern matches at a position (optional `No`, number, comma, digits whose last four are the year, optional comma, `p`, page) is the reference the scanner returns, parts and all |
| Patterns.OjSearchFrom | actsetl/parsers/patterns.py:96-98 | `search` finds the leftmost reference, and no earlier one |
| Provisions.GetTextLayout | actsetl/parsers/eisb_provisions.py:187-203 | six blank-separated tokens whose first two `int()` reads give those two integers and the fourth token; anything else (another token count, or a first or second token `int()` refuses) gives the defaults `(0, 0, "left")`; it never fails |
| Provisions.LayoutRoundTrip | actsetl/parsers/eisb_provisions.py:187-203 | a class written as two integers (`str()` of any sign) and four tokens reads back as those integers and the fourth token |
| Provisions.EIdFilter | actsetl/parsers/eisb_provisions.py:525 | the filtered number holds only characters the naming convention allows |
| Provisions.MakeEIdSnippet | actsetl/parsers/eisb_provisions.py:512-526 | the label verbatim, `_`, then the filtered number, which holds only ASCII lower-case letters, digits, `-` and `_` |
| Provisions.EIdFilterKeeps | actsetl/parsers/eisb_provisions.py:525 | a number already written in allowed characters is kept as it is |
| Provisions.EIdFilterIdempotent | actsetl/parsers/eisb_provisions.py:525 | filtering twice is filtering once |
| Provisions.EIdFilterMembers | actsetl/parsers/eisb_provisions.py:504-509 | a character reaches the eId exactly when it is the lower-cased form of a valid character of the number |
| Provisions.EIdExamples | actsetl/parsers/eisb_provisions.py:512-526 | `(1A)` gives `subsect_1a`, `A` gives `para_a`, `71A` gives `sect_71a` |
| Provisions.FindInline | actsetl/parsers/eisb_provisions.py:222 | `node.find(t)`: the first inline child with that tag, or none when no child has it |
| Provisions.StripRunText | actsetl/parsers/eisb_provisions.py:232 | stripping elements keeps the flattened text of the run minus the stripped children's own text |
| Provisions.StripInlinesText | actsetl/parsers/eisb_provisions.py:232 | `strip_elements(node, 'b', with_tail=False)` keeps the node's flattened text minus the text of the `<b>` children |
| Provisions.NormaliseItalic | actsetl/parsers/eisb_provisions.py:221-226 | the node changes only when its text is a lone `(` and it has an `<i>` child; tag and class are kept |
| Provisions.ItalicFirstKeepsText | actsetl/parsers/eisb_provisions.py:221-226 | when the `<i>` is the first child, folding it into the text keeps the flattened text |
| Provisions.StripBold | actsetl/parsers/eisb_provisions.py:228-240 | a section number is reported only when a `<b>` child exists, and then no `<b>` child is left |
| Provisions.IdentifyProvision | actsetl/parsers/eisb_provisions.py:205-267 | the italic step, then the bold step, then the leading marker, which overrides the bold number; tag and class of the node are kept |
| Provisions.MarkerSplit | actsetl/parsers/eisb_provisions.py:244-265 | the text left after a marker is what followed the marker group, with at most one blank before the group |
| Provisions.IdentifyTags | actsetl/parsers/eisb_provisions.py:205-267 | the reported tag is one of `tblock`, `section`, `subsection`, `paragraph`, `clause`, `subclause` |
| Provisions.AlnumOnly | actsetl/parsers/eisb_provisions.py:316 | only alphanumeric characters are kept |
| Provisions.ParagraphTag | actsetl/parsers/eisb_provisions.py:314-323 | margin 14 gives `paragraph`; otherwise `subparagraph` exactly when the first alphanumeric character, lower-cased, is i, v or x and the margin is 17 or the flag is down |
| Provisions.MarkerIsNotHuw | actsetl/parsers/eisb_provisions.py:326 | a marker group is never `huw`, so the flag is never raised |
| Provisions.RomanIsSubparagraph | actsetl/parsers/eisb_provisions.py:319-320 | with the flag down, away from margin 14 a roman first letter means `subparagraph`, in both directions |
| Provisions.LastTwo | actsetl/parsers/eisb_provisions.py:342 | `text[-2:]`: the last two characters, or the whole text when shorter |
| Provisions.Decide | actsetl/parsers/eisb_provisions.py:299-332 | a structural row exactly when a marker or a section number was found, carrying the paragraph's layout and text; it is inserted exactly when the reported tag is `section` and hang + margin exceeds 8, and is then a `section` with eId `sect_…` of the bold number; a lower-case marker takes the tag `Provisions.ParagraphTag` gives (the margin-14/17 rule), the eId `para_…` or `subpara_…` to match, and sets the flag exactly for `huw`; any other tag is kept with its eId and leaves the flag alone |
| Provisions.StructuralRows | actsetl/parsers/eisb_provisions.py:329-332 | at most one structural row, none exactly when the tag is `tblock` |
| Provisions.StructuralTags | actsetl/parsers/eisb_provisions.py:329-331 | a structural row is never a `tblock`, `table` or `quoteend` |
| Provisions.QuoteRows | actsetl/parsers/eisb_provisions.py:339-343 | a `quoteend` row exactly when the text ends with ” and has more ” than “; it carries the last two characters and no element |
| Provisions.Classify | actsetl/parsers/eisb_provisions.py:298-343 | the rows of a paragraph with text are those its decision and the node left by the classifier give; a structural row carries a fresh container |
| Provisions.SingleRow | actsetl/parsers/eisb_provisions.py:284-296 | a table or a paragraph without text is exactly one provision, `table` or `tblock` |
| Provisions.NodeRowsShape | actsetl/parsers/eisb_provisions.py:298-343 | any other paragraph is at most one structural provision, exactly one `tblock`, then the `quoteend` rows; the flag passed on is the decision's |
| Provisions.NodeRowsKeepHuwDown | actsetl/parsers/eisb_provisions.py:326 | starting with the flag down, a node never raises it |
| Provisions.ParseOjref | actsetl/parsers/eisb_provisions.py:437-447 | the empty string exactly when the reference, dots and blanks removed, has no match; otherwise a EUR-Lex `uriserv:OJ.` URI that reads back as the found reference's series, year, number and page; the same for the copy at `eisb.py:309-319` |
| Provisions.OjUriRead | actsetl/parsers/eisb_provisions.py:445-446 | the URI built from a reference, `{series}_.{year}.{number:03d}.01.{page:04d}.01.ENG` after the prefix, reads back as its series, year, number and page |
| Text.ParseSignedRoundTrip | actsetl/parsers/eisb_provisions.py:196-197 | `int(str(i)) == i` for every integer, sign included |
| Text.ZeroPadValue | actsetl/parsers/eisb_provisions.py:445-446 | a number padded with zeros to a width reads back as the number |
| Extraction.SafeAttribs | actsetl/parsers/eisb_provisions.py:489-497 | exactly the attributes whose value is not `None` are kept, with their values |
| Extraction.ParseP | actsetl/parsers/eisb_provisions.py:449-483 | a fresh `<p>` with the paragraph's text; nothing else changes |
| Extraction.ParseTable | actsetl/parsers/eisb_provisions.py:528-556 | a fresh `table` element; nothing else changes |
| Extraction.MakeNum | actsetl/parsers/eisb_provisions.py:500-501 | `E.num(num)`: a fresh parentless `num` holding the text or the given element as its only child |
| Extraction.MakeContainer | actsetl/parsers/eisb_provisions.py:485-502 | a fresh element with the safe attributes, then the heading, if any, then a `num` holding `num`, if any, as its children in that order |
| Extraction.BuildContainer | actsetl/parsers/eisb_provisions.py:329-332 | the container a structural row describes, with its `num` and eId |
| Extraction.EmitSingle | actsetl/parsers/eisb_provisions.py:284-296 | a table or text-less paragraph becomes the one provision its row describes, with the given `idx` |
| Extraction.EmitParagraph | actsetl/parsers/eisb_provisions.py:298-343 | a paragraph with text becomes the provisions of its rows, numbered from the given `idx`, each element new |
| Extraction.EmitNode | actsetl/parsers/eisb_provisions.py:280-343 | one node gives the provisions of `NodeRows`, numbered consecutively, and the next flag |
| Extraction.PTableChildren | actsetl/parsers/eisb_provisions.py:276 | every selected child is a `<p>` or a `<table>` child of the section, and every such child is selected |
| Extraction.PTableChildrenCount | actsetl/parsers/eisb_provisions.py:276 | each `<p>` or `<table>` child is selected exactly as often as it occurs, any other never |
| Extraction.PTableChildrenAppend | actsetl/parsers/eisb_provisions.py:276 | the selection keeps document order: selecting from two runs of children one after the other is selecting from each in turn |
| Extraction.PTableChildrenAll | actsetl/parsers/eisb_provisions.py:276 | a run made only of `<p>` and `<table>` children is selected whole, in order |
| Extraction.ExtractRawProvisions | actsetl/parsers/eisb_provisions.py:269-345 | every node's provisions in order, realising the rows of all nodes, with `idx` 0, 1, 2, ... and every element new |
| Extraction.ExtractNodes | actsetl/parsers/eisb_provisions.py:280-345 | the loop over the nodes: the provisions of all nodes' rows in order, numbered 0, 1, 2, ..., every element new |
| Amendments.ModEIdInjective | actsetl/parsers/eisb_provisions.py:125 | two mod eIds of one section are equal only when their counters are |
| Amendments.UriParts | actsetl/parsers/eisb_provisions.py:81 | one `kind_id` piece per component, in order |
| Amendments.DestinationUri | actsetl/parsers/eisb_provisions.py:72-82 | the principal act's URI when no component is found; otherwise that URI, `/`, and the pieces joined by `__` |
| Amendments.DropOpeningQuote | actsetl/parsers/eisb_provisions.py:138-139 | a text starting with “ loses that one character; any other text is kept |
| Amendments.NewMod | actsetl/parsers/eisb_provisions.py:103-106 | a fresh `mod` with the eId whose only child is a fresh element with the given attributes and text; old elements unchanged |
| Amendments.NewBlock | actsetl/parsers/eisb_provisions.py:168 | a fresh `block` named `quotedStructure` whose only child is the mod |
| Amendments.AppendAll | actsetl/parsers/eisb_provisions.py:155-159 | the buffered elements become children of the `div`, in order; a provision without an element is a TypeError |
| Amendments.MoveChildren | actsetl/parsers/eisb_provisions.py:165-166 | the children of one element move under another, or lxml's ValueError when that would make a cycle |
| Amendments.AmendmentParser.constructor | actsetl/parsers/eisb_provisions.py:54-63 | IDLE, counter 1, no records, no block, no details, empty buffer |
| Amendments.AmendmentParser.SourcesDistinct | actsetl/parsers/eisb_provisions.py:84-181 | the recorded source eIds are pairwise distinct |
| Amendments.AmendmentParser.Process | actsetl/parsers/eisb_provisions.py:84-181 | the transition of each state, as the three steps below state, and the invariant that ties records to counters; a success reports the kind of status and leaves the state that `Control` gives, and a handed-back provision is the one given |
| Amendments.TracedIdle | actsetl/parsers/eisb_provisions.py:96-99 | a parser that starts IDLE and meets no instruction in any text stays IDLE and hands every provision back |
| Amendments.AmendmentParser.ProcessIdle | actsetl/parsers/eisb_provisions.py:96-119 | no instruction: handed back, nothing changes; a block instruction: consumed, remembered, counter and records unchanged; inline: a `mod` with eId `<section>_mod_<counter>`, one substitution record with old and new text, the next counter, back in IDLE |
| Amendments.AmendmentParser.CompleteInline | actsetl/parsers/eisb_provisions.py:101-116 | the inline `mod` holding a `quotedText` of the new text, its record, and the next counter |
| Amendments.AmendmentParser.ProcessParsing | actsetl/parsers/eisb_provisions.py:121-144 | a provision that does not open a quotation is consumed and nothing changes; one that does opens the block |
| Amendments.AmendmentParser.OpenQuote | actsetl/parsers/eisb_provisions.py:123-142 | CONSUMING_CONTENT, one record with the remembered type and position and no texts, a fresh mod with an empty `quotedStructure`, the element's text without its “, the provision buffered; without an element an AttributeError |
| Amendments.AmendmentParser.OpenBlock | actsetl/parsers/eisb_provisions.py:125-136 | the block's mod and its record, counter unchanged |
| Amendments.AmendmentParser.BufferFirst | actsetl/parsers/eisb_provisions.py:138-140 | the opening “ leaves the element's text and the provision joins the buffer |
| Amendments.AmendmentParser.QuoteEnd | actsetl/parsers/eisb_provisions.py:147-175 | on success a `block` wrapping the open mod, IDLE, the next counter, records kept, buffer and details cleared |
| Amendments.AmendmentParser.CloseBlock | actsetl/parsers/eisb_provisions.py:148-168 | in the present copy: the `quotedStructure`, when present, gets the `endQuote` of the text and loses no children, success exactly when it is absent or every buffered provision has an element; on success the mod is wrapped in a new `block` |
| Amendments.AmendmentParser.EndBlock | actsetl/parsers/eisb_provisions.py:170-174 | back to IDLE with the next counter, the records kept, block, buffer and details cleared, and the parser still consistent |
| Amendments.AmendmentParser.CloseQuote | actsetl/parsers/eisb_provisions.py:148-166 | `endQuote` is set to the `quoteend` text, or ” when it has none; the `quotedStructure` gains no child |
| Amendments.AmendmentParser.FillQuote | actsetl/parsers/eisb_provisions.py:151-166 | the buffered elements go under a throw-away `div` (TypeError for one without an element) and the `quotedStructure` gains no child |
| Sections.OutputIdxWithin | actsetl/parsers/eisb_provisions.py:357-393 | every emitted provision carries the `idx` of a raw one, so bounds on those hold for the output |
| Sections.OutputKeepsOrder | actsetl/parsers/eisb_provisions.py:357-393 | when the raw `idx` increase, so do the emitted ones |
| Sections.OutputAllIdle | actsetl/parsers/eisb_provisions.py:386-391 | with every provision handed back the output is the input |
| Sections.OutputLength | actsetl/parsers/eisb_provisions.py:357-393 | at most one emitted provision per raw provision |
| Sections.LastHost | actsetl/parsers/eisb_provisions.py:369-372 | the most recent processed provision with an element: it has one and none after it does; none when no provision has one |
| Sections.FreshModNotAbove | actsetl/parsers/eisb_provisions.py:372-376 | a freshly made inline mod is an ancestor of no processed element, so lxml never refuses to append it there |
| Sections.AttachInline | actsetl/parsers/eisb_provisions.py:367-385 | the mod goes under the element of the latest processed provision that takes it, as its last child; a refused append moves the search on; not placed only when none takes it; for a fresh mod it is placed exactly when some processed provision has an element, under the latest such |
| Sections.DriveOne | actsetl/parsers/eisb_provisions.py:358-391 | one provision: dropped when consumed, forwarded when handed back, a `mod_block` with its `idx` for a completed block; an inline mod is attached, under the element of the latest processed provision that has one, exactly when there is such a provision, and emitted as a fallback `mod_block` otherwise; the status is the one `Control` gives |
| Sections.Place | actsetl/parsers/eisb_provisions.py:360-391 | the output for one status joins the processed provisions, every element named lies in the document, and a fresh inline mod is attached, under the latest processed element, exactly when there is one |
| Sections.ProcessAmendmentsAndBuild | actsetl/parsers/eisb_provisions.py:347-393 | on success the parser went through the traced states from the one it started in, reporting for each provision the kind of status `Control` gives; handed-back provisions are the ones given; an inline mod was attached exactly when an earlier emitted provision had an element; the output is what the driver emits for those statuses and the records are the parser's |
| Sections.NothingToParse | actsetl/parsers/eisb_provisions.py:386-391 | a run from IDLE over texts without any instruction hands the provisions back unchanged |
| Sections.MakeHeading | actsetl/parsers/eisb_provisions.py:410-411 | a fresh element tagged `heading` with the title's text |
| Sections.MakeBold | actsetl/parsers/eisb_provisions.py:414 | `E.b(snumber)`: a fresh `b` element with the number as text |
| Sections.MakeSection | actsetl/parsers/eisb_provisions.py:413-414 | the section container with its eId, heading and `num` holding the `b` |
| Sections.ParseSection | actsetl/parsers/eisb_provisions.py:395-434 | a missing number or `title/p` fails (the ValueError) and changes nothing; otherwise the section's container heads the list and the raw provisions realise the rows of the `<p>` and `<table>` children; the rest is the driver's output over them for a run traced from IDLE, in `idx` order, and the recorded sources are distinct |
| Sections.OrderOfSection | actsetl/parsers/eisb_provisions.py:426-432 | the head's `idx` -1 and the output's `idx` increase together |
| Structure.AllowedParents | actsetl/parsers/eisb_structure.py:86-98 | the allowed parent tags for each level, and all eight levels for any other tag |
| Structure.NearestSpec | actsetl/parsers/eisb_structure.py:33-46 | the element found lies on the chain from the start up and has an allowed tag, none below it on the chain does, and nothing found means no element of the chain does |
| Structure.LocateTag | actsetl/parsers/eisb_structure.py:33-46 | `None` for no start, otherwise the nearest element of the chain with a tag in the list; the tree is not modified |
| Structure.AppendSubdiv | actsetl/parsers/eisb_structure.py:48-62 | ValueError for no container; an element missing or a cycle refused are failures; otherwise the eId is the container's eId (or `None`), `_` and the snippet when the snippet is non-empty, the element is the last child, and only the sibling just before it, if `content`, becomes `intro` |
| Structure.AppendRetag | actsetl/parsers/eisb_structure.py:57-61 | the tree part: last child, and the `content` before it renamed |
| Structure.ContentOf | actsetl/parsers/eisb_structure.py:74-77 | the first `content` child, or a new empty one appended when there is none |
| Structure.PlaceContent | actsetl/parsers/eisb_structure.py:73-84 | a `mod_block`, `tblock` or `table` goes last into the parent's `content`; the current parent stays |
| Structure.PutLast | actsetl/parsers/eisb_structure.py:78 | `append`: fails exactly when the element is an ancestor of the parent; otherwise it is the parent's last child, no other element changes parent and no tag changes |
| Structure.PlaceStructural | actsetl/parsers/eisb_structure.py:100-101 | any other provision goes, as its last child, under `locate_tag(parent, tags) or sectionparent` (a childless element counting as false), and becomes the current parent; failure exactly when there is no container, no element or a cycle; only `content` to `intro` renames happen |
| Structure.PlaceIn | actsetl/parsers/eisb_structure.py:48-62 | `append_subdiv` under a chosen container: the element becomes its last child, only the element changes parent, and the only rename is `content` to `intro` |
| Structure.SectionHierarchy | actsetl/parsers/eisb_structure.py:64-102 | `None` and no change for an empty list; a one-provision list gives its element and changes nothing; otherwise a success is the first provision's element, every later provision has an element, and, when the elements are distinct and none is a `content`, every later provision is settled where its step put it: a content provision in a `content` or `intro` child of its current parent (the last structural provision before it, or the section), a structural one under the section or under an element whose tag may hold it; when moreover every provision's element starts without a parent, each structural provision is `Located`: its parent is the nearest element, from its current parent up, whose tag may hold it, or the section when there is none or that element is a current parent left without children; the same for the copy at `eisb.py:570-606` |
| Structure.StepSettles | actsetl/parsers/eisb_structure.py:73-101 | the provision a step places is settled, and the ones placed before stay settled |
| Structure.NearestKept | actsetl/parsers/eisb_structure.py:33-46 | `locate_tag` gives the same element in two trees whose parent links and tag classes agree on the chain above the start |
| Structure.StepPlaces | actsetl/parsers/eisb_structure.py:72-101 | one turn of the loop keeps its invariant: the section and the provisions to come are parentless, those to come keep their first children, every placed provision hangs below the section, and every placed structural one is located |
| Structure.LocatedNew | actsetl/parsers/eisb_structure.py:85-101 | a structural provision placed by `locate_tag(parent, tags) or sectionparent` hangs under the nearest allowed element above its current parent, or the section when there is none or it is childless |
| Structure.LocatedKept | actsetl/parsers/eisb_structure.py:72-101 | a later step, which moves only a parentless element not above any placed provision, leaves every located provision located |
| Structure.Style | actsetl/parsers/eisb_structure.py:114 | `attrib.get('style', '')` |
| Structure.HeadingGuard | actsetl/parsers/eisb_structure.py:111-114 | the position of the first `num`, the `content` or `intro` right after it and its first `p`, exactly when that `p` is centred |
| Structure.MisplacedFrame | actsetl/parsers/eisb_structure.py:112-114 | the guard depends only on the element's children, their tags and children, and their tags |
| Structure.FixHeading | actsetl/parsers/eisb_structure.py:111-119 | it fixes exactly when the guard held; then the `p` is renamed `heading` and becomes the child right after `num`, and its container loses it and is removed if left empty; attributes, texts and tails never change, only the element's children and grandchildren are touched; afterwards the guard fails; no fix, no change |
| Structure.ApplyFix | actsetl/parsers/eisb_structure.py:115-119 | the same fix once the guard has found `num`, the container and its `p` |
| Structure.RelocateHeading | actsetl/parsers/eisb_structure.py:115-119 | the move, then the removal of an emptied container |
| Structure.MoveHeading | actsetl/parsers/eisb_structure.py:115-117 | the `p` is renamed `heading` and becomes the child just before its old container |
| Structure.HeadingAfterNum | actsetl/parsers/eisb_structure.py:112-117 | after the move the element after `num` is the `heading` |
| Structure.Unqualified | actsetl/parsers/eisb_structure.py:112-117 | after the move the guard fails, so a second pass changes nothing |
| Structure.StaysFixed | actsetl/parsers/eisb_structure.py:110-120 | fixing one visited element leaves the guard of every other visited element as it was |
| Structure.StaysHosted | actsetl/parsers/eisb_structure.py:110-120 | every visited element stays a `part`, `chapter` or `hcontainer` directly inside a `quotedStructure` |
| Structure.PassStep | actsetl/parsers/eisb_structure.py:110-120 | one turn of the loop keeps its invariant: none of the elements visited so far has a misplaced heading |
| Structure.Select | actsetl/parsers/eisb_structure.py:110 | the candidates among the given elements, in order |
| Structure.InBodies | actsetl/parsers/eisb_structure.py:110 | the elements the path selects below the `body` children, in document order |
| Structure.Candidates | actsetl/parsers/eisb_structure.py:110 | the elements `fix_headings` visits, each a `part`, `chapter` or `hcontainer` directly inside a `quotedStructure`, in document order |
| Structure.FixHeadings | actsetl/parsers/eisb_structure.py:106-120 | afterwards no visited element has a misplaced heading; elements outside the visited ones and their children keep their children, only `p` grandchildren of visited elements are renamed `heading` and move up to them, only their containers are detached; attributes, texts and tails never change; when no visited element qualified nothing changed; the same for the copy at `eisb.py:705-716` |
| Structure.FixAll | actsetl/parsers/eisb_structure.py:110-120 | the loop over the visited elements: the same, for any list of hosted elements |
| Structure.FixComposes | actsetl/parsers/eisb_structure.py:110-120 | the change of one more fix extends the change of the earlier fixes by that element |
| Modifications.TextualMod | actsetl/parsers/eisb_structure.py:207-213 | a `textualMod` with the type, a `source` and a `destination` with the hrefs, `pos` only when the position is non-empty, `old` and `new` only when non-empty |
| Modifications.Mods | actsetl/parsers/eisb_structure.py:206-214 | one `textualMod` per record, in order |
| Modifications.BuildActiveModifications | actsetl/parsers/eisb_structure.py:201-215 | an `activeModifications` element whose children are the `textualMod`s of the records; the same for the copy at `eisb.py:718-733` |
| Modifications.ReadTextualMod | actsetl/parsers/eisb_structure.py:207-213 | a `textualMod` reads back as its record, up to the empty strings that are not written |
| Modifications.WrittenAll | actsetl/parsers/eisb_structure.py:210-213 | the records as written, one per record |
| Modifications.ReadBuild | actsetl/parsers/eisb_structure.py:201-215 | reading the block back gives the records in input order, up to the empty strings that are not written |
| Modifications.ReadModsOf | actsetl/parsers/eisb_structure.py:206-214 | the same for the list of `textualMod`s |
| Legacy.LegacyEIdSnippet | actsetl/parsers/eisb.py:374-378 | the label, `_`, and the alphanumeric characters of the number with their case |
| Legacy.LegacyEIdExample | actsetl/parsers/eisb.py:374-378 | `(1A)` gives `subsect_1A` |
| Legacy.EIdFiltersAgree | actsetl/parsers/eisb.py:378 | on numbers without `-` and `_` the current filter is the legacy one lower-cased |
| Legacy.EIdSnippetsAgree | actsetl/parsers/eisb.py:374-378 | the same for the whole snippet |
| Legacy.LegacyLayout | actsetl/parsers/eisb.py:436-437 | a missing class is an AttributeError; six single-blank pieces give `int()` of the first two (ValueError when refused) and the fourth; any other count the defaults |
| Legacy.LegacyLayoutRoundTrip | actsetl/parsers/eisb.py:436-437 | on six blank-free tokens joined by single blanks the legacy and current readers agree |
| Legacy.LegacyLayoutRaises | actsetl/parsers/eisb.py:436-437 | a class of letters: the current reader gives the defaults, the legacy one raises |
| Legacy.LegacyBold | actsetl/parsers/eisb.py:452-459 | the `<b>` children are stripped exactly when the first one has a tail; the paragraph becomes an inserted section exactly when that is so and hang + margin exceeds 8, numbered by the stripped text of that `<b>` with eId `sect_…`; otherwise the defaults |
| Legacy.BoldStepsAgree | actsetl/parsers/eisb.py:452-459 | both copies leave the same node after the bold step |
| Legacy.LegacyParagraphTag | actsetl/parsers/eisb.py:477-485 | `paragraph` or `subparagraph`; `subparagraph` exactly when the margin is not 14, the first alphanumeric character is one of i, v, x as it stands (no lower-casing), and the margin is 17 or the flag is down |
| Legacy.ParagraphTagsAgree | actsetl/parsers/eisb.py:477-485 | on markers the paragraph pattern accepts the two rules agree |
| Legacy.MarkerNotInHuw | actsetl/parsers/eisb.py:488 | a marker is never a substring of `huw`, so the flag never rises |
| Legacy.LegacyParagraphMeta | actsetl/parsers/eisb.py:477-488 | a paragraph marker's number, the tag of the margin-14/17 rule (`Provisions.ParagraphTag`, which the legacy test agrees with on such markers) and the eId `para_…` or `subpara_…` to match; the inserted flag is kept |
| Legacy.LegacyMarker | actsetl/parsers/eisb.py:462-498 | the marker kind gives the tag, the group the number and the legacy eId; a paragraph marker takes the tag of the margin-14/17 rule (`Provisions.ParagraphTag`) with the eId `para_…` or `subpara_…` to match and lowers the flag, any other marker keeps the flag; the text loses the marker and the blanks after it |
| Legacy.LegacyIdentify | actsetl/parsers/eisb.py:451-498 | the legacy classification with the italic combining done first (see Findings); it keeps the node's tag and class |
| Legacy.LegacyMarkerAsWritten | actsetl/parsers/eisb.py:462-498 | the marker step as written, with the combining inside the paragraph branch: it keeps the inserted flag, the node's tag and class; no marker leaves meta, node and flag as they were; the `huw` flag never rises |
| Legacy.LegacyIdentifyAsWritten | actsetl/parsers/eisb.py:452-498 | the bold step then the marker step as written: the node keeps its tag and class, and on any node the italic combining would leave alone the result is that of the corrected `Legacy.LegacyIdentify` |
| Legacy.ItalicStepIsDead | actsetl/parsers/eisb.py:469-476 | as written, the italic combining never changes the outcome |
| Legacy.LegacyIdentifyAgrees | actsetl/parsers/eisb.py:451-498 | with the combining first, the legacy copy leaves the same node as the current classifier and finds the same number |
| Legacy.ItalicExampleDiffers | actsetl/parsers/eisb.py:469-476 | `(<i>a</i>) text` is a `tblock` as written and paragraph `(a)` with the combining first |
| Legacy.ItalicExampleAsWritten | actsetl/parsers/eisb.py:469-476 | as written that paragraph gets no tag, number or eId |
| Legacy.ItalicExampleCombined | actsetl/parsers/eisb.py:469-476 | with the combining first it is paragraph `(a)` |
| Legacy.LoneParenHasNoMarker | actsetl/parsers/eisb.py:462 | a lone `(` matches no marker pattern |
| Legacy.LegacyParagraphRowsShape | actsetl/parsers/eisb.py:500-516 | the legacy rows of a paragraph always lead with a container of the classified tag holding the text, the `tblock` is the current one with the container's inserted flag, and the `quoteend` rows are those of the current copy |
| Legacy.LegacyNodeRows | actsetl/parsers/eisb.py:443-449 | a table or a paragraph without text is exactly one provision and leaves node and flag as they were; a paragraph with text is classified with the italic combining first (see Findings) |
| Legacy.LegacyRowsShape | actsetl/parsers/eisb.py:500-516 | every paragraph with text is exactly a container and a `tblock`, then a `quoteend` exactly when its text closes a quotation; inserted only for a bold number past the threshold |
| Legacy.LegacyHuwStaysDown | actsetl/parsers/eisb.py:488 | the legacy flag never rises |
| Legacy.LegacyAllRowsStep | actsetl/parsers/eisb.py:435-516 | one more readable node extends the rows by its own |
| Legacy.UnreadableBreaks | actsetl/parsers/eisb.py:436-437 | a node with an unreadable class makes the run unreadable |
| Legacy.LegacyEmitParagraph | actsetl/parsers/eisb.py:500-516 | the provisions of the paragraph's rows, without index, each element new |
| Legacy.LegacyEmitNode | actsetl/parsers/eisb.py:435-516 | the layout error of the node, or its provisions and the next flag |
| Legacy.LegacyExtractOne | actsetl/parsers/eisb.py:435-516 | one turn of the first pass keeps the provisions realising the rows so far |
| Legacy.LegacyExtract | actsetl/parsers/eisb.py:430-516 | the provisions of all nodes' rows, in order, or the first unreadable class's error |
| Legacy.LegacyExtractNodes | actsetl/parsers/eisb.py:435-516 | the loop over the nodes: fails exactly when some node is unreadable, else the provisions of all nodes' rows in order, every element new |
| Legacy.LegacyOutputIsAllPlaced | actsetl/parsers/eisb.py:521-538 | the legacy output is the current one with every inline mod counted as attached |
| Legacy.LegacyOutputWithoutInline | actsetl/parsers/eisb.py:521-538 | without inline mods the two drivers emit the same list |
| Legacy.LastWithText | actsetl/parsers/eisb.py:529-530 | the latest processed provision whose text equals the instruction's, or none |
| Legacy.PlaceByText | actsetl/parsers/eisb.py:527-536 | the mod goes under the element of that provision; no such provision is no error; one without an element an AttributeError; a cycle lxml's ValueError |
| Legacy.LegacyDriveOne | actsetl/parsers/eisb.py:521-538 | one turn of the legacy driver: drop, forward, `mod_block`, or placement by text |
| Legacy.LegacyPlace | actsetl/parsers/eisb.py:523-536 | the provisions after one status: a `mod_block` for a block, nothing for a consumed or inline one, the same provision when handed back; an inline mod ends up inside the element of the latest provision with the same text |
| Legacy.LegacyProcessAmendments | actsetl/parsers/eisb.py:518-540 | on success the parser went through the traced states, reporting for each provision the kind of status `Control` gives; handed-back provisions are the ones given; whenever an earlier emitted provision shares an inline instruction's text, the latest such has an element (the mod went there); the output after the section's provision is what the legacy driver emits |
| Legacy.LegacyNothingToParse | actsetl/parsers/eisb.py:521-538 | a run from IDLE over texts without any instruction hands the provisions back unchanged |
| Legacy.LegacyParseSection | actsetl/parsers/eisb.py:414-540 | a missing `number` or `title/p` fails (the AttributeError) and changes nothing; a paragraph whose layout cannot be read is a failure too; otherwise the section provision with the legacy eId heads the list, the raw provisions realise the legacy rows of the children, the rest is the legacy driver's output for a run traced from IDLE, and the sources recorded are distinct |
| AknUtils.DateSuffix | actsetl/akn/utils.py:88-102 | the decimal day and its suffix: `th` for 4-20 and 24-30, otherwise the list entry at `day % 10 - 1` with Python's negative index, IndexError past its end |
| AknUtils.DateSuffixOrdinal | actsetl/akn/utils.py:88-102 | for days 1 to 31 the English ordinal: `st` for 1, 21, 31, `nd` for 2, 22, `rd` for 3, 23, `th` otherwise |
| AknUtils.DateSuffixOutside | actsetl/akn/utils.py:98-101 | outside the month: day 0 gives `0rd`, day 34 the IndexError |
| AknUtils.EliUriFragment | actsetl/akn/utils.py:35-41 | work `/eli/ie/oireachtas/<year>/act/<number>`, expression work `/<status>/<lang>`, manifestation expression `/akn`; each a prefix of the next |
| AknUtils.EliUriComponents | actsetl/akn/utils.py:35-41 | when no field holds `/`, splitting the manifestation URI gives back year, number, status and language in their places |
| AknUtils.Unstyled | actsetl/akn/utils.py:115-116 | the attribute maps with `style` dropped from the chosen elements and nothing else changed |
| AknUtils.UnstyledIdempotent | actsetl/akn/utils.py:115-116 | dropping the styles twice is dropping them once |
| AknUtils.PopStyles | actsetl/akn/utils.py:104-117 | every element of the document loses `style`, and nothing else changes |
| AknUtils.FindPath | actsetl/akn/utils.py:179 | `find("a/b/c")`: an element reached by children with those tags, the first in document order, or none when no chain exists |
| AknUtils.ModsInBodies | actsetl/akn/utils.py:180 | `body//mod` over a list of elements: an element is selected exactly when it is a `mod` strictly below one of the `body` elements of the list; over siblings none is selected twice |
| AknUtils.ModsInActs | actsetl/akn/utils.py:180 | `act/body//mod` over a list of elements: an element is selected exactly when it is a `mod` strictly below a `body` child of an `act` of the list; over siblings none is selected twice |
| AknUtils.Mods | actsetl/akn/utils.py:180 | `./act/body//mod`: an element is selected exactly when it is a `mod` strictly below a `body` child of an `act` child of the root, and none is selected twice |
| AknUtils.NewTextualMod | actsetl/akn/utils.py:185-189 | a fresh `textualMod` of type `substitution` with a `source` to `#eId` and a `destination` to `/` |
| AknUtils.RecordMod | actsetl/akn/utils.py:184-190 | the new `textualMod` is the last child of the list; old elements keep tag, attributes, text and tail |
| AknUtils.RemoveList | actsetl/akn/utils.py:181-183 | the list is removed from `analysis`; no `analysis` is an AttributeError, no list a TypeError, and a failure leaves the tree as it was |
| AknUtils.RecordAll | actsetl/akn/utils.py:184-190 | success exactly when the list exists and every mod has an eId; with no list the eId of the first mod is read first: KeyError without it, AttributeError with it |
| AknUtils.RecordInto | actsetl/akn/utils.py:184-190 | one recorded `textualMod` per mod, in order, appended to the list; KeyError at the first mod without an eId |
| AknUtils.ActiveMods | actsetl/akn/utils.py:168-191 | no `mod`: the list is removed; otherwise one `textualMod` per `mod`, in document order, appended to the list |
| TextMatch.NewWrapper | actsetl/akn/utils.py:199-204 | no list of matches is an empty one |
| TextMatch.SplitFirst | actsetl/akn/utils.py:228-235 | the text is the part before, the match and the part after, and the match does not occur earlier |
| TextMatch.SplitFirstUnique | actsetl/akn/utils.py:228-235 | no other split at a first occurrence exists |
| TextMatch.Cut | actsetl/akn/utils.py:228-233 | the text (or tail) keeps what comes before the first occurrence |
| TextMatch.NewHolder | actsetl/akn/utils.py:234-235 | a fresh element of the tag holding the match, with the rest as its tail |
| TextMatch.WrapText | actsetl/akn/utils.py:227-239 | the cut text, a new wrapper holding the match with the rest as tail, appended last to the element or, for a child, to its parent; AttributeError exactly for a child without a parent |
| TextMatch.WalkIsPreorder | actsetl/akn/utils.py:217 | on an unchanged tree the walk visits the elements in document order, which is lxml's `iter()` order |
| TextMatch.Visit | actsetl/akn/utils.py:222-225 | the wrapping of one element's text, then its tail: each is cut at the first occurrence exactly when it holds the match, a wrapper holding the match with the rest as its tail is made for each cut, in that order, and appended to the children of the element's parent; nothing else changes; it fails, with AttributeError, exactly when something was to be wrapped and the element has no parent; neither holding the match means no change |
| TextMatch.VisitComposes | actsetl/akn/utils.py:222-225 | wrapping the text when it holds the match, then the tail when it does, is such a visit |
| TextMatch.CutLacks | actsetl/akn/utils.py:228-233 | the part kept before a first occurrence holds no occurrence, so a cut text is never cut again |
| TextMatch.KeepsCut | actsetl/akn/utils.py:216-225 | a text cut at most once, visited again, is still cut at most once |
| TextMatch.IterChildren | actsetl/akn/utils.py:216-225 | the walk stops at an element of the tag whose text holds the match; old elements keep tag, attributes, parent, and, when of the tag, text; every other text and tail is kept or cut once at the first occurrence of the match; new elements are wrappers of the match hung under old elements; a failure is the AttributeError of a start without a parent |
| TextMatch.IterMatches | actsetl/akn/utils.py:206-214 | every element made is a wrapper of the tag holding one of the matches; an empty list of matches means no change |

## Left out

- `parse_p` and `parse_table`: the markup surgery (stripped tags,
  footnotes, images, code points, style values, column widths) is not
  modelled; `Extraction.ParseP` and `Extraction.ParseTable` return a fresh
  element with the paragraph's tag and text only.
- `transform_xml`, `parse_body`, `parse_toplevel_elem`, `parse_schedule`,
  `generate_toc`, `act_metadata`, `akn_root`, `akn_notes`, `akn_write`,
  `write_xml`, the skeleton, the HTML output and the command line: file
  I/O, XSLT, XSD validation, dates and YAML, and outside the structure
  recovery; `parse_body` and `generate_toc` also call names their files
  never define.
- Logging: the warnings have no effect on the results.
- Regular-expression classes are ASCII: `\d`, `\w`, `str.isalnum`,
  `str.lower` (in `eid_snippet` and in the destination key of
  `Amendments.DestinationKey`) and IGNORECASE are modelled on ASCII
  characters only. White space (`Text.IsSpace`, used for `\s`, `str.strip`,
  `str.lstrip` and `str.split`) is Python's full `str.isspace` set.
- The quote characters of the inline pattern are the straight `"` and `'`,
  the set `QuoteChars` in the `Text` module, as the code spells them.
- Element names are plain tags: namespaces and `etree.QName(c).localname`
  are not modelled.
- `eisb.py` imports `parsing_errors_writer`, which `actsetl/akn/utils.py`
  does not define, and its `quoteend` branch builds a `Provision` that only
  exists inside `parse_section`: the model gives eisb.py's code the
  behaviour it evidently intends and does not reproduce the ImportError or
  the NameError.
- Amendments.AmendmentParser.FillQuote: for the `eisb.py` copy the contract
  does not state which children the rebuilt hierarchy gives the
  `quotedStructure`; the rebuild is carried out but only its errors are
  stated.
- Amendments.AmendmentParser.CloseQuote: the `endQuote` and the empty
  `quotedStructure` are stated for the current copy only, for the reason
  above.
- Legacy.LegacyIdentify: the italic `ital.text` is taken as empty when
  missing, where `eisb.py`'s `p.text += ital.text + ital.tail` would raise
  TypeError on an empty `<i>`.
- A `quoteend` provision handed back in IDLE reaches `append_subdiv`
  without an element; the model reports that as a failure of
  `Structure.SectionHierarchy`, which lxml raises as a TypeError.
- TextMatch.IterChildren: Python's walk has no bound; the model's visits at
  most `fuel` elements and `TextMatch.IterMatches` returns `Success(false)`
  when a walk runs out. A wrapper is appended as the last child of its
  host, which can put the wrapped text out of reading order; the model
  keeps that.
- TextMatch.IterMatches: the contract states what every new element is and
  that an empty list of matches means no change, not where each wrapper
  ends up.
- TextMatch.IterChildren: each visit is stated exactly by
  `TextMatch.Visit`, but the walk's contract states only that every text
  and tail was kept or cut once at the first occurrence, not which of the
  visited elements were cut, nor which wrapper hangs under which parent.
- Legacy.LegacyNodeRows, Legacy.LegacyEmitNode, Legacy.LegacyExtract,
  Legacy.LegacyExtractNodes and Legacy.LegacyParseSection classify with
  `Legacy.LegacyIdentify`, which does the italic combining first (the
  corrected behaviour of the finding below); `eisb.py` as written keeps a
  paragraph such as `(<i>a</i>) text` as a `tblock` without number, which
  `Legacy.LegacyIdentifyAsWritten` models.
- Structure.SectionHierarchy: the exact container of each structural
  provision (`Structure.Located`) is stated only when every provision's
  element starts without a parent, as the extractor's new elements do; a
  content provision is stated to sit in a `content` or `intro` child of its
  current parent, not which one when there are several.
- Structure.FixHeadings: the pass is stated to leave no visited element
  qualifying, but that a second run selects no new element is not proved.
- Sections.ProcessAmendmentsAndBuild and Legacy.LegacyProcessAmendments:
  the new parent of each attached inline mod is stated at the step that
  attaches it (`Sections.DriveOne`, `Legacy.LegacyDriveOne`), not in the
  contract of the whole run, where later steps may move elements again.
- Legacy.LegacyProcessAmendments: for an inline mod the run states that
  the latest provision with the instruction's text had an element, not
  that a mod was left unplaced exactly when there was no such provision.
- AknUtils.DateSuffix: days are Python integers; negative days follow
  Python's negative index and are not otherwise singled out.
- Concurrency and floating point do not arise in the core; the `/2` style
  values are inside `parse_p` and `parse_table`.

## Findings

| source | as written | input that shows it | evidently intended | confidence | as-written member | corrected member |
|---|---|---|---|---|---|---|
| actsetl/parsers/eisb.py:469-476 | the combining of a lone `(` with an italic run is tried only after the paragraph pattern has matched the text, which a lone `(` never does, so the step and its re-check are dead | `<p class="0 0 0 left 0 0">(<i>a</i>) text</p>` stays a `tblock` with no number | combine first, then classify, as the re-check after it and `eisb_provisions.py:221-226` do: paragraph `(a)` | not executed | Legacy.ItalicExampleAsWritten | Legacy.ItalicExampleCombined |
