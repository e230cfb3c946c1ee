/** `build_active_modifications` of `eisb_structure.py` (and its copy in
    `eisb.py`): the `activeModifications` block that lists, one
    `textualMod` per record, every amendment an act makes. The block is a
    fresh element built from values, so it is modelled as a value. */
module Modifications {
  import opened Wrappers
  import opened Provisions

  /** A freshly built element: tag, attributes, text and children. */
  datatype Elem = Elem(tag: string, attrs: map<string, string>, text: Option<string>, children: seq<Elem>)

  /** Python's truth value of an optional string: `None` and `""` are false. */
  predicate Truthy(s: Option<string>) {
    s.Some? && s.value != ""
  }

  /** `E.textualMod(type=...)` with `source`, `destination` and, when the
      record carries them, `old` and `new`. */
  function TextualMod(m: AmendmentMetadata): (t: Elem)
    ensures t.tag == "textualMod" && t.attrs == map["type" := m.kind] && t.text == None
    ensures |t.children| == 2 + (if Truthy(m.oldText) then 1 else 0) + (if Truthy(m.newText) then 1 else 0)
    ensures t.children[0].tag == "source" && "href" in t.children[0].attrs && t.children[0].attrs["href"] == m.sourceEId
    ensures t.children[1].tag == "destination" && "href" in t.children[1].attrs
      && t.children[1].attrs["href"] == m.destinationUri
    ensures "pos" in t.children[1].attrs <==> Truthy(m.position)
  {
    var dest := map["href" := m.destinationUri];
    var dest := if Truthy(m.position) then dest["pos" := m.position.value] else dest;
    var olds := if Truthy(m.oldText) then [Elem("old", map[], m.oldText, [])] else [];
    var news := if Truthy(m.newText) then [Elem("new", map[], m.newText, [])] else [];
    Elem("textualMod", map["type" := m.kind], None,
      [Elem("source", map["href" := m.sourceEId], None, []), Elem("destination", dest, None, [])] + olds + news)
  }

  /** The `textualMod` elements for `ms`, in order. */
  function Mods(ms: seq<AmendmentMetadata>): (r: seq<Elem>)
    ensures |r| == |ms|
    ensures forall i :: 0 <= i < |ms| ==> r[i] == TextualMod(ms[i])
  {
    if ms == [] then [] else [TextualMod(ms[0])] + Mods(ms[1..])
  }

  /** `build_active_modifications(mod_info_list)` */
  function BuildActiveModifications(ms: seq<AmendmentMetadata>): (r: Elem)
    ensures r.tag == "activeModifications" && r.attrs == map[] && |r.children| == |ms|
    ensures forall i :: 0 <= i < |ms| ==> r.children[i].tag == "textualMod"
  {
    Elem("activeModifications", map[], None, Mods(ms))
  }

  /** What a record looks like once written out: an empty position, old
      text or new text is not written, so it reads back as `None`. */
  function Written(m: AmendmentMetadata): AmendmentMetadata {
    m.(position := if Truthy(m.position) then m.position else None,
       oldText := if Truthy(m.oldText) then m.oldText else None,
       newText := if Truthy(m.newText) then m.newText else None)
  }

  /** The optional child with tag `t` at the head of `es`, read as its text. */
  function OptionalText(es: seq<Elem>, t: string): (Option<string>, seq<Elem>) {
    if es != [] && es[0].tag == t && es[0].text.Some? then (es[0].text, es[1..]) else (None, es)
  }

  /** Reads a record back out of a `textualMod` element. */
  function ReadMod(t: Elem): Option<AmendmentMetadata> {
    if t.tag != "textualMod" || "type" !in t.attrs || |t.children| < 2 then None
    else
      var src, dst := t.children[0], t.children[1];
      if src.tag != "source" || "href" !in src.attrs || dst.tag != "destination" || "href" !in dst.attrs then None
      else
        var pos := if "pos" in dst.attrs then Some(dst.attrs["pos"]) else None;
        var (oldText, rest) := OptionalText(t.children[2..], "old");
        var (newText, rest) := OptionalText(rest, "new");
        if rest != [] then None
        else Some(AmendmentMetadata(t.attrs["type"], src.attrs["href"], dst.attrs["href"], pos, oldText, newText))
  }

  /** Reads every record back out of an `activeModifications` element. */
  function ReadMods(es: seq<Elem>): Option<seq<AmendmentMetadata>> {
    if es == [] then Some([])
    else
      match (ReadMod(es[0]), ReadMods(es[1..]))
      case (Some(m), Some(ms)) => Some([m] + ms)
      case _ => None
  }

  /** A `textualMod` carries its record in full, up to the empty strings
      that are not written. */
  lemma ReadTextualMod(m: AmendmentMetadata)
    ensures ReadMod(TextualMod(m)) == Some(Written(m))
  {
    var t := TextualMod(m);
    var rest := t.children[2..];
    if Truthy(m.oldText) {
      assert rest[0] == Elem("old", map[], m.oldText, []);
    }
    if Truthy(m.newText) {
      assert rest[|rest| - 1] == Elem("new", map[], m.newText, []);
    }
  }

  /** The records as they read back, in order. */
  function WrittenAll(ms: seq<AmendmentMetadata>): (r: seq<AmendmentMetadata>)
    ensures |r| == |ms| && forall i :: 0 <= i < |ms| ==> r[i] == Written(ms[i])
  {
    if ms == [] then [] else [Written(ms[0])] + WrittenAll(ms[1..])
  }

  /** `build_active_modifications` writes one `textualMod` per record, in
      input order, and nothing else: reading the block back gives the
      records, up to the empty strings that are not written. */
  lemma ReadBuild(ms: seq<AmendmentMetadata>)
    ensures ReadMods(BuildActiveModifications(ms).children) == Some(WrittenAll(ms))
  {
    ReadModsOf(ms);
  }

  lemma {:induction false} ReadModsOf(ms: seq<AmendmentMetadata>)
    ensures ReadMods(Mods(ms)) == Some(WrittenAll(ms))
  {
    if ms != [] {
      ReadTextualMod(ms[0]);
      ReadModsOf(ms[1..]);
      var es := Mods(ms);
      assert es[0] == TextualMod(ms[0]);
      assert es[1..] == Mods(ms[1..]);
    }
  }
}
